/** The column allowlist that guards user-supplied column names before they
    are interpolated into a query. */
module ArkivType {
  import opened Types

  /** Names of the special attributes; none of them is a column. */
  const KeyAttributeKey: string := "$key"
  const CreatorAttributeKey: string := "$creator"
  const OwnerAttributeKey: string := "$owner"
  const ExpirationAttributeKey: string := "$expiration"
  const SequenceAttributeKey: string := "$sequence"

  /** Every physically queryable column, in declaration order. */
  const AllColumns: seq<string> := [
    "key",
    "payload",
    "content_type",
    "expires_at",
    "owner_address",
    "created_at_block",
    "last_modified_at_block",
    "transaction_index_in_block",
    "operation_index_in_transaction"
  ]

  datatype ColumnEntry = ColumnEntry(Index: int, Name: string)

  /** Go's zero value of `columnEntry`, which a failed map lookup yields. */
  const ZeroColumn: ColumnEntry := ColumnEntry(0, "")

  const InvalidColumnPrefix: string := "invalid column name: "

  ghost predicate Distinct(s: seq<string>) {
    forall i, j :: 0 <= i < j < |s| ==> s[i] != s[j]
  }

  /** The map `init` builds from `cols`: each name is stored under itself
      together with a position where it occurs. */
  function BuildMapping(cols: seq<string>): (m: map<string, ColumnEntry>)
    ensures m.Keys == set c | c in cols
    ensures forall c :: c in m ==>
              && m[c].Name == c
              && 0 <= m[c].Index < |cols|
              && cols[m[c].Index] == c
    decreases |cols|
  {
    if |cols| == 0 then map[]
    else
      var i := |cols| - 1;
      BuildMapping(cols[..i])[cols[i] := ColumnEntry(i, cols[i])]
  }

  /** A later duplicate overwrites an earlier one: the position recorded for
      a name is its last occurrence. */
  lemma {:induction false} BuildMappingKeepsLastOccurrence(cols: seq<string>, c: string, j: int)
    requires c in BuildMapping(cols)
    requires BuildMapping(cols)[c].Index < j < |cols|
    ensures cols[j] != c
    decreases |cols|
  {
    var i := |cols| - 1;
    if j < i {
      var prefix := cols[..i];
      assert c != cols[i];
      assert BuildMapping(cols)[c] == BuildMapping(prefix)[c];
      BuildMappingKeepsLastOccurrence(prefix, c, j);
      assert prefix[j] == cols[j];
    }
  }

  /** The package's `init` loop over the column list. */
  method InitMapping(cols: seq<string>) returns (m: map<string, ColumnEntry>)
    ensures m == BuildMapping(cols)
  {
    m := map[];
    var i := 0;
    while i < |cols|
      invariant 0 <= i <= |cols|
      invariant m == BuildMapping(cols[..i])
    {
      assert cols[..i + 1][..i] == cols[..i];
      m := m[cols[i] := ColumnEntry(i, cols[i])];
      i := i + 1;
    }
    assert cols[..|cols|] == cols;
  }

  /** The allowlist, built once and never mutated afterwards. */
  const AllColumnsMapping: map<string, ColumnEntry> := BuildMapping(AllColumns)

  /** Over a list without duplicates every name maps to its own position. */
  lemma BuildMappingPositions(cols: seq<string>)
    requires Distinct(cols)
    ensures forall i :: 0 <= i < |cols| ==> BuildMapping(cols)[cols[i]] == ColumnEntry(i, cols[i])
  {
    var m := BuildMapping(cols);
    forall i | 0 <= i < |cols|
      ensures m[cols[i]] == ColumnEntry(i, cols[i])
    {
      assert cols[i] in m;
      var j := m[cols[i]].Index;
      assert cols[j] == cols[i];
    }
  }

  /** Over a list without duplicates the map has as many entries as the list. */
  lemma {:induction false} BuildMappingSize(cols: seq<string>)
    requires Distinct(cols)
    ensures |BuildMapping(cols)| == |cols|
    decreases |cols|
  {
    if |cols| > 0 {
      var i := |cols| - 1;
      var prefix := cols[..i];
      assert Distinct(prefix);
      BuildMappingSize(prefix);
      var pm := BuildMapping(prefix);
      assert forall j :: 0 <= j < i ==> prefix[j] != cols[i];
      assert cols[i] !in prefix;
      assert BuildMapping(cols).Keys == pm.Keys + {cols[i]};
    }
  }

  lemma AllColumnsDistinct()
    ensures Distinct(AllColumns)
  {
  }

  /** The allowlist has one entry per column, at the column's position. */
  lemma AllColumnsMappingShape()
    ensures |AllColumnsMapping| == 9
    ensures forall i :: 0 <= i < |AllColumns| ==>
              AllColumnsMapping[AllColumns[i]] == ColumnEntry(i, AllColumns[i])
  {
    AllColumnsDistinct();
    BuildMappingSize(AllColumns);
    BuildMappingPositions(AllColumns);
  }

  /** `getColumn`: the allowlist entry of `name`, or an error whose text is
      built from the zero-value entry the failed lookup returned. */
  function LookupColumn(name: string): (r: Result<ColumnEntry>)
    ensures r.Ok? <==> name in AllColumns
    ensures r.Ok? ==> r.value.Name == name && 0 <= r.value.Index < |AllColumns|
    ensures r.Ok? ==> AllColumns[r.value.Index] == name
    ensures r.Err? ==> r.error == InvalidColumnName(InvalidColumnPrefix)
  {
    assert InvalidColumnPrefix + ZeroColumn.Name == InvalidColumnPrefix;
    var found := name in AllColumnsMapping;
    var column := if found then AllColumnsMapping[name] else ZeroColumn;
    if !found then Err(InvalidColumnName(InvalidColumnPrefix + column.Name))
    else Ok(column)
  }

  /** `GetColumn`: accepts exactly the allowlisted names and returns them unchanged. */
  function GetColumn(name: string): (r: Result<string>)
    ensures r.Ok? <==> name in AllColumns
    ensures r.Ok? ==> r.value == name
    ensures r.Err? ==> r.error == InvalidColumnName(InvalidColumnPrefix)
  {
    match LookupColumn(name)
    case Err(e) => Err(e)
    case Ok(column) => Ok(column.Name)
  }

  /** `GetColumnOrPanic`: for internal literals only; an unknown name is a
      programming error (a panic), so it is a precondition here. */
  function GetColumnOrPanic(name: string): (r: string)
    requires name in AllColumns
    ensures r == name
    ensures GetColumn(name) == Ok(r)
  {
    LookupColumn(name).value.Name
  }

  /** No name starting with `$` passes the allowlist, so none of the special
      attribute names does. */
  lemma SpecialAttributesRejected(name: string)
    requires |name| > 0 && name[0] == '$'
    ensures GetColumn(name).Err?
    ensures GetColumn(KeyAttributeKey).Err? && GetColumn(CreatorAttributeKey).Err?
    ensures GetColumn(OwnerAttributeKey).Err? && GetColumn(ExpirationAttributeKey).Err?
    ensures GetColumn(SequenceAttributeKey).Err?
  {
    assert forall i :: 0 <= i < |AllColumns| ==> AllColumns[i][0] != '$';
  }

  /** As written, the rejection message never names the rejected column:
      two different unknown names yield the very same error. */
  lemma GetColumnErrorOmitsName()
    ensures GetColumn("; DROP TABLE x") == Err(InvalidColumnName("invalid column name: "))
    ensures GetColumn("; DROP TABLE x") == GetColumn("$creator")
  {
    assert "; DROP TABLE x" !in AllColumns;
    assert "$creator" !in AllColumns;
  }

  /** The evidently intended lookup: the error names the rejected input. */
  function GetColumnReportingName(name: string): (r: Result<string>)
    ensures r.Ok? <==> name in AllColumns
    ensures r.Ok? ==> r.value == name
    ensures r.Err? ==> r.error == InvalidColumnName(InvalidColumnPrefix + name)
  {
    if name in AllColumnsMapping then Ok(AllColumnsMapping[name].Name)
    else Err(InvalidColumnName(InvalidColumnPrefix + name))
  }

  /** With the corrected message, distinct rejected names give distinct
      errors, and the accepted names behave as in `GetColumn`. */
  lemma GetColumnReportingNameIdentifiesInput(n1: string, n2: string)
    requires GetColumnReportingName(n1).Err? && GetColumnReportingName(n2).Err?
    requires GetColumnReportingName(n1) == GetColumnReportingName(n2)
    ensures n1 == n2
    ensures GetColumn(n1).Err?
  {
    var p := InvalidColumnPrefix;
    assert (p + n1)[|p|..] == n1;
    assert (p + n2)[|p|..] == n2;
  }
}
