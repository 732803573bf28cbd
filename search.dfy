/** The search: a case-insensitive substring test on `EST_ID` and `EST_NAME`,
    evaluated as a boolean mask and applied by boolean indexing. */
module Search {
  import opened Text
  import opened Frame

  /** The row predicate: the lower-cased query occurs in the lower-cased id or name. */
  predicate Matches(r: Record, query: string)
    ensures Matches(r, query) <==>
      (exists i :: OccursAt(Lower(r.estId), Lower(query), i))
      || (exists i :: OccursAt(Lower(r.estName), Lower(query), i))
  {
    ContainsIff(Lower(r.estId), Lower(query));
    ContainsIff(Lower(r.estName), Lower(query));
    Contains(Lower(r.estId), Lower(query)) || Contains(Lower(r.estName), Lower(query))
  }

  /** The boolean series `id.lower().contains(q) | name.lower().contains(q)`, one entry per row. */
  function Mask(rows: seq<Record>, query: string): (m: seq<bool>)
    ensures |m| == |rows|
    ensures forall i :: 0 <= i < |rows| ==> (m[i] <==> Matches(rows[i], query))
  {
    seq(|rows|, i requires 0 <= i < |rows| => Matches(rows[i], query))
  }

  /** The positions at or after `i` where `mask` is true, in ascending order. */
  function PositionsFrom(mask: seq<bool>, i: nat): (p: seq<nat>)
    requires i <= |mask|
    ensures forall k :: 0 <= k < |p| ==> i <= p[k] < |mask| && mask[p[k]]
    ensures forall k, l :: 0 <= k < l < |p| ==> p[k] < p[l]
    ensures forall j :: i <= j < |mask| && mask[j] ==> j in p
    decreases |mask| - i
  {
    if i == |mask| then []
    else if mask[i] then [i] + PositionsFrom(mask, i + 1)
    else PositionsFrom(mask, i + 1)
  }

  /** Boolean indexing `rows[mask]` from position `i` on: the rows whose mask entry is true. */
  function SelectFrom<T>(rows: seq<T>, mask: seq<bool>, i: nat): (r: seq<T>)
    requires |mask| == |rows| && i <= |rows|
    ensures |r| == |PositionsFrom(mask, i)|
    ensures forall k :: 0 <= k < |r| ==> r[k] == rows[PositionsFrom(mask, i)[k]]
    decreases |rows| - i
  {
    if i == |rows| then []
    else if mask[i] then [rows[i]] + SelectFrom(rows, mask, i + 1)
    else SelectFrom(rows, mask, i + 1)
  }

  /** The positions of the table's rows that match the query, ascending. */
  function MatchPositions(rows: seq<Record>, query: string): seq<nat> {
    PositionsFrom(Mask(rows, query), 0)
  }

  /** The search of lines 44-57: no rows for an empty query, otherwise the masked rows;
      the result keeps the table's columns either way. */
  function Find(t: Table, query: string): (r: Table)
    ensures r.columns == t.columns
    ensures query == "" ==> r.rows == []
  {
    if query == "" then Table(t.columns, [])
    else Table(t.columns, SelectFrom(t.rows, Mask(t.rows, query), 0))
  }

  /** The exact characterisation: for a non-empty query the result lists the table's rows at
      strictly increasing positions, and a position is listed iff its row matches. */
  lemma FindExact(t: Table, query: string)
    requires query != ""
    ensures var r := Find(t, query).rows; var p := MatchPositions(t.rows, query);
      |r| == |p|
      && (forall k :: 0 <= k < |p| ==> p[k] < |t.rows| && r[k] == t.rows[p[k]])
      && (forall k, l :: 0 <= k < l < |p| ==> p[k] < p[l])
      && (forall j :: 0 <= j < |t.rows| ==> (j in p <==> Matches(t.rows[j], query)))
  {
  }

  /** Soundness: every row returned matches the query. */
  lemma FindSound(t: Table, query: string)
    ensures forall r :: r in Find(t, query).rows ==> Matches(r, query)
  {
    if query != "" {
      FindExact(t, query);
    }
  }

  /** Completeness: for a non-empty query every matching row of the table is returned. */
  lemma FindComplete(t: Table, query: string)
    requires query != ""
    ensures forall i :: 0 <= i < |t.rows| && Matches(t.rows[i], query) ==> t.rows[i] in Find(t, query).rows
  {
    FindExact(t, query);
    var p := MatchPositions(t.rows, query);
    forall i | 0 <= i < |t.rows| && Matches(t.rows[i], query)
      ensures t.rows[i] in Find(t, query).rows
    {
      assert i in p;
      var k :| 0 <= k < |p| && p[k] == i;
      assert Find(t, query).rows[k] == t.rows[i];
    }
  }

  /** Exactly the queries with a matching row give a non-empty result. */
  lemma FindNonEmptyIff(t: Table, query: string)
    ensures |Find(t, query).rows| > 0 <==> query != "" && exists i :: 0 <= i < |t.rows| && Matches(t.rows[i], query)
  {
    if query != "" {
      FindExact(t, query);
      if i :| 0 <= i < |t.rows| && Matches(t.rows[i], query) {
        assert i in MatchPositions(t.rows, query);
      }
      if |Find(t, query).rows| > 0 {
        assert Matches(t.rows[MatchPositions(t.rows, query)[0]], query);
      }
    }
  }

  /** Case-insensitivity: queries equal after lower-casing give the same result. */
  lemma FindCaseInsensitive(t: Table, q1: string, q2: string)
    requires Lower(q1) == Lower(q2)
    ensures Find(t, q1) == Find(t, q2)
  {
    LowerEmpty(q1);
    LowerEmpty(q2);
    assert Mask(t.rows, q1) == Mask(t.rows, q2);
  }

  /** When every mask entry from `i` on is true, selection keeps the rest of the rows. */
  lemma {:induction false} SelectAll<T>(rows: seq<T>, mask: seq<bool>, i: nat)
    requires |mask| == |rows| && i <= |rows|
    requires forall j :: i <= j < |mask| ==> mask[j]
    ensures SelectFrom(rows, mask, i) == rows[i..]
    decreases |rows| - i
  {
    if i < |rows| {
      calc {
        SelectFrom(rows, mask, i);
        [rows[i]] + SelectFrom(rows, mask, i + 1);
        { SelectAll(rows, mask, i + 1); }
        [rows[i]] + rows[i + 1..];
        rows[i..];
      }
    }
  }

  /** Searching the result again with the same query changes nothing. */
  lemma FindIdempotent(t: Table, query: string)
    ensures Find(Find(t, query), query) == Find(t, query)
  {
    if query != "" {
      var r := Find(t, query).rows;
      FindSound(t, query);
      SelectAll(r, Mask(r, query), 0);
    }
  }

  /** An example table with ids "0012" and "0099". */
  const Alpha: Record := Record("0012", "Alpha Traders", "Barkatpura", "T1", "E1")
  const Beta: Record := Record("0099", "Beta Corp", "Barkatpura", "T2", "E2")
  const ExampleTable: Table := Table(RequiredColumns, [Alpha, Beta])

  /** A row matches when the lowered query occurs in its lowered id. */
  lemma MatchesById(r: Record, query: string, i: nat)
    requires OccursAt(Lower(r.estId), Lower(query), i)
    ensures Matches(r, query)
  {
    ContainsIff(Lower(r.estId), Lower(query));
  }

  /** A row matches when the lowered query occurs in its lowered name. */
  lemma MatchesByName(r: Record, query: string, i: nat)
    requires OccursAt(Lower(r.estName), Lower(query), i)
    ensures Matches(r, query)
  {
    ContainsIff(Lower(r.estName), Lower(query));
  }

  /** A row does not match when some query character, lower-cased, equals no lower-cased
      character of its id or of its name. */
  lemma NoMatchByChar(r: Record, query: string, k: nat)
    requires k < |query|
    requires forall i :: 0 <= i < |r.estId| ==> LowerChar(r.estId[i]) != LowerChar(query[k])
    requires forall i :: 0 <= i < |r.estName| ==> LowerChar(r.estName[i]) != LowerChar(query[k])
    ensures !Matches(r, query)
  {
    MissingCharNotContained(Lower(r.estId), Lower(query), k);
    MissingCharNotContained(Lower(r.estName), Lower(query), k);
  }

  /** Which example establishment each example query matches, one fact per lemma. */
  lemma AlphaMatchesIdQuery()
    ensures Matches(Alpha, "012")
  {
    assert Lower(Alpha.estId)[1..4] == "012" == Lower("012");
    MatchesById(Alpha, "012", 1);
  }

  lemma BetaMissesIdQuery()
    ensures !Matches(Beta, "012")
  {
    NoMatchByChar(Beta, "012", 2);
  }

  lemma AlphaMissesNameQuery()
    ensures !Matches(Alpha, "corp")
  {
    NoMatchByChar(Alpha, "corp", 0);
  }

  lemma BetaMatchesNameQuery()
    ensures Matches(Beta, "corp")
  {
    assert Lower(Beta.estName)[5..9] == "corp" == Lower("corp");
    MatchesByName(Beta, "corp", 5);
  }

  lemma AlphaMissesZz()
    ensures !Matches(Alpha, "zz")
  {
    NoMatchByChar(Alpha, "zz", 0);
  }

  lemma BetaMissesZz()
    ensures !Matches(Beta, "zz")
  {
    NoMatchByChar(Beta, "zz", 0);
  }

  /** A query on part of an id finds only that establishment. */
  lemma ExampleById()
    ensures Find(ExampleTable, "012").rows == [Alpha]
  {
    AlphaMatchesIdQuery();
    BetaMissesIdQuery();
    var m := Mask(ExampleTable.rows, "012");
    assert m == [true, false];
    assert SelectFrom(ExampleTable.rows, m, 2) == [];
    assert SelectFrom(ExampleTable.rows, m, 1) == [];
    assert SelectFrom(ExampleTable.rows, m, 0) == [Alpha];
  }

  /** A lower-case query on part of a name finds the establishment whatever its case. */
  lemma ExampleByName()
    ensures Find(ExampleTable, "corp").rows == [Beta]
  {
    AlphaMissesNameQuery();
    BetaMatchesNameQuery();
    var m := Mask(ExampleTable.rows, "corp");
    assert m == [false, true];
    assert SelectFrom(ExampleTable.rows, m, 2) == [];
    assert SelectFrom(ExampleTable.rows, m, 1) == [Beta];
    assert SelectFrom(ExampleTable.rows, m, 0) == [Beta];
  }

  /** A query found nowhere, and the empty query, both give no rows. */
  lemma ExampleNoRows()
    ensures Find(ExampleTable, "zz").rows == []
    ensures Find(ExampleTable, "").rows == []
  {
    AlphaMissesZz();
    BetaMissesZz();
    var m := Mask(ExampleTable.rows, "zz");
    assert m == [false, false];
    assert SelectFrom(ExampleTable.rows, m, 2) == [];
    assert SelectFrom(ExampleTable.rows, m, 1) == [];
    assert SelectFrom(ExampleTable.rows, m, 0) == [];
  }
}
