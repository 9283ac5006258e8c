/**
 * The wildcard edit form of the renderer (renderer.php,
 * render_wildcard_form): the wildcards sorted by case-folded name and then
 * id, padded with blank entries up to a minimum row count, and one form row
 * per entry with a running suffix and a delete box for stored wildcards only.
 * The HTML text itself is presentation and is not modelled.
 */
module Renderer {
  import opened PhpText
  import opened LocalLib

  /** wildcard_cmp: case-folded name first, then id; -1, 0 or 1. */
  function WildcardCmp(a: Wildcard, b: Wildcard): (r: int)
    ensures r == -1 || r == 0 || r == 1
    ensures r == 0 <==> ToLower(a.name) == ToLower(b.name) && a.id == b.id
  {
    var aName, bName := ToLower(a.name), ToLower(b.name);
    if aName != bName then (if StrLess(aName, bName) then -1 else 1)
    else if a.id != b.id then (if a.id < b.id then -1 else 1)
    else 0
  }

  /** The comparison is by case-folded name first; the id only breaks ties. */
  lemma WildcardCmpOrdersByName(a: Wildcard, b: Wildcard)
    ensures StrLess(ToLower(a.name), ToLower(b.name)) ==> WildcardCmp(a, b) == -1
    ensures ToLower(a.name) == ToLower(b.name) ==>
      WildcardCmp(a, b) == (if a.id < b.id then -1 else if a.id == b.id then 0 else 1)
  {
    if StrLess(ToLower(a.name), ToLower(b.name)) {
      StrLessIrreflexive(ToLower(a.name));
    }
  }

  /** Swapping the arguments negates the comparison. */
  lemma WildcardCmpAntisymmetric(a: Wildcard, b: Wildcard)
    ensures WildcardCmp(a, b) == -WildcardCmp(b, a)
  {
    StrLessTrichotomy(ToLower(a.name), ToLower(b.name));
  }

  /** "Sorts no later than" is transitive. */
  lemma WildcardCmpTransitive(a: Wildcard, b: Wildcard, c: Wildcard)
    requires WildcardCmp(a, b) <= 0 && WildcardCmp(b, c) <= 0
    ensures WildcardCmp(a, c) <= 0
  {
    var an, bn, cn := ToLower(a.name), ToLower(b.name), ToLower(c.name);
    StrLessTrichotomy(an, bn);
    StrLessTrichotomy(bn, cn);
    StrLessTrichotomy(an, cn);
    if an != bn && bn != cn {
      StrLessTransitive(an, bn, cn);
      if an == cn {
        StrLessIrreflexive(an);
      }
    }
  }

  predicate SortedByCmp(s: seq<Wildcard>) {
    forall i, j :: 0 <= i < j < |s| ==> WildcardCmp(s[i], s[j]) <= 0
  }

  /** Insert one wildcard before the first entry it does not sort after. */
  function Insert(x: Wildcard, s: seq<Wildcard>): (r: seq<Wildcard>)
    ensures |r| == |s| + 1
    ensures multiset(r) == multiset(s) + multiset{x}
    decreases |s|
  {
    if |s| == 0 then [x]
    else if WildcardCmp(x, s[0]) <= 0 then [x] + s
    else
      assert s == [s[0]] + s[1..];
      [s[0]] + Insert(x, s[1..])
  }

  /** Everything Insert puts after the head of a sorted list sorts no earlier than that head. */
  lemma HeadPrecedesInserted(x: Wildcard, s: seq<Wildcard>)
    requires |s| > 0 && SortedByCmp(s) && WildcardCmp(s[0], x) <= 0
    ensures forall j :: 0 <= j < |Insert(x, s[1..])| ==> WildcardCmp(s[0], Insert(x, s[1..])[j]) <= 0
  {
    var t := Insert(x, s[1..]);
    forall j | 0 <= j < |t| ensures WildcardCmp(s[0], t[j]) <= 0 {
      assert t[j] in multiset(t);
      if t[j] != x {
        assert t[j] in multiset(s[1..]);
        var k :| 0 <= k < |s[1..]| && s[1..][k] == t[j];
        assert s[k + 1] == t[j];
      }
    }
  }

  /** Inserting into a sorted list keeps it sorted. */
  lemma {:induction false} InsertSorted(x: Wildcard, s: seq<Wildcard>)
    requires SortedByCmp(s)
    ensures SortedByCmp(Insert(x, s))
    decreases |s|
  {
    if |s| > 0 {
      var r := Insert(x, s);
      if WildcardCmp(x, s[0]) <= 0 {
        forall i, j | 0 <= i < j < |r| ensures WildcardCmp(r[i], r[j]) <= 0 {
          if i == 0 && j > 1 {
            WildcardCmpTransitive(x, s[0], s[j - 1]);
          }
        }
      } else {
        var t := Insert(x, s[1..]);
        InsertSorted(x, s[1..]);
        WildcardCmpAntisymmetric(x, s[0]);
        HeadPrecedesInserted(x, s);
        assert r == [s[0]] + t;
        forall i, j | 0 <= i < j < |r| ensures WildcardCmp(r[i], r[j]) <= 0 {
          if i == 0 {
            assert r[j] == t[j - 1];
          } else {
            assert r[i] == t[i - 1] && r[j] == t[j - 1];
          }
        }
      }
    }
  }

  /**
   * What uasort($wildcards, wildcard_cmp) leaves: the same wildcards,
   * ordered by wildcard_cmp.
   */
  function SortWildcards(s: seq<Wildcard>): (r: seq<Wildcard>)
    ensures SortedByCmp(r)
    ensures multiset(r) == multiset(s)
    ensures |r| == |s|
    decreases |s|
  {
    if |s| == 0 then []
    else
      assert s == s[..|s| - 1] + [s[|s| - 1]];
      var sortedInit := SortWildcards(s[..|s| - 1]);
      InsertSorted(s[|s| - 1], sortedInit);
      Insert(s[|s| - 1], sortedInit)
  }

  /** The padding entry: id 0, empty name, no values. */
  const BlankWildcard: Wildcard := Wildcard(0, "", [], 0)

  /**
   * The padding loop (renderer.php, lines 81-89): blank entries are appended
   * until the list has `minRows` entries; the original entries stay in front
   * unchanged.
   */
  method PadWildcards(wildcards: seq<Wildcard>, minRows: int) returns (padded: seq<Wildcard>)
    ensures |padded| == if minRows > |wildcards| then minRows else |wildcards|
    ensures padded[..|wildcards|] == wildcards
    ensures forall k :: |wildcards| <= k < |padded| ==> padded[k] == BlankWildcard
  {
    padded := wildcards;
    var need := minRows - |wildcards|;
    var i := 0;
    while i < need
      invariant 0 <= i <= if need < 0 then 0 else need
      invariant |padded| == |wildcards| + i
      invariant padded[..|wildcards|] == wildcards
      invariant forall k :: |wildcards| <= k < |padded| ==> padded[k] == BlankWildcard
    {
      padded := padded + [BlankWildcard];
      i := i + 1;
    }
  }

  /** The field-name suffix of the k-th form row. */
  function Suffix(k: nat): string {
    "_" + NatToString(k)
  }

  /** Different rows have different field names. */
  lemma SuffixInjective(i: nat, j: nat)
    requires Suffix(i) == Suffix(j)
    ensures i == j
  {
    assert Suffix(i)[1..] == NatToString(i);
    assert Suffix(j)[1..] == NatToString(j);
    NatToStringInjective(i, j);
  }

  /** One row of the wildcard table: field suffix, id, name, current values, and whether it has a delete box. */
  datatype FormRow = FormRow(suffix: string, id: int, name: string, values: seq<string>, deleteBox: bool)

  function RowFor(k: nat, wc: Wildcard): FormRow {
    FormRow(Suffix(k), wc.id, wc.name, wc.values, wc.id > 0)
  }

  /**
   * The row-building loop (renderer.php, lines 92-117): row k shows entry k
   * under suffix `_k`, with a delete box only when the wildcard is stored
   * (id > 0).
   */
  method BuildRows(wildcards: seq<Wildcard>) returns (rows: seq<FormRow>)
    ensures |rows| == |wildcards|
    ensures forall k :: 0 <= k < |rows| ==> rows[k] == RowFor(k, wildcards[k])
    ensures forall k :: 0 <= k < |rows| ==> (rows[k].deleteBox <==> wildcards[k].id > 0)
    ensures forall i, j :: 0 <= i < j < |rows| ==> rows[i].suffix != rows[j].suffix
  {
    rows := [];
    var i := 0;
    while i < |wildcards|
      invariant 0 <= i <= |wildcards| && |rows| == i
      invariant forall k :: 0 <= k < i ==> rows[k] == RowFor(k, wildcards[k])
    {
      var wc := wildcards[i];
      rows := rows + [FormRow(Suffix(i), wc.id, wc.name, wc.values, wc.id > 0)];
      i := i + 1;
    }
    forall i, j | 0 <= i < j < |rows| ensures rows[i].suffix != rows[j].suffix {
      if rows[i].suffix == rows[j].suffix {
        SuffixInjective(i, j);
      }
    }
  }

  /**
   * render_wildcard_form without the HTML (renderer.php, lines 49-123): the
   * wildcards sorted by wildcard_cmp, then blank rows up to `minRows`, one
   * form row each.
   */
  method RenderWildcardForm(wildcards: seq<Wildcard>, minRows: int) returns (rows: seq<FormRow>)
    ensures |rows| == if minRows > |wildcards| then minRows else |wildcards|
    ensures forall k :: 0 <= k < |wildcards| ==> rows[k] == RowFor(k, SortWildcards(wildcards)[k])
    ensures forall k :: |wildcards| <= k < |rows| ==> rows[k] == RowFor(k, BlankWildcard)
    ensures forall k :: 0 <= k < |rows| ==> (rows[k].deleteBox <==> rows[k].id > 0)
    ensures forall i, j :: 0 <= i < j < |rows| ==> rows[i].suffix != rows[j].suffix
  {
    var sorted := SortWildcards(wildcards);
    var padded := PadWildcards(sorted, minRows);
    assert forall k :: 0 <= k < |wildcards| ==> padded[k] == padded[..|sorted|][k];
    rows := BuildRows(padded);
  }
}
