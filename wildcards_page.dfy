/**
 * The wildcard edit page (wildcards.php): on a POST, the submitted rows are
 * collected and the pressed button identified; then the category's
 * wildcards are read with a sample of four values, a sample that leaves
 * values out ends in '...', and the form is rendered with three blank rows
 * below the stored wildcards.
 */
module WildcardsPage {
  import opened Wrappers
  import opened PhpText
  import opened LocalLib
  import opened Renderer

  /** One submitted row: the fields wc_id_i, wc_name_i and wc_del_i. */
  datatype WildcardEdit = WildcardEdit(id: int, name: string, del: bool)

  /** The submit button the page recognises, in the order it tests them. */
  datatype SubmitAction = CancelEdit | SaveAndAddEdit | SaveEdit | UnknownButton

  /** A POST of the wildcard form: the row count, the row fields by index, and the buttons present. */
  datatype WildcardPost = WildcardPost(numRows: int, id: int -> int, name: int -> string, del: int -> bool,
                                       cancel: bool, saveAndAdd: bool, save: bool)

  /** The text that marks a sample with values left out. */
  const ELLIPSIS: string := "..."

  /** The number of blank rows offered below the stored wildcards. */
  const NEW_WILDCARD_ROWS: int := 3

  /**
   * The collection loop (wildcards.php, lines 62-77): rows 0 to
   * num_wildcard_rows - 1, in index order; none when the count is not
   * positive.
   */
  method CollectWildcardEdits(post: WildcardPost) returns (edits: seq<WildcardEdit>)
    ensures |edits| == if post.numRows < 0 then 0 else post.numRows
    ensures forall i :: 0 <= i < |edits| ==> edits[i] == WildcardEdit(post.id(i), post.name(i), post.del(i))
  {
    edits := [];
    var i := 0;
    while i < post.numRows
      invariant 0 <= i <= if post.numRows < 0 then 0 else post.numRows
      invariant |edits| == i
      invariant forall k :: 0 <= k < i ==> edits[k] == WildcardEdit(post.id(k), post.name(k), post.del(k))
    {
      edits := edits + [WildcardEdit(post.id(i), post.name(i), post.del(i))];
      i := i + 1;
    }
  }

  /**
   * The ellipsis (wildcards.php, lines 95-97): when values were left out, the
   * last sampled value is replaced by '...'. PHP's assignment to index -1 of
   * an empty array gives a one-element array.
   */
  function MarkTruncated(w: Wildcard): (r: Wildcard)
    ensures r.id == w.id && r.name == w.name && r.numMoreValues == w.numMoreValues
    ensures w.numMoreValues == 0 ==> r == w
    ensures w.numMoreValues > 0 ==>
      && |r.values| == (if |w.values| == 0 then 1 else |w.values|)
      && r.values[..|r.values| - 1] == w.values[..|r.values| - 1]
      && r.values[|r.values| - 1] == ELLIPSIS
  {
    if w.numMoreValues > 0 then
      if |w.values| == 0 then w.(values := [ELLIPSIS])
      else w.(values := w.values[|w.values| - 1 := ELLIPSIS])
    else w
  }

  /**
   * A sample of at least one value that left values out is full, so after
   * the ellipsis it shows the first `limit - 1` values and then '...'.
   */
  lemma TruncatedSampleShape(w: Wildcard, all: seq<string>, limit: int)
    requires Sampled(w, all, limit) && limit >= 1 && w.numMoreValues > 0
    ensures |all| > limit
    ensures MarkTruncated(w).values == all[..limit - 1] + [ELLIPSIS]
  {
    var r := MarkTruncated(w);
    assert |w.values| == limit;
    assert r.values == r.values[..limit - 1] + [ELLIPSIS];
  }

  /**
   * The loop over the wildcards (wildcards.php, lines 94-98): every entry,
   * under the same key and in the same order, gets its ellipsis.
   */
  method MarkAllTruncated(wildcards: WildcardList) returns (r: WildcardList)
    requires wildcards.Valid()
    ensures r.Valid() && r.ids == wildcards.ids
    ensures forall id :: id in r.byId ==> r.byId[id] == MarkTruncated(wildcards.byId[id])
    ensures forall k :: 0 <= k < |r.ids| ==> r.Entries()[k] == MarkTruncated(wildcards.Entries()[k])
  {
    var byId := wildcards.byId;
    assert forall k :: 0 <= k < |wildcards.ids| ==> wildcards.ids[k] in wildcards.ids;
    assert forall id :: id in wildcards.ids ==> id in wildcards.byId;
    var n := 0;
    while n < |wildcards.ids|
      invariant 0 <= n <= |wildcards.ids|
      invariant forall k :: 0 <= k < |wildcards.ids| ==> wildcards.ids[k] in wildcards.byId
      invariant forall id :: id in byId <==> id in wildcards.byId
      invariant forall k :: 0 <= k < |wildcards.ids| ==> wildcards.ids[k] in byId
      invariant forall k :: 0 <= k < n ==> byId[wildcards.ids[k]] == MarkTruncated(wildcards.byId[wildcards.ids[k]])
      invariant forall k :: n <= k < |wildcards.ids| ==> byId[wildcards.ids[k]] == wildcards.byId[wildcards.ids[k]]
    {
      var id := wildcards.ids[n];
      byId := byId[id := MarkTruncated(byId[id])];
      n := n + 1;
    }
    r := WildcardList(wildcards.ids, byId);
    forall id | id in r.byId ensures r.byId[id] == MarkTruncated(wildcards.byId[id]) {
      var k :| 0 <= k < |wildcards.ids| && wildcards.ids[k] == id;
    }
  }

  /** What the page produces: the collected rows and the button (on a POST), and the form rows. */
  datatype WildcardsPageResult = WildcardsPageResult(edits: seq<WildcardEdit>, action: Option<SubmitAction>,
                                                     rows: seq<FormRow>)

  /** The row shows some definition of `defs`. */
  ghost predicate ShowsSomeDefinition(defs: seq<DefinitionRecord>, row: FormRow) {
    exists d :: d in defs && row.id == d.id && row.name == d.name
  }

  /**
   * The first |defs| form rows show exactly the definitions, each once, in
   * case-insensitive name order, each with at most four values.
   */
  ghost predicate ShowsDefinitions(defs: seq<DefinitionRecord>, rows: seq<FormRow>)
    requires |rows| >= |defs|
  {
    && (forall k :: 0 <= k < |defs| ==> ShowsSomeDefinition(defs, rows[k]))
    && (forall d :: d in defs ==> exists k :: 0 <= k < |defs| && rows[k].id == d.id && rows[k].name == d.name)
    && (forall i, j :: 0 <= i < j < |defs| ==> !StrLess(ToLower(rows[j].name), ToLower(rows[i].name)))
    && (forall k :: 0 <= k < |defs| ==> |rows[k].values| <= DEFAULT_VAL_LIMIT)
  }

  /** Rows in wildcard_cmp order are in case-insensitive name order. */
  lemma CmpOrderIsNameOrder(a: Wildcard, b: Wildcard)
    requires WildcardCmp(a, b) <= 0
    ensures !StrLess(ToLower(b.name), ToLower(a.name))
  {
    WildcardCmpOrdersByName(b, a);
    WildcardCmpAntisymmetric(a, b);
  }

  /**
   * wildcards.php as a whole, given the POST (if any) and the two tables:
   * the rows of a POST are collected and its button identified; the form
   * shows one row per wildcard of the category, in case-insensitive name
   * order, each with at most four values, then exactly three blank rows.
   */
  method HandleWildcardsPage(post: Option<WildcardPost>, defTable: seq<DefinitionRecord>,
                             itemTable: seq<ItemRecord>, category: int)
    returns (r: WildcardsPageResult)
    requires UniqueIds(defTable)
    ensures post.None? ==> r.edits == [] && r.action == None
    ensures post.Some? ==>
      && |r.edits| == (if post.value.numRows < 0 then 0 else post.value.numRows)
      && (forall i :: 0 <= i < |r.edits| ==>
            r.edits[i] == WildcardEdit(post.value.id(i), post.value.name(i), post.value.del(i)))
    ensures post.Some? ==> r.action == Some(
      if post.value.cancel then CancelEdit
      else if post.value.saveAndAdd then SaveAndAddEdit
      else if post.value.save then SaveEdit
      else UnknownButton)
    ensures var defs := DefinitionsOf(defTable, category);
      && |r.rows| == |defs| + NEW_WILDCARD_ROWS
      && (forall k :: |defs| <= k < |r.rows| ==> r.rows[k] == RowFor(k, BlankWildcard))
      && ShowsDefinitions(defs, r.rows)
  {
    var edits: seq<WildcardEdit> := [];
    var action: Option<SubmitAction> := None;
    if post.Some? {
      edits := CollectWildcardEdits(post.value);
      if post.value.cancel {
        action := Some(CancelEdit);
      } else if post.value.saveAndAdd {
        action := Some(SaveAndAddEdit);
      } else if post.value.save {
        action := Some(SaveEdit);
      } else {
        action := Some(UnknownButton);
      }
    }
    var stored := GetWildcards(defTable, itemTable, category, DEFAULT_VAL_LIMIT);
    var shown := MarkAllTruncated(stored);
    var entries := shown.Entries();
    var rows := RenderWildcardForm(entries, |entries| + NEW_WILDCARD_ROWS);
    ShownEntries(DefinitionsOf(defTable, category), stored, shown);
    SortedRowsShowDefinitions(DefinitionsOf(defTable, category), entries, rows);
    r := WildcardsPageResult(edits, action, rows);
  }

  /** Entry k of the marked list is definition k's wildcard, with a sample of at most four values. */
  lemma ShownEntries(defs: seq<DefinitionRecord>, stored: WildcardList, shown: WildcardList)
    requires stored.Valid() && shown.Valid() && shown.ids == stored.ids
    requires |stored.ids| == |defs| && (forall k :: 0 <= k < |defs| ==> stored.ids[k] == defs[k].id)
    requires forall d :: d in defs ==> stored.byId[d.id].id == d.id && stored.byId[d.id].name == d.name
    requires forall id :: id in stored.byId ==> |stored.byId[id].values| <= DEFAULT_VAL_LIMIT
    requires forall id :: id in shown.byId ==> shown.byId[id] == MarkTruncated(stored.byId[id])
    ensures |shown.Entries()| == |defs|
    ensures forall k :: 0 <= k < |defs| ==>
      && shown.Entries()[k].id == defs[k].id && shown.Entries()[k].name == defs[k].name
      && |shown.Entries()[k].values| <= DEFAULT_VAL_LIMIT
  {
    var entries := shown.Entries();
    forall k | 0 <= k < |defs|
      ensures entries[k].id == defs[k].id && entries[k].name == defs[k].name
      ensures |entries[k].values| <= DEFAULT_VAL_LIMIT
    {
      assert defs[k] in defs;
      assert stored.ids[k] in stored.ids;
      assert entries[k] == MarkTruncated(stored.byId[defs[k].id]);
    }
  }

  /**
   * Sorting and rendering neither lose nor invent a wildcard: the first rows
   * show exactly the definitions, each once, in case-insensitive name order.
   */
  lemma SortedRowsShowDefinitions(defs: seq<DefinitionRecord>, entries: seq<Wildcard>, rows: seq<FormRow>)
    requires |entries| == |defs| && |rows| >= |entries|
    requires forall k :: 0 <= k < |defs| ==>
      entries[k].id == defs[k].id && entries[k].name == defs[k].name && |entries[k].values| <= DEFAULT_VAL_LIMIT
    requires forall k :: 0 <= k < |entries| ==> rows[k] == RowFor(k, SortWildcards(entries)[k])
    ensures ShowsDefinitions(defs, rows)
  {
    var sorted := SortWildcards(entries);
    RowsFromDefinitions(defs, entries, sorted, rows);
    DefinitionsInRows(defs, entries, sorted, rows);
    RowsInNameOrder(sorted, rows);
  }

  /** Rows built from a wildcard_cmp-sorted list are in case-insensitive name order. */
  lemma RowsInNameOrder(sorted: seq<Wildcard>, rows: seq<FormRow>)
    requires SortedByCmp(sorted) && |rows| >= |sorted|
    requires forall k :: 0 <= k < |sorted| ==> rows[k] == RowFor(k, sorted[k])
    ensures forall i, j :: 0 <= i < j < |sorted| ==> !StrLess(ToLower(rows[j].name), ToLower(rows[i].name))
  {
    forall i, j | 0 <= i < j < |sorted| ensures !StrLess(ToLower(rows[j].name), ToLower(rows[i].name)) {
      CmpOrderIsNameOrder(sorted[i], sorted[j]);
    }
  }

  /** Every sorted row comes from some definition and keeps its short sample. */
  lemma RowsFromDefinitions(defs: seq<DefinitionRecord>, entries: seq<Wildcard>, sorted: seq<Wildcard>,
                            rows: seq<FormRow>)
    requires |entries| == |defs| && |sorted| == |entries| && |rows| >= |entries|
    requires multiset(sorted) == multiset(entries)
    requires forall k :: 0 <= k < |defs| ==>
      entries[k].id == defs[k].id && entries[k].name == defs[k].name && |entries[k].values| <= DEFAULT_VAL_LIMIT
    requires forall k :: 0 <= k < |entries| ==> rows[k] == RowFor(k, sorted[k])
    ensures forall k :: 0 <= k < |defs| ==> ShowsSomeDefinition(defs, rows[k])
    ensures forall k :: 0 <= k < |defs| ==> |rows[k].values| <= DEFAULT_VAL_LIMIT
  {
    forall k | 0 <= k < |defs|
      ensures ShowsSomeDefinition(defs, rows[k])
      ensures |rows[k].values| <= DEFAULT_VAL_LIMIT
    {
      assert sorted[k] in multiset(entries);
      var j :| 0 <= j < |entries| && entries[j] == sorted[k];
      var d := defs[j];
      assert d in defs;
      assert rows[k] == RowFor(k, sorted[k]);
      assert rows[k].id == d.id && rows[k].name == d.name;
    }
  }

  /** Every definition has a row among the sorted ones. */
  lemma DefinitionsInRows(defs: seq<DefinitionRecord>, entries: seq<Wildcard>, sorted: seq<Wildcard>,
                          rows: seq<FormRow>)
    requires |entries| == |defs| && |sorted| == |entries| && |rows| >= |entries|
    requires multiset(sorted) == multiset(entries)
    requires forall k :: 0 <= k < |defs| ==> entries[k].id == defs[k].id && entries[k].name == defs[k].name
    requires forall k :: 0 <= k < |entries| ==> rows[k] == RowFor(k, sorted[k])
    ensures forall d :: d in defs ==> exists k :: 0 <= k < |defs| && rows[k].id == d.id && rows[k].name == d.name
  {
    forall d | d in defs ensures exists k :: 0 <= k < |defs| && rows[k].id == d.id && rows[k].name == d.name {
      var j :| 0 <= j < |defs| && defs[j] == d;
      assert entries[j] in multiset(sorted);
      var k :| 0 <= k < |sorted| && sorted[k] == entries[j];
      assert rows[k].id == d.id && rows[k].name == d.name;
    }
  }
}
