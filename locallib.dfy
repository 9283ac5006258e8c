/**
 * The read side of the dataset editor (locallib.php): the wildcards of a
 * category with a capped sample of their values, and the stored dataset
 * grouped into rows by item number.
 *
 * The two database tables are given as record lists; a query is a filter
 * over them, and the lists are taken to be in the order the query asks for
 * (definitions by name, values by item number).
 */
module LocalLib {
  import opened PhpText
  import opened Wrappers

  /** The default sample size of get_wildcards. */
  const DEFAULT_VAL_LIMIT: int := 4

  /** A row of the wildcard-definitions table. */
  datatype DefinitionRecord = DefinitionRecord(id: int, category: int, name: string)

  /** A row of the dataset-values table. */
  datatype ItemRecord = ItemRecord(id: int, definition: int, itemNumber: int, value: string)

  /** A wildcard as get_wildcards returns it. */
  datatype Wildcard = Wildcard(id: int, name: string, values: seq<string>, numMoreValues: nat)

  /** A PHP array of wildcards keyed by id: its keys in order and the entry under each. */
  datatype WildcardList = WildcardList(ids: seq<int>, byId: map<int, Wildcard>) {
    ghost predicate Valid() {
      Distinct(ids) && (forall id :: id in byId <==> id in ids)
    }

    /** The entries in key order, as `foreach` visits them. */
    function Entries(): (r: seq<Wildcard>)
      requires Valid()
      ensures |r| == |ids|
    {
      assert forall k :: 0 <= k < |ids| ==> ids[k] in ids;
      assert forall id :: id in ids ==> id in byId;
      seq(|ids|, k requires 0 <= k < |ids| && ids[k] in byId => byId[ids[k]])
    }
  }

  predicate UniqueIds(defs: seq<DefinitionRecord>) {
    forall i, j :: 0 <= i < j < |defs| ==> defs[i].id != defs[j].id
  }

  /** get_records(definitions, category = c): the category's definitions, in table order. */
  function DefinitionsOf(table: seq<DefinitionRecord>, category: int): (r: seq<DefinitionRecord>)
    ensures forall d :: d in r <==> d in table && d.category == category
    ensures UniqueIds(table) ==> UniqueIds(r)
    ensures |table| == 1 ==> r == (if table[0].category == category then table else [])
    decreases |table|
  {
    if |table| == 0 then []
    else
      var d := table[|table| - 1];
      var init := DefinitionsOf(table[..|table| - 1], category);
      if d.category == category then
        assert UniqueIds(table) ==> UniqueIds(table[..|table| - 1]);
        init + [d]
      else init
  }
  /**
   * The filter keeps table order: the definitions of a concatenation are
   * those of the first part followed by those of the second.
   */
  lemma {:induction false} DefinitionsOfAppend(a: seq<DefinitionRecord>, b: seq<DefinitionRecord>, category: int)
    ensures DefinitionsOf(a + b, category) == DefinitionsOf(a, category) + DefinitionsOf(b, category)
    decreases |b|
  {
    if |b| == 0 {
      assert a + b == a;
    } else {
      var init, d := b[..|b| - 1], b[|b| - 1];
      var e := if d.category == category then [d] else [];
      assert b == init + [d];
      assert a + b == (a + init) + [d];
      calc {
        DefinitionsOf(a + b, category);
        { DefinitionsOfSnoc(a + init, d, category); }
        DefinitionsOf(a + init, category) + e;
        { DefinitionsOfAppend(a, init, category); }
        DefinitionsOf(a, category) + DefinitionsOf(init, category) + e;
        DefinitionsOf(a, category) + (DefinitionsOf(init, category) + e);
        { DefinitionsOfSnoc(init, d, category); }
        DefinitionsOf(a, category) + DefinitionsOf(b, category);
      }
    }
  }

  /** One more record at the end of the table adds it to the result exactly when it is of the category. */
  lemma DefinitionsOfSnoc(table: seq<DefinitionRecord>, d: DefinitionRecord, category: int)
    ensures DefinitionsOf(table + [d], category) ==
      DefinitionsOf(table, category) + (if d.category == category then [d] else [])
  {
    assert (table + [d])[..|table|] == table;
  }


  /** get_records_list(values, definition IN ids): the values of those definitions, in table order. */
  function ItemsOf(table: seq<ItemRecord>, ids: set<int>): (r: seq<ItemRecord>)
    ensures forall x :: x in r <==> x in table && x.definition in ids
    decreases |table|
  {
    if |table| == 0 then []
    else
      var x := table[|table| - 1];
      ItemsOf(table[..|table| - 1], ids) + (if x.definition in ids then [x] else [])
  }

  /** The values a list of records holds for one definition, in list order. */
  function ValuesOf(records: seq<ItemRecord>, def: int): seq<string>
    decreases |records|
  {
    if |records| == 0 then []
    else
      var x := records[|records| - 1];
      ValuesOf(records[..|records| - 1], def) + (if x.definition == def then [x.value] else [])
  }

  /** The values of a concatenation are those of each part, in table order. */
  lemma {:induction false} ValuesOfAppend(a: seq<ItemRecord>, b: seq<ItemRecord>, def: int)
    ensures ValuesOf(a + b, def) == ValuesOf(a, def) + ValuesOf(b, def)
    decreases |b|
  {
    if |b| == 0 {
      assert a + b == a;
    } else {
      ValuesOfAppend(a, b[..|b| - 1], def);
      assert (a + b)[..|a + b| - 1] == a + b[..|b| - 1];
    }
  }

  /**
   * Selecting the records of the category's definitions keeps, for each of
   * them, exactly its values in table order.
   */
  lemma {:induction false} ItemsOfValues(table: seq<ItemRecord>, ids: set<int>, id: int)
    requires id in ids
    ensures ValuesOf(ItemsOf(table, ids), id) == ValuesOf(table, id)
    decreases |table|
  {
    if |table| > 0 {
      var init, x := table[..|table| - 1], table[|table| - 1];
      var e := if x.definition in ids then [x] else [];
      ItemsOfValues(init, ids, id);
      ValuesOfAppend(ItemsOf(init, ids), e, id);
    }
  }

  /** A wildcard's sample: the first `limit` of its values, and a count of the rest. */
  predicate Sampled(w: Wildcard, all: seq<string>, limit: int) {
    && |w.values| == (if limit <= 0 then 0 else if limit < |all| then limit else |all|)
    && w.values == all[..|w.values|]
    && w.numMoreValues == |all| - |w.values|
  }

  /** One more record adds its value to its own definition's list only. */
  lemma ValuesOfStep(records: seq<ItemRecord>, n: nat, def: int)
    requires n < |records|
    ensures ValuesOf(records[..n + 1], def) ==
      ValuesOf(records[..n], def) + (if records[n].definition == def then [records[n].value] else [])
  {
    assert records[..n + 1][..n] == records[..n];
  }

  /** Taking one more value into a sample, or counting it, keeps the sample the first `limit` values. */
  lemma SampledStep(w: Wildcard, all: seq<string>, limit: int, v: string)
    requires Sampled(w, all, limit)
    ensures Sampled(if |w.values| < limit then w.(values := w.values + [v])
                    else w.(numMoreValues := w.numMoreValues + 1), all + [v], limit)
  {
  }

  /**
   * `sampled` is `wildcards` with every entry's id and name kept and its
   * values the sample of its definition's values among `records`.
   */
  ghost predicate SamplesOf(wildcards: map<int, Wildcard>, sampled: map<int, Wildcard>,
                            records: seq<ItemRecord>, limit: int) {
    && sampled.Keys == wildcards.Keys
    && (forall id :: id in sampled ==> sampled[id].id == wildcards[id].id && sampled[id].name == wildcards[id].name)
    && (forall id :: id in sampled ==> Sampled(sampled[id], ValuesOf(records, id), limit))
  }

  /** One step of the sampling loop keeps every wildcard's sample right. */
  lemma SamplesOfStep(wildcards: map<int, Wildcard>, before: map<int, Wildcard>, after: map<int, Wildcard>,
                      records: seq<ItemRecord>, n: nat, limit: int)
    requires n < |records| && records[n].definition in before
    requires SamplesOf(wildcards, before, records[..n], limit)
    requires var w := before[records[n].definition];
      after == before[records[n].definition :=
        if |w.values| < limit then w.(values := w.values + [records[n].value])
        else w.(numMoreValues := w.numMoreValues + 1)]
    ensures SamplesOf(wildcards, after, records[..n + 1], limit)
  {
    forall id | id in after ensures Sampled(after[id], ValuesOf(records[..n + 1], id), limit) {
      ValuesOfStep(records, n, id);
      if id == records[n].definition {
        SampledStep(before[id], ValuesOf(records[..n], id), limit, records[n].value);
      }
    }
  }

  /**
   * The first loop of get_wildcards (locallib.php, lines 51-62): one entry
   * per definition, keyed by its id, with no values yet.
   */
  method CollectDefinitions(defs: seq<DefinitionRecord>) returns (r: WildcardList)
    requires UniqueIds(defs)
    ensures r.Valid()
    ensures |r.ids| == |defs| && forall k :: 0 <= k < |defs| ==> r.ids[k] == defs[k].id
    ensures forall k :: 0 <= k < |defs| ==> r.byId[defs[k].id] == Wildcard(defs[k].id, defs[k].name, [], 0)
  {
    var ids: seq<int> := [];
    var wildcards: map<int, Wildcard> := map[];
    var k := 0;
    while k < |defs|
      invariant 0 <= k <= |defs| && |ids| == k
      invariant forall j :: 0 <= j < k ==> ids[j] == defs[j].id
      invariant forall id :: id in wildcards <==> id in ids
      invariant forall j :: 0 <= j < k ==> wildcards[defs[j].id] == Wildcard(defs[j].id, defs[j].name, [], 0)
    {
      var row := defs[k];
      ids := ids + [row.id];
      wildcards := wildcards[row.id := Wildcard(row.id, row.name, [], 0)];
      k := k + 1;
    }
    assert Distinct(ids) by {
      forall i, j | 0 <= i < j < |ids| ensures ids[i] != ids[j] {
        assert ids[i] == defs[i].id && ids[j] == defs[j].id;
      }
    }
    r := WildcardList(ids, wildcards);
  }

  /**
   * The second loop of get_wildcards (locallib.php, lines 73-79): each value
   * record is appended to its wildcard's sample while the sample is shorter
   * than `valLimit`, and counted in `numMoreValues` otherwise.
   */
  method SampleValues(wildcards: map<int, Wildcard>, valueResults: seq<ItemRecord>, valLimit: int)
    returns (r: map<int, Wildcard>)
    requires forall id :: id in wildcards ==> wildcards[id].values == [] && wildcards[id].numMoreValues == 0
    requires forall x :: x in valueResults ==> x.definition in wildcards
    ensures r.Keys == wildcards.Keys
    ensures forall id :: id in r ==> r[id].id == wildcards[id].id && r[id].name == wildcards[id].name
    ensures forall id :: id in r ==> Sampled(r[id], ValuesOf(valueResults, id), valLimit)
  {
    r := wildcards;
    var n := 0;
    while n < |valueResults|
      invariant 0 <= n <= |valueResults|
      invariant SamplesOf(wildcards, r, valueResults[..n], valLimit)
    {
      var row := valueResults[n];
      var wc := r[row.definition];
      ghost var r0 := r;
      if |wc.values| < valLimit {
        r := r[row.definition := wc.(values := wc.values + [row.value])];
      } else {
        r := r[row.definition := wc.(numMoreValues := wc.numMoreValues + 1)];
      }
      SamplesOfStep(wildcards, r0, r, valueResults, n, valLimit);
      n := n + 1;
    }
    assert valueResults[..n] == valueResults;
  }

  /**
   * get_wildcards (locallib.php, lines 38-82): one entry per definition of
   * the category, keyed by its id, in query order; each holds the first
   * `valLimit` values of its definition and counts the values left out.
   */
  method GetWildcards(defTable: seq<DefinitionRecord>, itemTable: seq<ItemRecord>,
                      category: int, valLimit: int)
    returns (r: WildcardList)
    requires UniqueIds(defTable)
    ensures r.Valid()
    ensures var defs := DefinitionsOf(defTable, category);
      |r.ids| == |defs| && forall k :: 0 <= k < |defs| ==> r.ids[k] == defs[k].id
    ensures forall d :: d in DefinitionsOf(defTable, category) ==>
      r.byId[d.id].id == d.id && r.byId[d.id].name == d.name
    ensures forall id :: id in r.byId ==>
      Sampled(r.byId[id], ValuesOf(ItemsOf(itemTable, r.byId.Keys), id), valLimit)
    ensures forall id :: id in r.byId ==> |r.byId[id].values| <= (if valLimit < 0 then 0 else valLimit)
    ensures forall id :: id in r.byId ==>
      |r.byId[id].values| + r.byId[id].numMoreValues == |ValuesOf(ItemsOf(itemTable, r.byId.Keys), id)|
  {
    var defs := DefinitionsOf(defTable, category);
    var empty := CollectDefinitions(defs);
    var valueResults := ItemsOf(itemTable, empty.byId.Keys);
    var sampled := SampleValues(empty.byId, valueResults, valLimit);
    r := WildcardList(empty.ids, sampled);
    forall d | d in defs ensures r.byId[d.id].id == d.id && r.byId[d.id].name == d.name {
      var k :| 0 <= k < |defs| && defs[k] == d;
    }
  }

  /** A stored value as get_dataset_items returns it. */
  datatype DatasetItem = DatasetItem(id: int, val: string)

  function ItemOf(x: ItemRecord): DatasetItem {
    DatasetItem(x.id, x.value)
  }

  /** The last record of the list with the given item number and definition. */
  function LastWith(records: seq<ItemRecord>, itemNumber: int, def: int): (r: Option<ItemRecord>)
    ensures r.Some? ==> r.value in records && r.value.itemNumber == itemNumber && r.value.definition == def
    ensures r.None? <==> forall x :: x in records ==> !(x.itemNumber == itemNumber && x.definition == def)
    decreases |records|
  {
    if |records| == 0 then None
    else
      var x := records[|records| - 1];
      if x.itemNumber == itemNumber && x.definition == def then Some(x)
      else
        var init := records[..|records| - 1];
        assert forall y :: y in records <==> y in init || y == x;
        LastWith(init, itemNumber, def)
  }

  /** The last record of the list with the given item number. */
  function LastWithNumber(records: seq<ItemRecord>, itemNumber: int): (r: Option<ItemRecord>)
    ensures r.Some? ==> r.value in records && r.value.itemNumber == itemNumber
    ensures r.None? <==> forall x :: x in records ==> x.itemNumber != itemNumber
    decreases |records|
  {
    if |records| == 0 then None
    else
      var x := records[|records| - 1];
      if x.itemNumber == itemNumber then Some(x)
      else
        var init := records[..|records| - 1];
        assert forall y :: y in records <==> y in init || y == x;
        LastWithNumber(init, itemNumber)
  }

  /** Position `idx` holds a record with this item number and definition, and no later one does. */
  ghost predicate IsLastWithAt(records: seq<ItemRecord>, itemNumber: int, def: int, idx: int) {
    && 0 <= idx < |records|
    && records[idx].itemNumber == itemNumber && records[idx].definition == def
    && forall j :: idx < j < |records| ==> !(records[j].itemNumber == itemNumber && records[j].definition == def)
  }

  /** LastWith returns the record at the last matching position. */
  lemma {:induction false} LastWithIsLast(records: seq<ItemRecord>, itemNumber: int, def: int)
    ensures forall idx :: IsLastWithAt(records, itemNumber, def, idx) ==>
      LastWith(records, itemNumber, def) == Some(records[idx])
    decreases |records|
  {
    if |records| > 0 {
      var init := records[..|records| - 1];
      LastWithIsLast(init, itemNumber, def);
      forall idx | IsLastWithAt(records, itemNumber, def, idx)
        ensures LastWith(records, itemNumber, def) == Some(records[idx])
      {
        if idx < |records| - 1 {
          LastWithAtInit(records, itemNumber, def, idx);
        }
      }
    }
  }

  /** Below the last position, the last match of the whole list is the last match of the list without its final record. */
  lemma LastWithAtInit(records: seq<ItemRecord>, itemNumber: int, def: int, idx: int)
    requires IsLastWithAt(records, itemNumber, def, idx) && idx < |records| - 1
    ensures IsLastWithAt(records[..|records| - 1], itemNumber, def, idx)
    ensures records[..|records| - 1][idx] == records[idx]
    ensures !(records[|records| - 1].itemNumber == itemNumber && records[|records| - 1].definition == def)
  {
  }

  /** Position `idx` holds a record with this item number, and no later one does. */
  ghost predicate IsLastWithNumberAt(records: seq<ItemRecord>, itemNumber: int, idx: int) {
    && 0 <= idx < |records|
    && records[idx].itemNumber == itemNumber
    && forall j :: idx < j < |records| ==> records[j].itemNumber != itemNumber
  }

  /** LastWithNumber returns the record at the last position with that item number. */
  lemma {:induction false} LastWithNumberIsLast(records: seq<ItemRecord>, itemNumber: int)
    ensures forall idx :: IsLastWithNumberAt(records, itemNumber, idx) ==>
      LastWithNumber(records, itemNumber) == Some(records[idx])
    decreases |records|
  {
    if |records| > 0 {
      var init := records[..|records| - 1];
      LastWithNumberIsLast(init, itemNumber);
      forall idx | IsLastWithNumberAt(records, itemNumber, idx)
        ensures LastWithNumber(records, itemNumber) == Some(records[idx])
      {
        if idx < |records| - 1 {
          LastWithNumberAtInit(records, itemNumber, idx);
        }
      }
    }
  }

  /** Below the last position, the last match of the whole list is the last match of the list without its final record. */
  lemma LastWithNumberAtInit(records: seq<ItemRecord>, itemNumber: int, idx: int)
    requires IsLastWithNumberAt(records, itemNumber, idx) && idx < |records| - 1
    ensures IsLastWithNumberAt(records[..|records| - 1], itemNumber, idx)
    ensures records[..|records| - 1][idx] == records[idx]
    ensures records[|records| - 1].itemNumber != itemNumber
  {
  }

  /** The grouping loop of get_dataset_items with the inner key its doc comment promises. */
  function Group(records: seq<ItemRecord>): map<int, map<int, DatasetItem>>
    decreases |records|
  {
    if |records| == 0 then map[]
    else
      var g := Group(records[..|records| - 1]);
      var x := records[|records| - 1];
      var inner := if x.itemNumber in g then g[x.itemNumber] else map[];
      g[x.itemNumber := inner[x.definition := ItemOf(x)]]
  }

  /**
   * The grouping as written: the inner key is `$item->definition`, a field
   * that is never set, so every record of a row lands under the null key.
   */
  function GroupAsWritten(records: seq<ItemRecord>): map<int, map<Option<int>, DatasetItem>>
    decreases |records|
  {
    if |records| == 0 then map[]
    else
      var g := GroupAsWritten(records[..|records| - 1]);
      var x := records[|records| - 1];
      var inner := if x.itemNumber in g then g[x.itemNumber] else map[];
      g[x.itemNumber := inner[None := ItemOf(x)]]
  }

  /**
   * Grouping by item number: the rows are exactly the item numbers in use;
   * row n holds one entry per definition that has a value in row n, namely
   * the last such record.
   */
  lemma {:induction false} GroupCharacterized(records: seq<ItemRecord>)
    ensures forall n :: n in Group(records) <==> LastWithNumber(records, n).Some?
    ensures forall n, d :: n in Group(records) ==>
      (d in Group(records)[n] <==> LastWith(records, n, d).Some?)
    ensures forall n, d :: n in Group(records) && d in Group(records)[n] ==>
      Group(records)[n][d] == ItemOf(LastWith(records, n, d).value)
    decreases |records|
  {
    if |records| > 0 {
      GroupCharacterized(records[..|records| - 1]);
    }
  }

  /** As written, every row holds a single entry: the last record with that item number. */
  lemma {:induction false} GroupAsWrittenCollapses(records: seq<ItemRecord>)
    ensures forall n :: n in GroupAsWritten(records) <==> LastWithNumber(records, n).Some?
    ensures forall n :: n in GroupAsWritten(records) ==>
      GroupAsWritten(records)[n] == map[None := ItemOf(LastWithNumber(records, n).value)]
    decreases |records|
  {
    if |records| > 0 {
      GroupAsWrittenCollapses(records[..|records| - 1]);
    }
  }

  /**
   * Two wildcards with a value in the same row: the documented grouping
   * keeps both, the grouping as written keeps only the second.
   */
  lemma GroupAsWrittenLosesValues()
    ensures var records := [ItemRecord(1, 10, 1, "2"), ItemRecord(2, 11, 1, "6")];
      && |Group(records)[1]| == 2
      && |GroupAsWritten(records)[1]| == 1
  {
    var records := [ItemRecord(1, 10, 1, "2"), ItemRecord(2, 11, 1, "6")];
    assert records[..1] == [ItemRecord(1, 10, 1, "2")];
    assert records[..1][..0] == [];
    assert Group(records)[1] == map[10 := DatasetItem(1, "2"), 11 := DatasetItem(2, "6")];
    assert GroupAsWritten(records)[1] == map[None := DatasetItem(2, "6")];
  }

  /**
   * get_dataset_items (locallib.php, lines 91-120), with the inner key the
   * doc comment promises (the definition id): rows keyed by item number,
   * each mapping a definition to its stored value.
   */
  method GetDatasetItems(itemTable: seq<ItemRecord>, wildcardIds: seq<int>)
    returns (items: map<int, map<int, DatasetItem>>)
    ensures var rs := ItemsOf(itemTable, set id | id in wildcardIds);
      && items == Group(rs)
      && (forall n :: n in items <==> LastWithNumber(rs, n).Some?)
      && (forall n, d :: n in items ==> (d in items[n] <==> LastWith(rs, n, d).Some?))
      && (forall n, d :: n in items && d in items[n] ==> items[n][d] == ItemOf(LastWith(rs, n, d).value))
  {
    var valueResults := ItemsOf(itemTable, set id | id in wildcardIds);
    items := map[];
    var k := 0;
    while k < |valueResults|
      invariant 0 <= k <= |valueResults|
      invariant items == Group(valueResults[..k])
    {
      assert valueResults[..k + 1][..k] == valueResults[..k];
      var row := valueResults[k];
      var item := DatasetItem(row.id, row.value);
      var inner := map[];
      if row.itemNumber in items {
        inner := items[row.itemNumber];
      }
      items := items[row.itemNumber := inner[row.definition := item]];
      k := k + 1;
    }
    assert valueResults[..k] == valueResults;
    GroupCharacterized(valueResults);
  }

  /** get_dataset_items exactly as written (locallib.php, line 116 keys by an unset field). */
  method GetDatasetItemsAsWritten(itemTable: seq<ItemRecord>, wildcardIds: seq<int>)
    returns (items: map<int, map<Option<int>, DatasetItem>>)
    ensures var rs := ItemsOf(itemTable, set id | id in wildcardIds);
      && items == GroupAsWritten(rs)
      && (forall n :: n in items <==> LastWithNumber(rs, n).Some?)
      && (forall n :: n in items ==> items[n] == map[None := ItemOf(LastWithNumber(rs, n).value)])
  {
    var valueResults := ItemsOf(itemTable, set id | id in wildcardIds);
    items := map[];
    var k := 0;
    while k < |valueResults|
      invariant 0 <= k <= |valueResults|
      invariant items == GroupAsWritten(valueResults[..k])
    {
      assert valueResults[..k + 1][..k] == valueResults[..k];
      var row := valueResults[k];
      var item := DatasetItem(row.id, row.value);
      var inner := map[];
      if row.itemNumber in items {
        inner := items[row.itemNumber];
      }
      // `$item->definition` is unset: PHP reads it as null.
      items := items[row.itemNumber := inner[None := item]];
      k := k + 1;
    }
    assert valueResults[..k] == valueResults;
    GroupAsWrittenCollapses(valueResults);
  }
}
