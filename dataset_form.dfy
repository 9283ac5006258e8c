/**
 * The dataset edit page (dataset.php): classifying each submitted row as
 * kept, deleted on request (DELETE_GIVEN) or deleted because it holds no
 * data (DELETE_ASSUME), rejecting partly filled rows, deciding whether the
 * batch is saved, and what the form shows afterwards.
 *
 * Submitted numbers go through unformat_float() and an emptiness test; both
 * are parameters (`FloatReading`), so the model does not interpret numbers.
 * The form fields are functions from the row (and wildcard) key to the
 * submitted value.
 */
module DatasetForm {
  import opened Wrappers
  import opened PhpText

  /** LOCAL_DATASETEDITOR_NUM_EXTRA_ROWS: blank rows offered below the data. */
  const NUM_EXTRA_ROWS: int := 5

  /** LOCAL_DATASETEDITOR_DELETE_GIVEN (1) and LOCAL_DATASETEDITOR_DELETE_ASSUME (2). */
  datatype DeleteMark = DeleteGiven | DeleteAssume

  /** The three fields submitted per cell: data_id, data_val and data_orig. */
  datatype CellInput = CellInput(id: int, val: string, orig: string)

  /** A cell record as the page builds it. */
  datatype Cell<V> = Cell(id: int, val: V, orig: V)

  /** unformat_float() and the test `trim($val) === ''` on its result. */
  datatype FloatReading<!V> = FloatReading(unformat: string -> V, isBlank: V -> bool)

  /** Which submit buttons are present in the POST. */
  datatype Buttons = Buttons(cancel: bool, saveAndAdd: bool, save: bool)

  /**
   * A key list field (dataset.php, lines 119-124): cleaned to digits and
   * commas, cut at the commas, each piece read with intval, which saturates
   * at PHP_INT_MAX. An empty text or
   * an empty piece reads as key 0, so there is always at least one key.
   */
  function KeysOf(text: string): (r: seq<int>)
    ensures |r| == |Explode(COMMA, CleanSequence(text))| == CharCount(COMMA, CleanSequence(text)) + 1
    ensures forall k :: 0 <= k < |r| ==> r[k] == Intval(Explode(COMMA, CleanSequence(text))[k])
  {
    ExplodeFieldCount(COMMA, CleanSequence(text));
    Intvals(Explode(COMMA, CleanSequence(text)))
  }

  /** array_map('intval', $pieces) on pieces of digits. */
  function Intvals(pieces: seq<string>): (r: seq<int>)
    ensures |r| == |pieces|
    ensures forall k :: 0 <= k < |r| ==> r[k] == Intval(pieces[k])
    decreases |pieces|
  {
    if |pieces| == 0 then [] else Intvals(pieces[..|pieces| - 1]) + [Intval(pieces[|pieces| - 1])]
  }

  /** An empty key list field reads as the single key 0. */
  lemma KeysOfEmptyText()
    ensures KeysOf("") == [0]
  {
    assert Explode(COMMA, CleanSequence("")) == [""];
  }

  /** The decimal texts of the keys, as written into a key list field. */
  function Decimals(keys: seq<nat>): (r: seq<string>)
    ensures |r| == |keys|
    ensures forall k :: 0 <= k < |r| ==> r[k] == NatToString(keys[k])
    decreases |keys|
  {
    if |keys| == 0 then [] else Decimals(keys[..|keys| - 1]) + [NatToString(keys[|keys| - 1])]
  }

  /**
   * A non-empty key list written as comma-separated decimals,
   * implode(',', $keys), reads back key by key, each key above PHP_INT_MAX
   * as PHP_INT_MAX; a list with no key above PHP_INT_MAX reads back as itself.
   */
  lemma KeysOfImplode(keys: seq<nat>)
    requires |keys| >= 1
    ensures |KeysOf(Implode(COMMA, Decimals(keys)))| == |keys|
    ensures forall k :: 0 <= k < |keys| ==>
      KeysOf(Implode(COMMA, Decimals(keys)))[k] == if keys[k] <= PHP_INT_MAX then keys[k] else PHP_INT_MAX
    ensures (forall k :: 0 <= k < |keys| ==> keys[k] <= PHP_INT_MAX) ==> KeysOf(Implode(COMMA, Decimals(keys))) == keys
  {
    var pieces := Decimals(keys);
    var text := Implode(COMMA, pieces);
    DecimalsListIsClean(keys);
    ExplodeImplode(COMMA, pieces);
    assert Explode(COMMA, CleanSequence(text)) == pieces;
    forall k | 0 <= k < |keys|
      ensures KeysOf(text)[k] == if keys[k] <= PHP_INT_MAX then keys[k] else PHP_INT_MAX
    {
      assert KeysOf(text)[k] == Intval(pieces[k]);
      IntvalOfNatToString(keys[k]);
    }
  }

  /** Every character of the decimals of a key list is a digit. */
  lemma DecimalsDigits(keys: seq<nat>)
    ensures forall k, c :: 0 <= k < |keys| && c in Decimals(keys)[k] ==> '0' <= c <= '9'
  {
    forall k, c | 0 <= k < |keys| && c in Decimals(keys)[k] ensures '0' <= c <= '9' {
      NatToStringDigits(keys[k]);
    }
  }

  /** Comma-separated decimals are left alone by PARAM_SEQUENCE cleaning, and no decimal holds a comma. */
  lemma DecimalsListIsClean(keys: seq<nat>)
    ensures forall k :: 0 <= k < |keys| ==> COMMA !in Decimals(keys)[k]
    ensures CleanSequence(Implode(COMMA, Decimals(keys))) == Implode(COMMA, Decimals(keys))
  {
    var pieces := Decimals(keys);
    var text := Implode(COMMA, pieces);
    DecimalsDigits(keys);
    ImplodeChars(COMMA, pieces);
    forall j | 0 <= j < |text| ensures IsSequenceChar(text[j]) {
      assert text[j] in text;
    }
  }

  /** Each key is read from a piece made only of digits, which is where intval is exact. */
  lemma KeysOfPieces(text: string)
    ensures forall k, j ::
      (0 <= k < |Explode(COMMA, CleanSequence(text))| && 0 <= j < |Explode(COMMA, CleanSequence(text))[k]|) ==>
        '0' <= Explode(COMMA, CleanSequence(text))[k][j] <= '9'
  {
    var t := CleanSequence(text);
    ExplodePieces(COMMA, t);
    forall k, j | 0 <= k < |Explode(COMMA, t)| && 0 <= j < |Explode(COMMA, t)[k]|
      ensures '0' <= Explode(COMMA, t)[k][j] <= '9'
    {
      var c := Explode(COMMA, t)[k][j];
      assert c in t;
      var m :| 0 <= m < |t| && t[m] == c;
      assert IsSequenceChar(t[m]);
      assert c != COMMA;
    }
  }

  /** A POST of the dataset form as submitted: the two key list fields, delete boxes, cells, buttons. */
  datatype RawDatasetPost = RawDatasetPost(itemKeysText: string, wcKeysText: string, deleteBox: int -> bool,
                                           cells: (int, int) -> CellInput, buttons: Buttons)

  /** The POST with its key lists read: `$itemkeys`, `$wckeys`, delete boxes, cells, buttons. */
  datatype DatasetPost = DatasetPost(itemKeys: seq<int>, wcKeys: seq<int>, deleteBox: int -> bool,
                                     cells: (int, int) -> CellInput, buttons: Buttons)

  /** Reading the two key list fields (dataset.php, lines 119-124). */
  function ReadPost(raw: RawDatasetPost): (p: DatasetPost)
    ensures p.itemKeys == KeysOf(raw.itemKeysText) && p.wcKeys == KeysOf(raw.wcKeysText)
    ensures |p.itemKeys| >= 1 && |p.wcKeys| >= 1
    ensures p.deleteBox == raw.deleteBox && p.cells == raw.cells && p.buttons == raw.buttons
  {
    DatasetPost(KeysOf(raw.itemKeysText), KeysOf(raw.wcKeysText), raw.deleteBox, raw.cells, raw.buttons)
  }

  function CellOf<V>(post: DatasetPost, rd: FloatReading<V>, i: int, wc: int): Cell<V> {
    var c := post.cells(i, wc);
    Cell(c.id, rd.unformat(c.val), rd.unformat(c.orig))
  }

  /** Row i has at least one non-empty cell. */
  predicate HasData<V>(post: DatasetPost, rd: FloatReading<V>, i: int) {
    exists k :: 0 <= k < |post.wcKeys| && !rd.isBlank(CellOf(post, rd, i, post.wcKeys[k]).val)
  }

  /** Row i has at least one empty cell. */
  predicate HasEmpty<V>(post: DatasetPost, rd: FloatReading<V>, i: int) {
    exists k :: 0 <= k < |post.wcKeys| && rd.isBlank(CellOf(post, rd, i, post.wcKeys[k]).val)
  }

  /** Row i is partly filled, not deleted, and the submit is not a cancel: an error. */
  predicate Incomplete<V>(post: DatasetPost, rd: FloatReading<V>, i: int) {
    !post.buttons.cancel && HasData(post, rd, i) && HasEmpty(post, rd, i) && !post.deleteBox(i)
  }

  /** No submitted row is in error. */
  predicate Complete<V>(post: DatasetPost, rd: FloatReading<V>) {
    forall k :: 0 <= k < |post.itemKeys| ==> !Incomplete(post, rd, post.itemKeys[k])
  }

  /** The row keys in error, in submission order (one notification each). */
  function Problems<V>(post: DatasetPost, rd: FloatReading<V>, keys: seq<int>): seq<int>
    decreases |keys|
  {
    if |keys| == 0 then []
    else
      var i := keys[|keys| - 1];
      Problems(post, rd, keys[..|keys| - 1]) + (if Incomplete(post, rd, i) then [i] else [])
  }

  /** There is no notification exactly when no row is in error. */
  lemma {:induction false} ProblemsEmpty<V>(post: DatasetPost, rd: FloatReading<V>, keys: seq<int>)
    ensures Problems(post, rd, keys) == [] <==> forall k :: 0 <= k < |keys| ==> !Incomplete(post, rd, keys[k])
    ensures forall i :: i in Problems(post, rd, keys) ==> i in keys && Incomplete(post, rd, i)
    decreases |keys|
  {
    if |keys| > 0 {
      var init, i := keys[..|keys| - 1], keys[|keys| - 1];
      var last := if Incomplete(post, rd, i) then [i] else [];
      ProblemsEmpty(post, rd, init);
      assert Problems(post, rd, keys) == Problems(post, rd, init) + last;
      assert keys == init + [i];
    }
  }

  /** `row` holds exactly the cells of row i, keyed by wildcard key. */
  ghost predicate RowIs<V>(post: DatasetPost, rd: FloatReading<V>, i: int, row: map<int, Cell<V>>) {
    && (forall wc :: wc in row <==> wc in post.wcKeys)
    && (forall wc :: wc in row ==> row[wc] == CellOf(post, rd, i, wc))
  }

  /**
   * `$newitems` after the rows `keys`: one entry per row, holding its cells
   * (no entry at all for a key list without wildcard keys, which ReadPost
   * never produces).
   */
  ghost predicate ItemsFor<V>(post: DatasetPost, rd: FloatReading<V>, keys: seq<int>, items: map<int, map<int, Cell<V>>>) {
    && (forall i :: i in items <==> i in keys && |post.wcKeys| > 0)
    && (forall i :: i in items ==> RowIs(post, rd, i, items[i]))
  }

  /**
   * `$deleteitems` after the rows `keys`: a row is marked when its delete box
   * is ticked or it has no data; a row without data is DELETE_ASSUME,
   * overriding DELETE_GIVEN.
   */
  ghost predicate MarksFor<V>(post: DatasetPost, rd: FloatReading<V>, keys: seq<int>, marks: map<int, DeleteMark>) {
    && (forall i :: i in marks <==> i in keys && (post.deleteBox(i) || !HasData(post, rd, i)))
    && (forall i :: i in marks ==> marks[i] == if HasData(post, rd, i) then DeleteGiven else DeleteAssume)
  }

  /**
   * The inner loop over the wildcard keys of row i (dataset.php, lines
   * 143-169): read every cell and note whether any is filled and any empty.
   */
  method ReadRowCells<V>(post: DatasetPost, rd: FloatReading<V>, i: int)
    returns (row: map<int, Cell<V>>, anyData: bool, anyEmpty: bool)
    ensures RowIs(post, rd, i, row)
    ensures anyData == HasData(post, rd, i)
    ensures anyEmpty == HasEmpty(post, rd, i)
  {
    row, anyData, anyEmpty := map[], false, false;
    var j := 0;
    while j < |post.wcKeys|
      invariant 0 <= j <= |post.wcKeys|
      invariant forall wc :: wc in row <==> wc in post.wcKeys[..j]
      invariant forall wc :: wc in row ==> row[wc] == CellOf(post, rd, i, wc)
      invariant anyData <==> exists k :: 0 <= k < j && !rd.isBlank(CellOf(post, rd, i, post.wcKeys[k]).val)
      invariant anyEmpty <==> exists k :: 0 <= k < j && rd.isBlank(CellOf(post, rd, i, post.wcKeys[k]).val)
    {
      assert post.wcKeys[..j + 1] == post.wcKeys[..j] + [post.wcKeys[j]];
      var wc := post.wcKeys[j];
      var c := post.cells(i, wc);
      var item := Cell(c.id, rd.unformat(c.val), rd.unformat(c.orig));
      if rd.isBlank(item.val) {
        anyEmpty := true;
      } else {
        anyData := true;
      }
      row := row[wc := item];
      j := j + 1;
    }
    assert post.wcKeys[..j] == post.wcKeys;
  }

  /** Recording row i's cells extends `$newitems` from `keys` to `keys + [i]`. */
  lemma ItemsStep<V>(post: DatasetPost, rd: FloatReading<V>, keys: seq<int>, i: int,
                     items: map<int, map<int, Cell<V>>>, items': map<int, map<int, Cell<V>>>)
    requires ItemsFor(post, rd, keys, items)
    requires forall x :: x != i ==> (x in items' <==> x in items) && (x in items ==> items'[x] == items[x])
    requires |post.wcKeys| > 0 ==> i in items' && RowIs(post, rd, i, items'[i])
    requires |post.wcKeys| == 0 ==> (i in items' <==> i in items)
    ensures ItemsFor(post, rd, keys + [i], items')
  {
    assert forall x :: x in keys + [i] <==> x in keys || x == i;
  }

  /** Marking row i extends `$deleteitems` from `keys` to `keys + [i]`. */
  lemma MarksStep<V>(post: DatasetPost, rd: FloatReading<V>, keys: seq<int>, i: int,
                     marks: map<int, DeleteMark>, marks': map<int, DeleteMark>)
    requires MarksFor(post, rd, keys, marks)
    requires forall x :: x != i ==> (x in marks' <==> x in marks) && (x in marks ==> marks'[x] == marks[x])
    requires post.deleteBox(i) || !HasData(post, rd, i) ==>
      i in marks' && marks'[i] == if HasData(post, rd, i) then DeleteGiven else DeleteAssume
    requires !(post.deleteBox(i) || !HasData(post, rd, i)) ==>
      (i in marks' <==> i in marks) && (i in marks ==> marks'[i] == marks[i])
    ensures MarksFor(post, rd, keys + [i], marks')
  {
    assert forall x :: x in keys + [i] <==> x in keys || x == i;
  }

  /**
   * The body of the classification loop for row i (dataset.php, lines
   * 134-188): a ticked delete box marks the row DELETE_GIVEN, its cells are
   * recorded when there are wildcard keys, a partly filled row that is
   * neither deleted nor cancelled is a problem, and a row without data is
   * marked DELETE_ASSUME; no other row's entry changes.
   */
  method ClassifyRow<V>(post: DatasetPost, rd: FloatReading<V>, i: int,
                        newItems: map<int, map<int, Cell<V>>>, deleteItems: map<int, DeleteMark>,
                        problems: seq<int>, success: bool)
    returns (newItems': map<int, map<int, Cell<V>>>, deleteItems': map<int, DeleteMark>,
             problems': seq<int>, success': bool)
    ensures forall x :: x != i ==> (x in newItems' <==> x in newItems) && (x in newItems ==> newItems'[x] == newItems[x])
    ensures |post.wcKeys| > 0 ==> i in newItems' && RowIs(post, rd, i, newItems'[i])
    ensures |post.wcKeys| == 0 ==> (i in newItems' <==> i in newItems)
    ensures forall x :: x != i ==> (x in deleteItems' <==> x in deleteItems) && (x in deleteItems ==> deleteItems'[x] == deleteItems[x])
    ensures post.deleteBox(i) || !HasData(post, rd, i) ==>
      i in deleteItems' && deleteItems'[i] == if HasData(post, rd, i) then DeleteGiven else DeleteAssume
    ensures !(post.deleteBox(i) || !HasData(post, rd, i)) ==>
      (i in deleteItems' <==> i in deleteItems) && (i in deleteItems ==> deleteItems'[i] == deleteItems[i])
    ensures problems' == problems + (if Incomplete(post, rd, i) then [i] else [])
    ensures success' <==> success && !Incomplete(post, rd, i)
  {
    newItems', deleteItems', problems', success' := newItems, deleteItems, problems, success;
    var deleteRow := post.deleteBox(i);
    if deleteRow {
      deleteItems' := deleteItems'[i := DeleteGiven];
    }
    var row, anyData, anyEmpty := ReadRowCells(post, rd, i);
    if |post.wcKeys| > 0 {
      newItems' := newItems'[i := row];
    }
    if !post.buttons.cancel && anyData && anyEmpty && !deleteRow {
      problems' := problems' + [i];
      success' := false;
    }
    if !anyData {
      deleteItems' := deleteItems'[i := DeleteAssume];
    }
  }

  /**
   * The classification loop (dataset.php, lines 133-189): for every
   * submitted row, record its cells, mark it for deletion, and flag it when
   * it is partly filled.
   */
  method ClassifyRows<V>(post: DatasetPost, rd: FloatReading<V>)
    returns (newItems: map<int, map<int, Cell<V>>>, deleteItems: map<int, DeleteMark>,
             problems: seq<int>, success: bool)
    ensures ItemsFor(post, rd, post.itemKeys, newItems)
    ensures MarksFor(post, rd, post.itemKeys, deleteItems)
    ensures problems == Problems(post, rd, post.itemKeys)
    ensures success <==> Complete(post, rd)
    ensures success <==> problems == []
  {
    newItems, deleteItems, problems, success := map[], map[], [], true;
    var n := 0;
    while n < |post.itemKeys|
      invariant 0 <= n <= |post.itemKeys|
      invariant ItemsFor(post, rd, post.itemKeys[..n], newItems)
      invariant MarksFor(post, rd, post.itemKeys[..n], deleteItems)
      invariant problems == Problems(post, rd, post.itemKeys[..n])
      invariant success <==> problems == []
    {
      assert post.itemKeys[..n + 1] == post.itemKeys[..n] + [post.itemKeys[n]];
      assert post.itemKeys[..n + 1][..n] == post.itemKeys[..n];
      var i := post.itemKeys[n];
      var items', marks';
      items', marks', problems, success := ClassifyRow(post, rd, i, newItems, deleteItems, problems, success);
      ItemsStep(post, rd, post.itemKeys[..n], i, newItems, items');
      MarksStep(post, rd, post.itemKeys[..n], i, deleteItems, marks');
      newItems, deleteItems := items', marks';
      n := n + 1;
    }
    assert post.itemKeys[..n] == post.itemKeys;
    ProblemsEmpty(post, rd, post.itemKeys);
  }

  /**
   * The loop that unchecks automatic deletions before redisplay (dataset.php,
   * lines 242-246), over the array's keys in their order `keys`: the marks
   * without their DELETE_ASSUME entries.
   */
  method DropAssumed(keys: seq<int>, marks: map<int, DeleteMark>) returns (r: map<int, DeleteMark>)
    requires forall k :: k in marks ==> k in keys
    ensures forall k :: k in r <==> k in marks && marks[k] == DeleteGiven
    ensures forall k :: k in r ==> r[k] == DeleteGiven
  {
    r := marks;
    var n := 0;
    while n < |keys|
      invariant 0 <= n <= |keys|
      invariant forall k :: k in r <==> k in marks && (k !in keys[..n] || marks[k] == DeleteGiven)
      invariant forall k :: k in r ==> r[k] == marks[k]
    {
      assert keys[..n + 1] == keys[..n] + [keys[n]];
      var k := keys[n];
      if k in r && r[k] == DeleteAssume {
        r := r - {k};
      }
      n := n + 1;
    }
    assert keys[..n] == keys;
  }

  /** The arguments of local_dataseteditor_save_dataset_items. */
  datatype SaveCall<V> = SaveCall(items: map<int, map<int, Cell<V>>>, deletes: map<int, DeleteMark>)

  /** What render_dataset_form is given: the user's values, the checked delete boxes, the row count. */
  datatype FormView<V> = FormView(userVals: map<int, map<int, Cell<V>>>, deleteMarks: map<int, DeleteMark>, minRows: int)

  /** The page either saves (or not) and shows the form, or stops with 'Invalid submit button'. */
  datatype PageResult<V> = Rendered(saved: Option<SaveCall<V>>, view: FormView<V>) | InvalidSubmitButton

  /**
   * The dataset page (dataset.php, lines 110-255) given the POST, if any,
   * and the number of stored rows it reads afterwards: a save happens only
   * for a complete batch submitted with save or save-and-add; cancel never
   * saves; any other submit is an error. The user's input is shown again
   * exactly when it was submitted, not cancelled, and not saved.
   */
  method HandleDatasetPage<V>(post: Option<RawDatasetPost>, rd: FloatReading<V>, storedItemCount: nat)
    returns (r: PageResult<V>)
    ensures post.None? ==> r == Rendered(None, FormView(map[], map[], storedItemCount + NUM_EXTRA_ROWS))
    ensures post.Some? ==> var b := post.value.buttons;
      (r.InvalidSubmitButton? <==> !b.cancel && !b.saveAndAdd && !b.save)
    ensures r.Rendered? ==>
      (r.saved.Some? <==> post.Some? && !post.value.buttons.cancel && Complete(ReadPost(post.value), rd))
    ensures r.Rendered? && r.saved.Some? ==> var p := ReadPost(post.value);
      ItemsFor(p, rd, p.itemKeys, r.saved.value.items) && MarksFor(p, rd, p.itemKeys, r.saved.value.deletes)
    ensures r.Rendered? ==>
      r.view.minRows == (if post.Some? && !post.value.buttons.cancel && post.value.buttons.saveAndAdd
                         then |ReadPost(post.value).itemKeys| + NUM_EXTRA_ROWS
                         else storedItemCount + NUM_EXTRA_ROWS)
    ensures r.Rendered? && post.Some? && !post.value.buttons.cancel && !Complete(ReadPost(post.value), rd) ==>
      var p := ReadPost(post.value);
      && ItemsFor(p, rd, p.itemKeys, r.view.userVals)
      && (forall i :: i in r.view.deleteMarks <==> i in p.itemKeys && p.deleteBox(i) && HasData(p, rd, i))
    ensures r.Rendered? && (post.None? || post.value.buttons.cancel || Complete(ReadPost(post.value), rd)) ==>
      r.view.userVals == map[] && forall i :: i !in r.view.deleteMarks
    ensures r.Rendered? ==> forall i :: i in r.view.deleteMarks ==> r.view.deleteMarks[i] == DeleteGiven
  {
    if post.None? {
      r := Rendered(None, FormView(map[], map[], storedItemCount + NUM_EXTRA_ROWS));
      return;
    }
    var p := ReadPost(post.value);
    var newItems, deleteItems, problems, success := ClassifyRows(p, rd);
    var showUserData := true;
    var minRows: Option<int> := None;
    var saved: Option<SaveCall<V>> := None;
    if p.buttons.cancel {
      showUserData := false;
    } else if p.buttons.saveAndAdd {
      minRows := Some(|p.itemKeys| + NUM_EXTRA_ROWS);
      if success {
        saved := Some(SaveCall(newItems, deleteItems));
        showUserData := false;
      }
    } else if p.buttons.save {
      if success {
        saved := Some(SaveCall(newItems, deleteItems));
        showUserData := false;
      }
    } else {
      r := InvalidSubmitButton;
      return;
    }
    var userVals := if showUserData then newItems else map[];
    var formMarks := if showUserData then deleteItems else map[];
    formMarks := DropAssumed(p.itemKeys, formMarks);
    var rows := if minRows.Some? then minRows.value else storedItemCount + NUM_EXTRA_ROWS;
    r := Rendered(saved, FormView(userVals, formMarks, rows));
  }
}
