/**
  The table under construction: a list of optional rows indexed by row number
  minus one, as the walk's `ArrayList` of `LinkedHashMap`s. A `None` entry is
  the `null` placeholder for a row number not seen yet.
 */
module Tables {
  import opened Wrappers
  import opened LinkedMaps

  /** A row: column OID mapped to value, in arrival order. */
  type Row = LinkedMap<string, string>
  type Table = seq<Option<Row>>

  /** A cell accepted by the walk: its OID, its value and its row number. */
  datatype Column = Column(oid: string, value: string, row: int)

  function Max(a: int, b: int): int {
    if a < b then b else a
  }

  /** The row at index `k`, an absent or placeholder row read as empty. */
  function RowOr(t: Table, k: int): Row {
    if 0 <= k < |t| && t[k].Some? then t[k].value else []
  }

  function Placeholders(n: nat): (s: Table)
    ensures |s| == n && forall k :: 0 <= k < n ==> s[k] == None
  {
    seq(n, _ => None)
  }

  /** Putting one cell into the table. A row number past the end first pads
      the table with placeholders and then appends a fresh row holding just
      that cell; otherwise the row at `row - 1` (created if it was a
      placeholder) gets the cell put into it. */
  function Place(t: Table, c: Column): (u: Table)
    requires c.row >= 1
    ensures |u| == Max(|t|, c.row)
    ensures forall k :: 0 <= k < |u| && k != c.row - 1 ==> u[k] == if k < |t| then t[k] else None
    ensures u[c.row - 1] == Some(Put(RowOr(t, c.row - 1), c.oid, c.value))
    ensures c.row > |t| ==> u[c.row - 1] == Some([(c.oid, c.value)])
  {
    if c.row > |t| then t + Placeholders(c.row - |t| - 1) + [Some([(c.oid, c.value)])]
    else t[c.row - 1 := Some(Put(RowOr(t, c.row - 1), c.oid, c.value))]
  }

  ghost predicate ValidRows(cols: seq<Column>) {
    forall i :: 0 <= i < |cols| ==> cols[i].row >= 1
  }

  /** The cells placed one after the other. */
  function PlaceAll(t: Table, cols: seq<Column>): Table
    requires ValidRows(cols)
  {
    if cols == [] then t else Place(PlaceAll(t, cols[..|cols| - 1]), cols[|cols| - 1])
  }

  /** The cells of row number `r`, put one after the other into `m`. */
  function RowOf(m: Row, cols: seq<Column>, r: int): Row {
    if cols == [] then m
    else
      var c := cols[|cols| - 1];
      var prev := RowOf(m, cols[..|cols| - 1], r);
      if c.row == r then Put(prev, c.oid, c.value) else prev
  }

  /** The largest row number among the cells, or 0. */
  function MaxRow(cols: seq<Column>): (n: int)
    ensures n >= 0
    ensures forall i :: 0 <= i < |cols| ==> cols[i].row <= n
    ensures n > 0 ==> exists i :: 0 <= i < |cols| && cols[i].row == n
  {
    if cols == [] then 0 else Max(MaxRow(cols[..|cols| - 1]), cols[|cols| - 1].row)
  }

  predicate HasRow(cols: seq<Column>, r: int) {
    exists i :: 0 <= i < |cols| && cols[i].row == r
  }

  lemma HasRowSnoc(cols: seq<Column>, r: int)
    requires cols != []
    ensures HasRow(cols, r) <==> HasRow(cols[..|cols| - 1], r) || cols[|cols| - 1].row == r
  {
    var init := cols[..|cols| - 1];
    if HasRow(cols, r) && cols[|cols| - 1].row != r {
      var i :| 0 <= i < |cols| && cols[i].row == r;
      assert init[i].row == r;
    }
    if HasRow(init, r) {
      var i :| 0 <= i < |init| && init[i].row == r;
      assert cols[i].row == r;
    }
  }

  lemma {:induction false} RowOfUntouched(m: Row, cols: seq<Column>, r: int)
    requires !HasRow(cols, r)
    ensures RowOf(m, cols, r) == m
  {
    if cols != [] {
      HasRowSnoc(cols, r);
      RowOfUntouched(m, cols[..|cols| - 1], r);
    }
  }

  /** The entry for row number `k + 1` once the cells are placed on `t`: the
      old entry when no cell has that row number, and otherwise the old row
      (or an empty one) with exactly those cells put in order. */
  function Expected(t: Table, cols: seq<Column>, k: nat): Option<Row> {
    if HasRow(cols, k + 1) then Some(RowOf(RowOr(t, k), cols, k + 1))
    else if k < |t| then t[k]
    else None
  }

  /** `u` is what placing the cells on `t` must give: its length is the larger
      of the old length and the largest row number, and every entry is
      `Expected`. */
  ghost predicate Shaped(t: Table, cols: seq<Column>, u: Table) {
    && |u| == Max(|t|, MaxRow(cols))
    && forall k :: 0 <= k < |u| ==> u[k] == Expected(t, cols, k)
  }

  /** The shape of a table built from cells. */
  lemma {:induction false} PlaceAllShape(t: Table, cols: seq<Column>)
    requires ValidRows(cols)
    ensures Shaped(t, cols, PlaceAll(t, cols))
  {
    if cols != [] {
      var init, c := cols[..|cols| - 1], cols[|cols| - 1];
      PlaceAllShape(t, init);
      var before := PlaceAll(t, init);
      var after := PlaceAll(t, cols);
      assert after == Place(before, c);
      assert cols == init + [c];
      forall k | 0 <= k < |after|
        ensures after[k] == Expected(t, cols, k)
      {
        PlaceAllEntry(t, init, before, c, k);
      }
    }
  }

  /** One step of `PlaceAllShape`: the entry `k` after placing `c` on top of `before`. */
  lemma PlaceAllEntry(t: Table, init: seq<Column>, before: Table, c: Column, k: nat)
    requires ValidRows(init) && c.row >= 1
    requires |before| == Max(|t|, MaxRow(init))
    requires k < |before| ==> before[k] == Expected(t, init, k)
    requires k < |Place(before, c)|
    ensures Place(before, c)[k] == Expected(t, init + [c], k)
  {
    var cols := init + [c];
    assert cols[..|cols| - 1] == init;
    HasRowSnoc(cols, k + 1);
    var m := RowOr(t, k);
    BeforeEntry(t, init, before, k);
    if c.row == k + 1 {
      assert RowOf(m, cols, k + 1) == Put(RowOf(m, init, k + 1), c.oid, c.value);
    } else {
      assert RowOf(m, cols, k + 1) == RowOf(m, init, k + 1);
    }
  }

  lemma BeforeEntry(t: Table, init: seq<Column>, before: Table, k: nat)
    requires ValidRows(init)
    requires |before| == Max(|t|, MaxRow(init))
    requires k < |before| ==> before[k] == Expected(t, init, k)
    ensures RowOr(before, k) == RowOf(RowOr(t, k), init, k + 1)
    ensures !HasRow(init, k + 1) ==>
      (if k < |before| then before[k] else None) == (if k < |t| then t[k] else None)
  {
    if k >= |before| {
      assert !HasRow(init, k + 1);
    }
    if !HasRow(init, k + 1) {
      RowOfUntouched(RowOr(t, k), init, k + 1);
    }
  }

  /** A table built from nothing: as long as the largest row number, with a
      row at index `k` exactly when some cell has row number `k + 1`, and that
      row holds those cells put in arrival order; every other entry is a
      placeholder. */
  lemma BuiltTable(cols: seq<Column>)
    requires ValidRows(cols)
    ensures |PlaceAll([], cols)| == MaxRow(cols)
    ensures forall k :: 0 <= k < |PlaceAll([], cols)| ==>
      (PlaceAll([], cols)[k].Some? <==> HasRow(cols, k + 1))
    ensures forall k :: 0 <= k < |PlaceAll([], cols)| && HasRow(cols, k + 1) ==>
      PlaceAll([], cols)[k] == Some(RowOf([], cols, k + 1))
  {
    PlaceAllShape([], cols);
  }

  /** Placing a sequence of cells is placing its two halves one after the other. */
  lemma {:induction false} PlaceAllAppend(t: Table, a: seq<Column>, b: seq<Column>)
    requires ValidRows(a) && ValidRows(b)
    ensures ValidRows(a + b)
    ensures PlaceAll(t, a + b) == PlaceAll(PlaceAll(t, a), b)
  {
    if b != [] {
      assert (a + b)[..|a + b| - 1] == a + b[..|b| - 1];
      PlaceAllAppend(t, a, b[..|b| - 1]);
    } else {
      assert a + b == a;
    }
  }

  /** `sendGetTableRequest`'s placement of one cell, with its padding loop. */
  method PlaceColumn(table: Table, rowNumber: int, oid: string, value: string) returns (t: Table)
    requires rowNumber >= 1
    ensures t == Place(table, Column(oid, value, rowNumber))
  {
    t := table;
    if rowNumber > |t| {
      var newRow: Row := Put([], oid, value);
      var size := |t|;
      var j := 0;
      while rowNumber - size - j > 1
        invariant 0 <= j <= rowNumber - size - 1
        invariant t == table + Placeholders(j)
      {
        t := t + [None];
        j := j + 1;
      }
      t := t + [Some(newRow)];
    } else {
      var existing := t[rowNumber - 1];
      var row: Row := if existing.None? then [] else existing.value;
      t := t[rowNumber - 1 := Some(Put(row, oid, value))];
    }
  }
}
