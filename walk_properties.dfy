/**
  What the table walk computes, stated without its step-by-step state: the
  cells it accepts, the table they make, where it stops and what it asks for.
 */
module WalkProperties {
  import opened Wrappers
  import opened Oids
  import opened BulkPages
  import opened Tables
  import opened TableWalk

  /** Some entry of the page lies outside the subtree. */
  predicate Boundary(root: string, es: Page) {
    exists i :: 0 <= i < |es| && !InSubtree(root, es[i].0)
  }

  /** The cells a page contributes: the cells among the entries before the
      first one outside the subtree, in page order. */
  function PageColumns(root: string, es: Page): (cols: seq<Column>)
    requires PageStorable(root, es)
    ensures forall i :: 0 <= i < |cols| ==> 1 <= cols[i].row <= MaxInt
    decreases |es|
  {
    if es == [] then []
    else
      var oid := es[0].0;
      PageStorableTail(root, es);
      match Classify(root, oid)
      case OutOfSubtree => []
      case Scalar => PageColumns(root, es[1..])
      case Cell(r) => [Column(oid, es[0].1, r)] + PageColumns(root, es[1..])
  }

  /** The cursor after a page: the dotted OID of its last cell, or the old cursor. */
  function LastCursor(cursor: string, cols: seq<Column>): string {
    if cols == [] then cursor else "." + cols[|cols| - 1].oid
  }

  /** All cells the walk accepts, page after page, up to the first missing
      page or the first page with a boundary. */
  function Accepted(root: string, rs: seq<BulkResponse>): (cols: seq<Column>)
    requires ScriptStorable(root, rs)
    ensures ValidRows(cols)
    decreases |rs|
  {
    if rs == [] then []
    else
      match PageOf(rs[0])
      case None => []
      case Some(es) =>
        PageStorableOf(root, rs[0]);
        assert ScriptStorable(root, rs[1..]) by { ScriptStorableSuffix(root, rs, 1); }
        PageColumns(root, es) + if Boundary(root, es) then [] else Accepted(root, rs[1..])
  }

  /** Entry `es[i]` is stored as cell `c`: it is a cell and every entry before it is in the subtree. */
  ghost predicate StoredAs(root: string, es: Page, c: Column) {
    exists i :: 0 <= i < |es| && es[i] == (c.oid, c.value) && Classify(root, c.oid) == Cell(c.row) &&
      forall j :: 0 <= j < i ==> InSubtree(root, es[j].0)
  }

  lemma StoredAsShift(root: string, es: Page, c: Column)
    requires es != []
    ensures StoredAs(root, es, c) <==>
      (es[0] == (c.oid, c.value) && Classify(root, c.oid) == Cell(c.row)) ||
      (InSubtree(root, es[0].0) && StoredAs(root, es[1..], c))
  {
    var rest := es[1..];
    if StoredAs(root, es, c) {
      var i :| 0 <= i < |es| && es[i] == (c.oid, c.value) && Classify(root, c.oid) == Cell(c.row) &&
        forall j :: 0 <= j < i ==> InSubtree(root, es[j].0);
      if i > 0 {
        assert rest[i - 1] == es[i];
        forall j | 0 <= j < i - 1 ensures InSubtree(root, rest[j].0) {
          assert rest[j] == es[j + 1];
        }
      }
    }
    if InSubtree(root, es[0].0) && StoredAs(root, rest, c) {
      var i :| 0 <= i < |rest| && rest[i] == (c.oid, c.value) && Classify(root, c.oid) == Cell(c.row) &&
        forall j :: 0 <= j < i ==> InSubtree(root, rest[j].0);
      assert es[i + 1] == rest[i];
      forall j | 0 <= j < i + 1 ensures InSubtree(root, es[j].0) {
        if j > 0 { assert es[j] == rest[j - 1]; }
      }
    }
  }

  /** A page entry is stored iff it is a cell (its dotted form starts with the
      root, contains the root followed by a dot and does not end in `.0`) and
      no entry before it lies outside the subtree. */
  lemma {:induction false} PageColumnsMembership(root: string, es: Page, c: Column)
    requires PageStorable(root, es)
    ensures c in PageColumns(root, es) <==> StoredAs(root, es, c)
    decreases |es|
  {
    if es != [] {
      PageColumnsMembership(root, es[1..], c);
      StoredAsShift(root, es, c);
    }
  }

  lemma BoundaryShift(root: string, es: Page)
    requires es != [] && InSubtree(root, es[0].0)
    ensures Boundary(root, es) <==> Boundary(root, es[1..])
  {
    if Boundary(root, es) {
      var i :| 0 <= i < |es| && !InSubtree(root, es[i].0);
      assert es[1..][i - 1] == es[i];
    }
    if Boundary(root, es[1..]) {
      var i :| 0 <= i < |es| - 1 && !InSubtree(root, es[1..][i].0);
      assert es[i + 1] == es[1..][i];
    }
  }

  /** One page handled entry by entry is the page's cells placed in order; the
      cursor moves to the last of them, and the walk stops iff the page has an
      entry outside the subtree. */
  lemma {:induction false} AbsorbSpec(root: string, es: Page, t: Table, cursor: string)
    requires PageStorable(root, es)
    ensures Absorb(root, es, t, cursor) ==
      Absorbed(PlaceAll(t, PageColumns(root, es)), LastCursor(cursor, PageColumns(root, es)), Boundary(root, es))
    decreases |es|
  {
    if es != [] {
      var oid := es[0].0;
      match Classify(root, oid)
      case OutOfSubtree =>
        assert !InSubtree(root, es[0].0);
      case Scalar =>
        AbsorbSpec(root, es[1..], t, cursor);
        BoundaryShift(root, es);
      case Cell(r) =>
        var col := Column(oid, es[0].1, r);
        var rest := PageColumns(root, es[1..]);
        AbsorbSpec(root, es[1..], Place(t, col), "." + oid);
        BoundaryShift(root, es);
        PlaceAllAppend(t, [col], rest);
        assert [col][..0] == [];
    }
  }

  /** The rounds build the table of all accepted cells. */
  lemma {:induction false} RoundsSpec(root: string, rs: seq<BulkResponse>, t: Table, cursor: string)
    requires ScriptStorable(root, rs)
    ensures Rounds(root, rs, t, cursor).table == PlaceAll(t, Accepted(root, rs))
    decreases |rs|
  {
    if rs != [] && PageOf(rs[0]).Some? {
      var es := PageOf(rs[0]).value;
      PageStorableOf(root, rs[0]);
      ScriptStorableSuffix(root, rs, 1);
      AbsorbSpec(root, es, t, cursor);
      var cols := PageColumns(root, es);
      if !Boundary(root, es) {
        RoundsSpec(root, rs[1..], PlaceAll(t, cols), LastCursor(cursor, cols));
        PlaceAllAppend(t, cols, Accepted(root, rs[1..]));
      } else {
        assert cols + [] == cols;
      }
    }
  }

  /** The walk's result: no table iff the first round gets no page; otherwise a
      table as long as the largest accepted row number (0 if none), holding a
      row at index `k` iff some accepted cell has row number `k + 1`, that row
      being those cells put in arrival order, and a `None` placeholder at every
      other index. */
  lemma WalkTable(root: string, rs: seq<BulkResponse>)
    requires ScriptStorable(root, rs)
    ensures Walk(root, rs).table.None? <==> rs == [] || PageOf(rs[0]).None?
    ensures Walk(root, rs).table.Some? ==>
      var t, cols := Walk(root, rs).table.value, Accepted(root, rs);
      && t == PlaceAll([], cols)
      && |t| == MaxRow(cols)
      && (forall k :: 0 <= k < |t| ==> (t[k].Some? <==> HasRow(cols, k + 1)))
      && (forall k :: 0 <= k < |t| && t[k].Some? ==> t[k].value == RowOf([], cols, k + 1))
  {
    if rs != [] && PageOf(rs[0]).Some? {
      RoundsSpec(root, rs, [], root);
      BuiltTable(Accepted(root, rs));
    }
  }

  /** Every round starts by requesting the current cursor. */
  lemma RoundsFirstRequest(root: string, rs: seq<BulkResponse>, t: Table, cursor: string)
    requires ScriptStorable(root, rs)
    ensures |Rounds(root, rs, t, cursor).requests| >= 1
    ensures Rounds(root, rs, t, cursor).requests[0] == cursor
  {
  }

  /** After a page without a boundary the next request starts at the dotted OID
      of the page's last cell; a page without cells (an error status, or only
      scalars) sends the same cursor again. */
  lemma NextRequest(root: string, rs: seq<BulkResponse>, t: Table, cursor: string)
    requires ScriptStorable(root, rs)
    requires rs != [] && PageOf(rs[0]).Some?
    requires PageStorable(root, PageOf(rs[0]).value)
    requires !Boundary(root, PageOf(rs[0]).value)
    ensures |Rounds(root, rs, t, cursor).requests| >= 2
    ensures Rounds(root, rs, t, cursor).requests[0] == cursor
    ensures Rounds(root, rs, t, cursor).requests[1] == LastCursor(cursor, PageColumns(root, PageOf(rs[0]).value))
  {
    var es := PageOf(rs[0]).value;
    AbsorbSpec(root, es, t, cursor);
    ScriptStorableSuffix(root, rs, 1);
    var a := Absorb(root, es, t, cursor);
    RoundsFirstRequest(root, rs[1..], a.table, a.cursor);
  }

  /** An entry outside the subtree ends the walk: that page's later entries and
      all later responses are ignored, and no further request is sent. */
  lemma BoundaryEndsWalk(root: string, rs: seq<BulkResponse>, t: Table, cursor: string)
    requires ScriptStorable(root, rs)
    requires rs != [] && PageOf(rs[0]).Some?
    requires PageStorable(root, PageOf(rs[0]).value)
    requires Boundary(root, PageOf(rs[0]).value)
    ensures Rounds(root, rs, t, cursor) == Walked(PlaceAll(t, PageColumns(root, PageOf(rs[0]).value)), [cursor])
  {
    AbsorbSpec(root, PageOf(rs[0]).value, t, cursor);
  }

  /** A first page whose first entry is outside the subtree still yields a
      table, an empty one. */
  lemma FirstPageOutOfSubtree(root: string, rs: seq<BulkResponse>)
    requires ScriptStorable(root, rs)
    requires rs != [] && PageOf(rs[0]).Some? && PageOf(rs[0]).value != []
    requires !InSubtree(root, PageOf(rs[0]).value[0].0)
    ensures Walk(root, rs) == Trace(Some([]), [root])
  {
  }

  lemma {:induction false} RoundsTruncate(root: string, rs: seq<BulkResponse>, k: nat, t: Table, cursor: string)
    requires ScriptStorable(root, rs)
    requires k < |rs| && PageOf(rs[k]).None?
    ensures ScriptStorable(root, rs[..k])
    ensures Rounds(root, rs, t, cursor) == Rounds(root, rs[..k], t, cursor)
    decreases k
  {
    assert ScriptStorable(root, rs[..k]) by {
      forall i | 0 <= i < k ensures ResponseStorable(root, rs[..k][i]) {
        assert rs[..k][i] == rs[i];
      }
    }
    if k > 0 && PageOf(rs[0]).Some? {
      var es := PageOf(rs[0]).value;
      PageStorableOf(root, rs[0]);
      ScriptStorableSuffix(root, rs, 1);
      var a := Absorb(root, es, t, cursor);
      if !a.boundary {
        assert rs[1..][k - 1] == rs[k];
        RoundsTruncate(root, rs[1..], k - 1, a.table, a.cursor);
        assert rs[..k][1..] == rs[1..][..k - 1];
        assert rs[..k][0] == rs[0];
      } else {
        assert rs[..k][0] == rs[0];
      }
    }
  }

  /** A round that gets no response ends the walk exactly as if the agent had
      gone silent for good: later responses never matter, and from the second
      round on the walk returns the table built so far. */
  lemma MissingResponseTruncates(root: string, rs: seq<BulkResponse>, k: nat)
    requires ScriptStorable(root, rs)
    requires k < |rs| && PageOf(rs[k]).None?
    ensures ScriptStorable(root, rs[..k])
    ensures Walk(root, rs) == Walk(root, rs[..k])
  {
    RoundsTruncate(root, rs, k, [], root);
    if k > 0 {
      assert rs[..k][0] == rs[0];
    }
  }

  /** Every response carries an error status: each page is empty, the cursor
      never moves, and the walk asks for the root once per response and once
      more, yielding an empty table. Against a real agent that keeps
      answering so, the loop never ends. */
  lemma {:induction false} ErrorStatusRepeatsCursor(root: string, rs: seq<BulkResponse>, t: Table, cursor: string)
    requires ScriptStorable(root, rs)
    requires forall i :: 0 <= i < |rs| ==> rs[i].Pdu? && rs[i].errorStatus != NoError
    ensures Rounds(root, rs, t, cursor) == Walked(t, seq(|rs| + 1, _ => cursor))
    decreases |rs|
  {
    if rs != [] {
      ScriptStorableSuffix(root, rs, 1);
      ErrorStatusRepeatsCursor(root, rs[1..], t, cursor);
      assert [cursor] + seq(|rs|, _ => cursor) == seq(|rs| + 1, _ => cursor);
    }
  }

  lemma ErrorStatusSpins(root: string, rs: seq<BulkResponse>)
    requires ScriptStorable(root, rs)
    requires rs != [] && forall i :: 0 <= i < |rs| ==> rs[i].Pdu? && rs[i].errorStatus != NoError
    ensures Walk(root, rs) == Trace(Some([]), seq(|rs| + 1, _ => root))
  {
    ErrorStatusRepeatsCursor(root, rs, [], root);
  }
}
