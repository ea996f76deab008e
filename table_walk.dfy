/**
  The single-table walk of `sendGetTableRequest(String)`: repeated GETBULK
  rounds from a cursor OID, each page's cells placed into the table until an
  OID outside the subtree shows up or the agent stops answering.

  The agent is a script of responses, one consumed per round; a round past the
  end of the script gets no response. The walk reports, beside its table, the
  cursor it sent in every round.
 */
module TableWalk {
  import opened Wrappers
  import opened Oids
  import opened BulkPages
  import opened Tables

  /** Every entry of the page that would be stored has a usable row number. */
  ghost predicate PageStorable(root: string, es: Page) {
    forall i :: 0 <= i < |es| ==> Storable(root, es[i].0)
  }

  ghost predicate ResponseStorable(root: string, resp: BulkResponse) {
    resp.Pdu? && resp.errorStatus == NoError ==>
      forall i :: 0 <= i < |resp.bindings| ==> Storable(root, resp.bindings[i].oid)
  }

  /** No response of the script makes the walk throw on a row number. */
  ghost predicate ScriptStorable(root: string, rs: seq<BulkResponse>) {
    forall i :: 0 <= i < |rs| ==> ResponseStorable(root, rs[i])
  }

  lemma PageStorableTail(root: string, es: Page)
    requires PageStorable(root, es) && es != []
    ensures Storable(root, es[0].0) && PageStorable(root, es[1..])
  {
    forall i | 0 <= i < |es| - 1 ensures Storable(root, es[1..][i].0) {
      assert es[1..][i] == es[i + 1];
    }
  }

  lemma PageStorableOf(root: string, resp: BulkResponse)
    requires ResponseStorable(root, resp) && PageOf(resp).Some?
    ensures PageStorable(root, PageOf(resp).value)
  {
    var es := PageOf(resp).value;
    forall i | 0 <= i < |es| ensures Storable(root, es[i].0) {
      PageOidsFromBindings(resp, i);
    }
  }

  /** The state after one page: the table, the cursor for the next round, and
      whether an OID outside the subtree ended the walk. */
  datatype Absorbed = Absorbed(table: Table, cursor: string, boundary: bool)

  /** The entries of a page handled from the first on. */
  function Absorb(root: string, es: Page, t: Table, cursor: string): Absorbed
    requires PageStorable(root, es)
    decreases |es|
  {
    if es == [] then Absorbed(t, cursor, false)
    else
      var oid := es[0].0;
      match Classify(root, oid)
      case OutOfSubtree => Absorbed(t, cursor, true)
      case Scalar => Absorb(root, es[1..], t, cursor)
      case Cell(r) => Absorb(root, es[1..], Place(t, Column(oid, es[0].1, r)), "." + oid)
  }

  /** The table and the cursors sent, from a round with cursor `cursor` on. */
  datatype Walked = Walked(table: Table, requests: seq<string>)

  /** The rounds once the table exists: a missing page ends the walk with the
      table as it is, a boundary ends it after the page. */
  function Rounds(root: string, rs: seq<BulkResponse>, t: Table, cursor: string): Walked
    requires ScriptStorable(root, rs)
    decreases |rs|
  {
    if rs == [] then Walked(t, [cursor])
    else
      match PageOf(rs[0])
      case None => Walked(t, [cursor])
      case Some(es) =>
        PageStorableOf(root, rs[0]);
        var a := Absorb(root, es, t, cursor);
        if a.boundary then Walked(a.table, [cursor])
        else
          var w := Rounds(root, rs[1..], a.table, a.cursor);
          Walked(w.table, [cursor] + w.requests)
  }

  /** The result of a walk (`None` is `null`) and the cursors it sent. */
  datatype Trace = Trace(table: Option<Table>, requests: seq<string>)

  /** The walk from `root`: no table when the first round gets no page, and
      otherwise a table created empty and filled by the rounds. */
  function Walk(root: string, rs: seq<BulkResponse>): Trace
    requires ScriptStorable(root, rs)
  {
    if rs == [] || PageOf(rs[0]).None? then Trace(None, [root])
    else
      var w := Rounds(root, rs, [], root);
      Trace(Some(w.table), w.requests)
  }

  /** One entry of `Absorb`, taken at position `j` of the page. */
  lemma AbsorbStep(root: string, es: Page, j: nat, t: Table, cursor: string)
    requires PageStorable(root, es) && j < |es|
    ensures PageStorable(root, es[j..]) && PageStorable(root, es[j + 1..])
    ensures InSubtree(root, es[j].0) && !IsScalar(es[j].0) ==> RowNumber(es[j].0) >= 1
    ensures Absorb(root, es[j..], t, cursor) ==
      if !InSubtree(root, es[j].0) then Absorbed(t, cursor, true)
      else if IsScalar(es[j].0) then Absorb(root, es[j + 1..], t, cursor)
      else Absorb(root, es[j + 1..], Place(t, Column(es[j].0, es[j].1, RowNumber(es[j].0))), "." + es[j].0)
  {
    assert es[j..][0] == es[j];
    assert es[j..][1..] == es[j + 1..];
    assert Storable(root, es[j].0);
  }

  /** The body of the walk's page loop: each entry tested against the subtree,
      scalars skipped, cells placed and the cursor moved to them, and the first
      entry outside the subtree ending the walk. */
  method AbsorbPage(root: string, es: Page, table: Table, cursor: string)
    returns (t: Table, next: string, boundary: bool)
    requires PageStorable(root, es)
    ensures Absorbed(t, next, boundary) == Absorb(root, es, table, cursor)
  {
    t, next, boundary := table, cursor, false;
    var j := 0;
    while j < |es|
      invariant 0 <= j <= |es|
      invariant Absorb(root, es, table, cursor) == Absorb(root, es[j..], t, next)
    {
      AbsorbStep(root, es, j, t, next);
      var oid, value := es[j].0, es[j].1;
      if InSubtree(root, oid) {
        if !IsScalar(oid) {
          next := "." + oid;
          var rowNumber := RowNumber(oid);
          t := PlaceColumn(t, rowNumber, oid, value);
        }
      } else {
        boundary := true;
        return;
      }
      j := j + 1;
    }
  }

  /** The response a round gets: the next one of the script, or none once the script is used up. */
  function Answer(rs: seq<BulkResponse>, round: nat): BulkResponse {
    if round < |rs| then rs[round] else NoResponse
  }

  lemma ScriptStorableSuffix(root: string, rs: seq<BulkResponse>, k: nat)
    requires ScriptStorable(root, rs) && k <= |rs|
    ensures ScriptStorable(root, rs[k..])
    ensures ResponseStorable(root, Answer(rs, k))
  {
    forall i | 0 <= i < |rs| - k ensures ResponseStorable(root, rs[k..][i]) {
      assert rs[k..][i] == rs[k + i];
    }
  }

  /**
   * What the rest of the walk yields once rounds `0..k-1` are done: the table
   * built so far is `t`, the next request names `cursor` and `sent` were the
   * requests already made.
   */
  ghost function Resume(root: string, rs: seq<BulkResponse>, k: nat, t: Table, cursor: string, sent: seq<string>): Trace
    requires ScriptStorable(root, rs) && k <= |rs|
  {
    ScriptStorableSuffix(root, rs, k);
    var w := Rounds(root, rs[k..], t, cursor);
    Trace(Some(w.table), sent + w.requests)
  }

  /** One round of the walk, in terms of `Resume`. */
  lemma RoundStep(root: string, rs: seq<BulkResponse>, k: nat, t: Table, cursor: string, sent: seq<string>)
    requires ScriptStorable(root, rs) && k <= |rs|
    ensures ResponseStorable(root, Answer(rs, k))
    ensures PageOf(Answer(rs, k)).None? ==> Resume(root, rs, k, t, cursor, sent) == Trace(Some(t), sent + [cursor])
    ensures PageOf(Answer(rs, k)).Some? ==>
      && k < |rs|
      && PageStorable(root, PageOf(Answer(rs, k)).value)
      && var a := Absorb(root, PageOf(Answer(rs, k)).value, t, cursor);
         Resume(root, rs, k, t, cursor, sent) ==
           if a.boundary then Trace(Some(a.table), sent + [cursor])
           else Resume(root, rs, k + 1, a.table, a.cursor, sent + [cursor])
  {
    ScriptStorableSuffix(root, rs, k);
    if PageOf(Answer(rs, k)).Some? {
      ScriptStorableSuffix(root, rs, k + 1);
      PageStorableOf(root, rs[k]);
      assert rs[k..][0] == rs[k];
      assert rs[k..][1..] == rs[k + 1..];
      var a := Absorb(root, PageOf(Answer(rs, k)).value, t, cursor);
      if !a.boundary {
        var w := Rounds(root, rs[k + 1..], a.table, a.cursor);
        assert sent + ([cursor] + w.requests) == (sent + [cursor]) + w.requests;
      }
    }
  }

  /** The first round decides whether there is a table at all. */
  lemma WalkStart(root: string, rs: seq<BulkResponse>)
    requires ScriptStorable(root, rs)
    ensures PageOf(Answer(rs, 0)).None? ==> Walk(root, rs) == Trace(None, [root])
    ensures PageOf(Answer(rs, 0)).Some? ==> Walk(root, rs) == Resume(root, rs, 0, [], root, [])
  {
    assert rs[0..] == rs;
  }

  /** `sendGetTableRequest(String)`. */
  method GetTable(root: string, responses: seq<BulkResponse>) returns (table: Option<Table>, requests: seq<string>)
    requires ScriptStorable(root, responses)
    ensures Trace(table, requests) == Walk(root, responses)
  {
    table := None;
    requests := [];
    var hasNext := true;
    var next := root;
    var round := 0;
    while hasNext
      invariant 0 <= round <= |responses| + 1
      invariant hasNext ==> round <= |responses|
      invariant table.None? ==> hasNext && round == 0 && requests == [] && next == root
      invariant table.Some? && hasNext ==>
        Walk(root, responses) == Resume(root, responses, round, table.value, next, requests)
      invariant !hasNext ==> table.Some? && Walk(root, responses) == Trace(table, requests)
      decreases |responses| + 1 - round
    {
      var cur := next;
      if table.None? {
        WalkStart(root, responses);
      }
      RoundStep(root, responses, round, if table.Some? then table.value else [], cur, requests);
      requests := requests + [cur];
      var resp := Answer(responses, round);
      var page := ConvertBulkResponse(resp);
      if table.None? {
        if page.None? {
          return;
        }
        table := Some([]);
      }
      if page.Some? {
        var t, boundary;
        t, next, boundary := AbsorbPage(root, page.value, table.value, cur);
        table := Some(t);
        hasNext := !boundary;
      } else {
        hasNext := false;
      }
      round := round + 1;
    }
  }
}
