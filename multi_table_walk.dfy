/**
  `sendGetTableRequest(String[])`: one table walk per root, in order, against
  the same agent, and `null` overall when every walk came back without a table.
 */
module MultiTableWalk {
  import opened Wrappers
  import opened BulkPages
  import opened Tables
  import opened TableWalk

  function Min(a: int, b: int): int {
    if a < b then a else b
  }

  /** The script left after a walk: each request it sent used up one response,
      as long as the script lasted. */
  function Remaining(rs: seq<BulkResponse>, w: Trace): (rest: seq<BulkResponse>)
  {
    rs[Min(|w.requests|, |rs|)..]
  }

  /** No walk, whatever part of the script it meets, throws on a row number. */
  ghost predicate AllStorable(roots: seq<string>, rs: seq<BulkResponse>) {
    forall i :: 0 <= i < |roots| ==> ScriptStorable(roots[i], rs)
  }

  lemma AllStorableRest(roots: seq<string>, rs: seq<BulkResponse>, w: Trace)
    requires AllStorable(roots, rs) && roots != []
    ensures AllStorable(roots[1..], Remaining(rs, w))
  {
    var k := Min(|w.requests|, |rs|);
    forall i | 0 <= i < |roots| - 1 ensures ScriptStorable(roots[1..][i], rs[k..]) {
      ScriptStorableSuffix(roots[i + 1], rs, k);
    }
  }

  /** The walks of all roots, in order, each on what the previous ones left of the script. */
  function WalkAll(roots: seq<string>, rs: seq<BulkResponse>): (ts: seq<Option<Table>>)
    requires AllStorable(roots, rs)
    ensures |ts| == |roots|
    decreases |roots|
  {
    if roots == [] then []
    else
      var w := Walk(roots[0], rs);
      AllStorableRest(roots, rs, w);
      [w.table] + WalkAll(roots[1..], Remaining(rs, w))
  }

  lemma WalkAllCons(roots: seq<string>, rs: seq<BulkResponse>)
    requires AllStorable(roots, rs) && roots != []
    ensures ScriptStorable(roots[0], rs)
    ensures AllStorable(roots[1..], Remaining(rs, Walk(roots[0], rs)))
    ensures WalkAll(roots, rs) == [Walk(roots[0], rs).table] + WalkAll(roots[1..], Remaining(rs, Walk(roots[0], rs)))
  {
    AllStorableRest(roots, rs, Walk(roots[0], rs));
  }

  /** The part of the script the walk of `roots[i]` meets. */
  function StreamFor(roots: seq<string>, rs: seq<BulkResponse>, i: nat): (s: seq<BulkResponse>)
    requires AllStorable(roots, rs) && i < |roots|
    ensures ScriptStorable(roots[i], s)
    decreases i
  {
    if i == 0 then rs
    else
      var w := Walk(roots[0], rs);
      AllStorableRest(roots, rs, w);
      StreamFor(roots[1..], Remaining(rs, w), i - 1)
  }

  /** Entry `i > 0` of the walks of `roots` is entry `i - 1` of the walks of
      the remaining roots on the rest of the script, and so is its stream. */
  lemma PositionStep(roots: seq<string>, rs: seq<BulkResponse>, i: nat)
    requires AllStorable(roots, rs) && 0 < i < |roots|
    ensures AllStorable(roots[1..], Remaining(rs, Walk(roots[0], rs)))
    ensures roots[1..][i - 1..] == roots[i..]
    ensures WalkAll(roots, rs)[i] == WalkAll(roots[1..], Remaining(rs, Walk(roots[0], rs)))[i - 1]
    ensures StreamFor(roots, rs, i) == StreamFor(roots[1..], Remaining(rs, Walk(roots[0], rs)), i - 1)
  {
    WalkAllCons(roots, rs);
  }

  /** Entry `i` of the walks of `roots` is the first walk of the roots from
      `i` on, started on the stream that reaches `roots[i]`. */
  lemma {:induction false} WalkAllSuffix(roots: seq<string>, rs: seq<BulkResponse>, i: nat)
    requires AllStorable(roots, rs) && i < |roots|
    ensures AllStorable(roots[i..], StreamFor(roots, rs, i))
    ensures WalkAll(roots, rs)[i] == WalkAll(roots[i..], StreamFor(roots, rs, i))[0]
    decreases i
  {
    if i == 0 {
      assert roots[0..] == roots;
    } else {
      PositionStep(roots, rs, i);
      WalkAllSuffix(roots[1..], Remaining(rs, Walk(roots[0], rs)), i - 1);
    }
  }

  /** Entry `i` of the result is exactly the walk of `roots[i]`, in input order. */
  lemma WalkAllPositional(roots: seq<string>, rs: seq<BulkResponse>, i: nat)
    requires AllStorable(roots, rs) && i < |roots|
    ensures WalkAll(roots, rs)[i] == Walk(roots[i], StreamFor(roots, rs, i)).table
  {
    WalkAllSuffix(roots, rs, i);
    WalkAllCons(roots[i..], StreamFor(roots, rs, i));
    assert roots[i..][0] == roots[i];
  }

  lemma AllStorableAt(roots: seq<string>, rs: seq<BulkResponse>, i: nat)
    requires i < |roots| && AllStorable(roots[i..], rs)
    ensures ScriptStorable(roots[i], rs)
  {
    assert roots[i..][0] == roots[i];
  }

  /** One iteration of `GetTables`: the walk of `roots[i]` on `rs` gave `w`. */
  lemma WalkAllNext(roots: seq<string>, rs: seq<BulkResponse>, i: nat, w: Trace,
                    done: seq<Option<Table>>, responses: seq<BulkResponse>)
    requires i < |roots| && AllStorable(roots[i..], rs) && AllStorable(roots, responses)
    requires ScriptStorable(roots[i], rs) && w == Walk(roots[i], rs)
    requires done + WalkAll(roots[i..], rs) == WalkAll(roots, responses)
    ensures AllStorable(roots[i + 1..], Remaining(rs, w))
    ensures (done + [w.table]) + WalkAll(roots[i + 1..], Remaining(rs, w)) == WalkAll(roots, responses)
  {
    WalkAllCons(roots[i..], rs);
    assert roots[i..][0] == roots[i] && roots[i..][1..] == roots[i + 1..];
    var later := WalkAll(roots[i + 1..], Remaining(rs, w));
    assert done + ([w.table] + later) == (done + [w.table]) + later;
  }

  /** `sendGetTableRequest(String[])`: `None` iff every walk gave `None`, which
      includes an empty list of roots; otherwise all results, in order. */
  method GetTables(roots: seq<string>, responses: seq<BulkResponse>) returns (result: Option<seq<Option<Table>>>)
    requires AllStorable(roots, responses)
    ensures result.None? <==> forall k :: 0 <= k < |roots| ==> WalkAll(roots, responses)[k].None?
    ensures result.Some? ==> result.value == WalkAll(roots, responses)
  {
    var allTables: seq<Option<Table>> := [];
    var rest := responses;
    var i := 0;
    while i < |roots|
      invariant 0 <= i <= |roots|
      invariant AllStorable(roots[i..], rest)
      invariant allTables + WalkAll(roots[i..], rest) == WalkAll(roots, responses)
    {
      AllStorableAt(roots, rest, i);
      var table, requests := GetTable(roots[i], rest);
      WalkAllNext(roots, rest, i, Trace(table, requests), allTables, responses);
      allTables := allTables + [table];
      rest := Remaining(rest, Trace(table, requests));
      i := i + 1;
    }
    assert allTables == WalkAll(roots, responses);
    var pos := 0;
    while pos < |allTables|
      invariant 0 <= pos <= |allTables|
      invariant forall k :: 0 <= k < pos ==> allTables[k].None?
    {
      if allTables[pos].Some? {
        break;
      }
      pos := pos + 1;
    }
    if pos == |allTables| {
      return None;
    }
    return Some(allTables);
  }
}
