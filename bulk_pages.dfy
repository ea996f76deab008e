/**
  One GETBULK round trip (section 4.2.3 of RFC 3416) and its conversion into a
  page: the ordered (OID, value) map the table walk consumes. The protocol
  engine itself is not modelled; its answer is given as a `BulkResponse`.
 */
module BulkPages {
  import opened Wrappers
  import opened LinkedMaps

  /** `PDU.noError`. */
  const NoError: int := 0

  /** A variable binding, with OID and value already rendered as text. */
  datatype Binding = Binding(oid: string, value: string)

  /** What one GETBULK request brings back. */
  datatype BulkResponse =
    | NoResponse                                    // agent timeout, or an IOException from the engine
    | NullPdu                                       // a response event that holds no PDU
    | Pdu(errorStatus: int, bindings: seq<Binding>)

  /** A page: OIDs mapped to values, in iteration order. */
  type Page = LinkedMap<string, string>

  /** The bindings put into an empty map one after the other. */
  function PutBindings(bs: seq<Binding>): Page {
    if bs == [] then []
    else
      var last := bs[|bs| - 1];
      Put(PutBindings(bs[..|bs| - 1]), last.oid, last.value)
  }

  /** The page a response yields: no page without a PDU, an empty page on an
      error status (the map is created before the status is looked at), and
      otherwise every binding put in order. */
  function PageOf(resp: BulkResponse): Option<Page> {
    match resp
    case NoResponse => None
    case NullPdu => None
    case Pdu(status, bs) => if status == NoError then Some(PutBindings(bs)) else Some([])
  }

  /** The position of the first binding of `oid`, or `|bs|` when there is none. */
  function FirstIndex(bs: seq<Binding>, oid: string): (n: nat)
    ensures n <= |bs|
    ensures n < |bs| ==> bs[n].oid == oid
    ensures forall q :: 0 <= q < n ==> bs[q].oid != oid
  {
    if bs == [] then 0
    else
      var p := FirstIndex(bs[..|bs| - 1], oid);
      if p < |bs| - 1 then p
      else if bs[|bs| - 1].oid == oid then |bs| - 1
      else |bs|
  }

  /** The OIDs of `bs`, each once, in the order of their first occurrence. */
  function FirstOccurrences(bs: seq<Binding>): (oids: seq<string>)
    ensures forall k :: k in oids <==> exists i :: 0 <= i < |bs| && bs[i].oid == k
    ensures forall i, j :: 0 <= i < j < |oids| ==> oids[i] != oids[j]
    ensures forall i, j :: 0 <= i < j < |oids| ==> FirstIndex(bs, oids[i]) < FirstIndex(bs, oids[j])
  {
    if bs == [] then []
    else
      var init := bs[..|bs| - 1];
      var prev := FirstOccurrences(init);
      var k := bs[|bs| - 1].oid;
      FirstIndexSnoc(bs, prev);
      if k in prev then prev else prev + [k]
  }

  /** An OID already seen in all but the last binding keeps its first position. */
  lemma FirstIndexSnoc(bs: seq<Binding>, prev: seq<string>)
    requires bs != []
    requires forall k :: k in prev ==> exists i :: 0 <= i < |bs| - 1 && bs[i].oid == k
    ensures forall k :: k in prev ==> FirstIndex(bs, k) == FirstIndex(bs[..|bs| - 1], k) < |bs| - 1
  {
    var init := bs[..|bs| - 1];
    forall k | k in prev ensures FirstIndex(bs, k) == FirstIndex(init, k) < |bs| - 1 {
      var i :| 0 <= i < |bs| - 1 && bs[i].oid == k;
      assert init[i].oid == k;
    }
  }

  /** The value of the last binding of `oid`, if any. */
  function LastValue(bs: seq<Binding>, oid: string): Option<string> {
    if bs == [] then None
    else if bs[|bs| - 1].oid == oid then Some(bs[|bs| - 1].value)
    else LastValue(bs[..|bs| - 1], oid)
  }

  lemma HasKeyInKeys(m: Page, k: string)
    ensures HasKey(m, k) <==> k in Keys(m)
  {
    if HasKey(m, k) {
      var i :| 0 <= i < |m| && m[i].0 == k;
      assert Keys(m)[i] == k;
    }
  }

  /** A page lists each OID once, in the order the agent first sent it. */
  lemma {:induction false} PutBindingsKeys(bs: seq<Binding>)
    ensures Keys(PutBindings(bs)) == FirstOccurrences(bs)
  {
    if bs != [] {
      var init, last := bs[..|bs| - 1], bs[|bs| - 1];
      PutBindingsKeys(init);
      PutKeys(PutBindings(init), last.oid, last.value);
      HasKeyInKeys(PutBindings(init), last.oid);
    }
  }

  /** A repeated OID takes the value of its last binding. */
  lemma {:induction false} PutBindingsValues(bs: seq<Binding>, oid: string)
    ensures Get(PutBindings(bs), oid) == LastValue(bs, oid)
  {
    if bs != [] {
      var init, last := bs[..|bs| - 1], bs[|bs| - 1];
      PutBindingsValues(init, oid);
      if last.oid == oid {
        PutGet(PutBindings(init), last.oid, last.value);
      } else {
        PutGetOther(PutBindings(init), last.oid, last.value, oid);
      }
    }
  }

  /** The three outcomes of converting a bulk response. */
  lemma PageOutcomes(resp: BulkResponse)
    ensures PageOf(resp).None? <==> resp.NoResponse? || resp.NullPdu?
    ensures resp.Pdu? && resp.errorStatus != NoError ==> PageOf(resp) == Some([])
    ensures resp.Pdu? && resp.errorStatus == NoError ==>
      && Keys(PageOf(resp).value) == FirstOccurrences(resp.bindings)
      && DistinctKeys(PageOf(resp).value)
      && forall oid :: Get(PageOf(resp).value, oid) == LastValue(resp.bindings, oid)
  {
    if resp.Pdu? && resp.errorStatus == NoError {
      var page := PageOf(resp).value;
      PutBindingsKeys(resp.bindings);
      assert forall i :: 0 <= i < |page| ==> page[i].0 == Keys(page)[i];
      forall oid {
        PutBindingsValues(resp.bindings, oid);
      }
    }
  }

  /** Every OID of a page is the OID of one of the response's bindings. */
  lemma PageOidsFromBindings(resp: BulkResponse, i: int)
    requires PageOf(resp).Some? && 0 <= i < |PageOf(resp).value|
    ensures resp.Pdu? && exists j :: 0 <= j < |resp.bindings| && resp.bindings[j].oid == PageOf(resp).value[i].0
  {
    var page := PageOf(resp).value;
    PutBindingsKeys(resp.bindings);
    assert Keys(page)[i] in FirstOccurrences(resp.bindings);
  }

  /** The response-to-map part of the bulk request: the loop of `put` calls. */
  method ConvertBulkResponse(resp: BulkResponse) returns (page: Option<Page>)
    ensures page == PageOf(resp)
  {
    page := None;
    if resp.Pdu? {
      var entries: Page := [];
      if resp.errorStatus == NoError {
        var bs := resp.bindings;
        var i := 0;
        while i < |bs|
          invariant 0 <= i <= |bs|
          invariant entries == PutBindings(bs[..i])
        {
          assert bs[..i + 1][..i] == bs[..i];
          entries := Put(entries, bs[i].oid, bs[i].value);
          i := i + 1;
        }
        assert bs[..|bs|] == bs;
      }
      page := Some(entries);
    }
  }
}
