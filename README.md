# SNMP table walk

A Dafny model of the table-walk engine of `SnmpRequest.java`. The engine rebuilds
a conceptual SNMP table, such as `ifTable`, from a series of GETBULK pages
(section 4.2.3 of RFC 3416). It has three layers.

- **Page conversion** (`sendGetBulkRequest`, response part). A bulk response
  becomes an ordered `LinkedHashMap` from OID to value. There is no map when no
  response or no PDU arrives. There is an empty map when the PDU carries an
  error status. Otherwise the map holds the bindings, put in order.
- **Single-table walk** (`sendGetTableRequest(String)`). A `while (hasNext)`
  loop requests a page at a cursor OID. It keeps every page entry that passes
  the string subtree test and does not end in `.0`. Each kept entry goes into
  row `r - 1`, where `r` is the entry's last sub-identifier; `null`
  placeholders pad the table first when it is too short. The cursor moves to
  the last kept entry. The walk stops at the first entry outside the subtree,
  or when a round gets no page.
- **Multi-table walk** (`sendGetTableRequest(String[])`). One walk per root,
  in order. The result is `null` when every walk gave `null`.

Modules, one file each:

| module | file | what it holds |
|---|---|---|
| `Wrappers` | `wrappers.dfy` | `Option`, which stands for Java's `null` |
| `LinkedMaps` | `linked_maps.dfy` | `LinkedHashMap` as a list of pairs: `Put` overwrites in place or appends |
| `Oids` | `oids.dfy` | the string tests `startsWith`, `endsWith` and `contains`; the row number; the classification of one page entry |
| `BulkPages` | `bulk_pages.dfy` | bulk responses, the page a response yields (`PageOf`) and the conversion loop (`ConvertBulkResponse`) |
| `Tables` | `tables.dfy` | the table as `seq<Option<Row>>`; placing one cell (`Place`, and the padding loop `PlaceColumn`); the shape of a table built from many cells |
| `TableWalk` | `table_walk.dfy` | the walk as functions (`Absorb`, `Rounds`, `Walk`); the loop methods `AbsorbPage` and `GetTable`, each proved equal to those functions |
| `WalkProperties` | `walk_properties.dfy` | what the walk computes, stated without its loop state: accepted cells, table shape, stop rules and cursor rule |
| `MultiTableWalk` | `multi_table_walk.dfy` | the walk over several roots (`WalkAll`) and the method `GetTables` |

The agent is a finite sequence of responses. Each round of a walk uses the next
one. A round past the end of the sequence gets no response, the same as a
timeout. A walk returns its table and also the list of cursors it requested;
that list is how the cursor rule is stated. The multi-table walk hands one
response sequence through all the walks in order. Each walk uses one response
per request it sent.

The subtree test is kept exactly as the code writes it: `"." + oid` starts with
the root and contains `root + "."`. That test is weaker than "is a descendant
of the root". `Oids.SubtreeTestAcceptsNonDescendant` shows root `.1.3`
accepting `1.31.1.3.5` as row 5.

The three string conditions are modelled as `Oids.Classify`. Each page entry is
classified as out of subtree, scalar, or a cell with its row number.

## Model

| member | source | states |
|---|---|---|
| `LinkedMaps.Put` | SnmpRequest.java:356 | `put` of a new key appends the pair at the end; `put` of a present key replaces the pair at that key's first position and changes nothing else |
| `LinkedMaps.PutKeys` | SnmpRequest.java:356 | after `put`, the key order is unchanged for a present key and gains the new key at the end otherwise |
| `LinkedMaps.PutGet` | SnmpRequest.java:356 | after `put(k, v)`, looking up `k` gives `v` |
| `LinkedMaps.PutGetOther` | SnmpRequest.java:356 | `put(k, v)` does not change the value of any other key |
| `LinkedMaps.PutDistinct` | SnmpRequest.java:356 | `put` keeps every key unique |
| `Oids.InSubtree` | SnmpRequest.java:322-323 | the subtree test as written: `"." + oid` starts with the root and contains `root + "."`; its properties are stated by `ShortOidOutOfSubtree`, `DescendantInSubtree` and `SubtreeTestAcceptsNonDescendant` |
| `Oids.IsScalar` | SnmpRequest.java:326 | the scalar test as written: `"." + oid` ends with `.0`; `ScalarSegment` states that this holds exactly when the last sub-identifier is `0` |
| `Oids.Classify` | SnmpRequest.java:322-331 | one page entry is out of the subtree (fails `InSubtree`), a scalar (`IsScalar`), or a cell whose row number is `parseInt` of the last sub-identifier; `DescendantInSubtree`, `ScalarSegment` and `WalkProperties.PageColumnsMembership` state what it decides |
| `Oids.LastSegment` | SnmpRequest.java:330-331 | the text after the last dot has no dot, ends the OID, and is either the whole OID or preceded by a dot |
| `Oids.LastSegmentOfDotted` | SnmpRequest.java:330-331 | for `prefix + "." + seg` with no dot in `seg`, the last segment is `seg` and the row number is `seg`'s decimal value |
| `Oids.ShortOidOutOfSubtree` | SnmpRequest.java:322-323 | an OID whose dotted form is no longer than the root fails the subtree test; in particular the root itself is never stored |
| `Oids.DescendantInSubtree` | SnmpRequest.java:322-326 | every OID whose dotted form starts with `root + "."` passes the subtree test, and is a cell unless it ends in `.0` |
| `Oids.SubtreeTestAcceptsNonDescendant` | SnmpRequest.java:322-323 | root `.1.3` accepts `1.31.1.3.5` as a cell of row 5, although `.1.31.1.3.5` does not start with `.1.3.` |
| `Oids.ScalarSegment` | SnmpRequest.java:326 | an OID is a scalar iff its last sub-identifier is `0`; so such an OID is never a cell |
| `BulkPages.PutBindings` | SnmpRequest.java:252-259 | the bindings put one after the other into an empty map; `PutBindingsKeys` and `PutBindingsValues` state its keys and values |
| `BulkPages.FirstOccurrences` | SnmpRequest.java:252-259 | the reference for the key order: every binding OID once, no repeats, ordered by the position of each OID's first binding |
| `BulkPages.PageOf` | SnmpRequest.java:240-275 | the map a response yields; `PageOutcomes` states its three outcomes |
| `BulkPages.PutBindingsKeys` | SnmpRequest.java:252-259 | the map's keys are the binding OIDs, each once, in the order of their first occurrence |
| `BulkPages.PutBindingsValues` | SnmpRequest.java:252-259 | the map's value for an OID is the value of that OID's last binding; an OID with no binding is absent |
| `BulkPages.PageOutcomes` | SnmpRequest.java:240-275 | three outcomes: no page iff there is no response or no PDU; an empty page on an error status; on `noError`, keys in first-occurrence order, distinct, each holding its last value |
| `BulkPages.PageOidsFromBindings` | SnmpRequest.java:252-259 | every OID of a page is the OID of some binding of the response |
| `BulkPages.ConvertBulkResponse` | SnmpRequest.java:229-275 | the conversion loop returns exactly `PageOf(resp)` |
| `Tables.Place` | SnmpRequest.java:332-357 | placing a cell of row `r` makes the length `max(old length, r)`; it changes entry `r - 1` only; that entry becomes the old row (an empty one for a placeholder or a new index) with the cell put into it; a row appended past the end holds just that cell; the new indices before it are `None` |
| `Tables.PlaceColumn` | SnmpRequest.java:332-357 | the padding loop and the in-place update give exactly `Place`: `r - size - 1` placeholders and then the new row, or the updated existing row |
| `Tables.PlaceAll` | SnmpRequest.java:315-357 | the cells placed one after the other; `PlaceAllShape` and `BuiltTable` state the table that results |
| `Tables.PlaceAllShape` | SnmpRequest.java:315-357 | after placing a sequence of cells, the length is `max(old length, largest row number)`; entry `k` is the old entry when no cell has row `k + 1`, and otherwise the old row with exactly those cells put in order |
| `Tables.BuiltTable` | SnmpRequest.java:305-357 | a table built from nothing is as long as the largest row number (0 if none); entry `k` is a row iff some cell has row number `k + 1`, and that row is those cells put in arrival order |
| `TableWalk.Absorb` | SnmpRequest.java:315-367 | the entries of one page handled in order: a cell is placed and moves the cursor, a scalar is skipped, the first entry outside the subtree stops; `WalkProperties.AbsorbSpec` states the result |
| `TableWalk.Rounds` | SnmpRequest.java:296-376 | the rounds once the table exists: a missing page ends them, a boundary ends them after its page, otherwise the next round requests the new cursor; `WalkProperties.RoundsSpec`, `NextRequest`, `BoundaryEndsWalk`, `RoundsTruncate` and `ErrorStatusRepeatsCursor` state its results |
| `TableWalk.Walk` | SnmpRequest.java:285-379 | the whole walk: `null` when the first round gets no page, otherwise an empty table filled by the rounds; `WalkProperties.WalkTable`, `MissingResponseTruncates`, `FirstPageOutOfSubtree` and `ErrorStatusSpins` state its results |
| `TableWalk.AbsorbPage` | SnmpRequest.java:315-367 | the loop over one page's entries gives exactly `Absorb`: the new table, the new cursor, and whether an entry outside the subtree stopped it |
| `TableWalk.GetTable` | SnmpRequest.java:285-379 | the walk loop returns exactly the table of `Walk` and sends exactly its requests |
| `WalkProperties.PageColumns` | SnmpRequest.java:330-331 | every cell a page contributes has a row number between 1 and `Integer.MAX_VALUE` |
| `WalkProperties.PageColumnsMembership` | SnmpRequest.java:315-366 | a page entry is stored iff it passes the three string tests and no earlier entry of the page failed the subtree test |
| `WalkProperties.AbsorbSpec` | SnmpRequest.java:315-367 | one page places its cells in page order, moves the cursor to the dotted OID of its last cell (or leaves it), and stops the walk iff some entry is outside the subtree |
| `WalkProperties.RoundsSpec` | SnmpRequest.java:296-376 | the rounds build the table of all accepted cells, placed in the order they arrived |
| `WalkProperties.WalkTable` | SnmpRequest.java:285-379 | the result is `null` iff the first round gets no page; otherwise its length is the largest accepted row number (0 if none), entry `k` is non-null iff some accepted cell has row number `k + 1`, and that row holds those cells in arrival order |
| `WalkProperties.RoundsFirstRequest` | SnmpRequest.java:296-299 | every round starts by requesting the current cursor |
| `WalkProperties.NextRequest` | SnmpRequest.java:296-328 | after a page with no boundary entry, the next request is the dotted OID of the page's last cell; a page with no cell repeats the same cursor |
| `WalkProperties.BoundaryEndsWalk` | SnmpRequest.java:361-366 | an entry outside the subtree ends the walk: later entries and later responses are ignored, and no further request is sent |
| `WalkProperties.FirstPageOutOfSubtree` | SnmpRequest.java:302-306 | a first page whose first entry is outside the subtree still gives a non-null, empty table |
| `WalkProperties.RoundsTruncate` | SnmpRequest.java:369-372 | a round without a page ends the rounds; the responses after it never matter |
| `WalkProperties.MissingResponseTruncates` | SnmpRequest.java:302-372 | the walk on a script with a missing response at round `k` equals the walk on the script cut before `k`; so a missing first page gives `null` and a later missing page gives the table built so far |
| `WalkProperties.ErrorStatusRepeatsCursor` | SnmpRequest.java:296-328 | pages that all carry an error status leave the table unchanged and request the same cursor in every round |
| `WalkProperties.ErrorStatusSpins` | SnmpRequest.java:244-306 | a walk whose responses all carry an error status returns an empty table after requesting the root once per response and once more |
| `MultiTableWalk.WalkAll` | SnmpRequest.java:394-402 | one result per root, in order, each walk on what the earlier walks left of the responses; `WalkAllPositional` states entry `i` |
| `MultiTableWalk.WalkAllSuffix` | SnmpRequest.java:394-402 | entry `i` of the walks of all roots is the first walk of the roots from `i` on, started where the earlier walks left the script |
| `MultiTableWalk.WalkAllPositional` | SnmpRequest.java:394-402 | entry `i` of the result is exactly the single-table walk of `roots[i]`, in input order |
| `MultiTableWalk.GetTables` | SnmpRequest.java:388-414 | the result is `null` iff every walk gave `null`, which includes an empty list of roots; otherwise it is the list of all walk results in input order |

## Left out

- Transport and session: the UDP transport, the target, the community, `close` and the `Device` holder are not modelled. The agent is the response sequence passed in.
- The snmp4j calls (`getBulk`, `get`, `getNext`) and the parsing and printing of `OID` and `VariableBinding` are not modelled. A response is an abstract value: no response, a null PDU, or an error status with a list of OID and value strings. An `IOException` from `getBulk` is modelled as no response.
- The request PDU built for each round is not modelled: its type, its non-repeaters (0) and its max-repetitions (500). How many bindings come back is up to the abstract agent.
- The static request-id counter is left out. It does not affect the table.
- The single and multiple GET and GETNEXT wrappers and the display methods are left out. They are pass-throughs and console output.
- Exceptions are left out, not modelled as outcomes. Java throws when an OID that it stores has a malformed last sub-identifier: not decimal, or outside 1 to `Integer.MAX_VALUE`. The model instead assumes, as a blanket precondition, that no cell OID anywhere in the responses is malformed, whether or not the walk reaches it. `TableWalk.GetTable` and the walk functions require `ScriptStorable`: every OID of every `noError` response that would be a cell has such a sub-identifier. That includes entries after a page's first out-of-subtree entry, which Java never parses, and responses after the walk has stopped. `MultiTableWalk.GetTables` requires `AllStorable`, which asks the same of every root over all the responses, including those other roots' walks use. So a script on which Java returns a table without throwing can still fall outside the model.
- `TableWalk.GetTable`: the precondition also excludes last sub-identifiers that `parseInt` accepts but that are not plain ASCII decimal: a leading `+`, and non-ASCII decimal digits, which `Character.digit` reads. OIDs printed by snmp4j contain neither.
- Non-termination is not modelled. The real loop can spin forever when an agent keeps answering with an error status or with pages of scalars. The model's agent is finite and answers "no response" once it is used up; `WalkProperties.ErrorStatusSpins` shows the spin on any finite prefix.
- Memory and `int` limits are not modelled: memory exhaustion when padding to a huge row number, and the `ArrayList` size bound.
