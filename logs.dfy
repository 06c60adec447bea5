/** Raw log records, the two hex streams rebuilt from them, and the address filter. */
module Logs {
  import opened Values
  import opened Seqs

  /** A raw log record as a node returns it; only these fields are read. */
  datatype Log = Log(address: string, blockNumber: int, topics: seq<string>, data: string)

  /** `s.slice(2)`: drops the leading "0x" (or whatever two characters are there). */
  function Drop2(s: string): (r: string)
    ensures |s| >= 2 ==> s[..2] + r == s
    ensures |s| < 2 ==> r == ""
  {
    if |s| >= 2 then s[2..] else ""
  }

  /** `ts.map(str => str.slice(2))`. */
  function StripAll(ts: seq<string>): (r: seq<string>)
    ensures |r| == |ts|
  {
    seq(|ts|, k requires 0 <= k < |ts| => Drop2(ts[k]))
  }

  /** The indexed stream: `topics.slice(1).map(str => str.slice(2)).join('')`. */
  function IndexedStream(topics: seq<string>): string {
    if topics == [] then "" else Concat(StripAll(topics[1..]))
  }

  /** The non-indexed stream: `data.slice(2)`. */
  function DataStream(data: string): string {
    Drop2(data)
  }

  /**
   * For topics 1.. of one width (32-byte slots are "0x" plus 64 hex digits), cutting the
   * indexed stream back into slots gives exactly topics[1..] without their prefixes:
   * the event topic topics[0], of any width, contributes nothing.
   */
  lemma IndexedStreamSlots(topics: seq<string>, w: nat)
    requires w > 0 && |topics| >= 1
    requires forall k :: 1 <= k < |topics| ==> |topics[k]| == 2 + w
    ensures |Chunks(IndexedStream(topics), w)| == |topics| - 1
    ensures forall k :: 1 <= k < |topics| ==> Chunks(IndexedStream(topics), w)[k - 1] == topics[k][2..]
  {
    var slots := StripAll(topics[1..]);
    forall k | 0 <= k < |slots| ensures |slots[k]| == w {
      assert slots[k] == Drop2(topics[k + 1]);
    }
    ChunksConcat(slots, w);
    forall k | 1 <= k < |topics| ensures slots[k - 1] == topics[k][2..] {
      assert topics[1..][k - 1] == topics[k];
    }
  }

  /** The stream of a log whose topics are "0x"-prefixed payloads is the concatenation of payloads 1.. */
  lemma {:induction false} IndexedStreamOfPrefixed(payloads: seq<string>)
    requires |payloads| >= 1
    ensures IndexedStream(seq(|payloads|, k requires 0 <= k < |payloads| => "0x" + payloads[k]))
            == Concat(payloads[1..])
  {
    var topics := seq(|payloads|, k requires 0 <= k < |payloads| => "0x" + payloads[k]);
    var slots := StripAll(topics[1..]);
    forall k | 0 <= k < |slots| ensures slots[k] == payloads[1..][k] {
      assert topics[1..][k] == "0x" + payloads[k + 1];
      assert ("0x" + payloads[k + 1])[2..] == payloads[k + 1];
    }
    assert slots == payloads[1..];
  }

  /** The `filter` argument of parseLog; only `address` is ever read. */
  datatype FilterCriteria = FilterCriteria(address: Option<string>)

  /** `filter.address` is truthy: present and not the empty string. */
  predicate AddressActive(filter: FilterCriteria) {
    filter.address.Some? && filter.address.value != ""
  }

  function AddressIs(a: string): Log -> bool {
    (l: Log) => l.address == a
  }

  /** `filter.address ? logs.filter(({ address }) => address === filter.address) : logs`. */
  function FilterLogs(logs: seq<Log>, filter: FilterCriteria): (r: seq<Log>)
    ensures !AddressActive(filter) ==> r == logs
    ensures AddressActive(filter) ==>
      && (forall k :: 0 <= k < |r| ==> r[k] in logs && r[k].address == filter.address.value)
      && (forall k :: 0 <= k < |logs| && logs[k].address == filter.address.value ==> logs[k] in r)
    ensures |r| <= |logs|
  {
    if AddressActive(filter) then
      FilterMembers(AddressIs(filter.address.value), logs);
      Filter(AddressIs(filter.address.value), logs)
    else logs
  }

  /** The filter keeps the logs of its address in the order they came, and nothing else. */
  lemma {:induction false} FilterLogsOrder(a: seq<Log>, b: seq<Log>, filter: FilterCriteria)
    ensures FilterLogs(a + b, filter) == FilterLogs(a, filter) + FilterLogs(b, filter)
  {
    if AddressActive(filter) {
      FilterAppend(AddressIs(filter.address.value), a, b);
    }
  }
}
