/**
 * parseLog end to end: expansion, compilation of one parser per event, the address filter and
 * the match; once with a compilation that depends only on the event (ParseLog), and once with
 * the module-level `cachedParsers` object as the code uses it (ParserCache, ParseLogCached).
 */
module EventLogs {
  import opened Values
  import opened Logs
  import opened Abi
  import opened ArgsParsing
  import opened Matching

  /** One compiled parser per expanded event, in order. */
  function CompileAll(events: seq<AbiEntry>, hash: Hasher): (ps: seq<Parser>)
    ensures |ps| == |events|
  {
    seq(|events|, k requires 0 <= k < |events| => CompileEvent(events[k], hash))
  }

  /** Log `log` carries the event topic of `e`: its first topic is the hash of e's signature. */
  predicate IsMatch(log: Log, e: AbiEntry, hash: Hasher) {
    |log.topics| > 0 && log.topics[0] == hash(EventSignature(e))
  }

  /** The entry parseLog gives for log `log` and event `e`, or the exception raised decoding it. */
  function EventEntry(log: Log, e: AbiEntry, decode: Decoder): Result<Decoded> {
    match DecodedArgs(Partition(e.inputs), log, decode)
    case Err(err) => Err(err)
    case Ok(args) => Ok(Decoded(e.name, args, log))
  }

  /** No matching (filtered log, event) pair fails to decode. */
  predicate NoEventRaises(logs: seq<Log>, events: seq<AbiEntry>, hash: Hasher, decode: Decoder) {
    forall i, j :: 0 <= i < |logs| && 0 <= j < |events| && IsMatch(logs[i], events[j], hash) ==>
      EventEntry(logs[i], events[j], decode).Ok?
  }

  /**
   * parseLog with every expanded event compiled to its own parser: throws when the expansion
   * does, and otherwise matches the filtered logs against the compiled events.
   */
  function ParseLog(logs: seq<Log>, abi: AbiValue, filter: FilterCriteria, hash: Hasher, decode: Decoder)
    : Result<seq<Decoded>>
  {
    match Expand(abi)
    case Err(e) => Err(e)
    case Ok(events) => MatchAll(FilterLogs(logs, filter), CompileAll(events, hash), decode)
  }

  /**
   * Bridge from parsers to events: a compiled event matches and emits exactly as IsMatch and
   * EventEntry say of the event itself. It only restates the match at the event level.
   */
  lemma CompiledAgrees(log: Log, e: AbiEntry, hash: Hasher, decode: Decoder)
    ensures Matches(log, CompileEvent(e, hash)) <==> IsMatch(log, e, hash)
    ensures Emit(log, CompileEvent(e, hash), decode) == EventEntry(log, e, decode)
  {
  }

  /** An abi that cannot be expanded makes parseLog throw the TypeError before anything else. */
  lemma ParseLogRejectsBadAbi(logs: seq<Log>, abi: AbiValue, filter: FilterCriteria, hash: Hasher, decode: Decoder)
    requires !AllExpandable(TopLevel(abi))
    ensures ParseLog(logs, abi, filter, hash, decode) == Err(NotAList)
  {
  }

  /** Matching against compiled events succeeds exactly when no matching pair fails to decode. */
  lemma CompiledMatchSucceeds(fl: seq<Log>, events: seq<AbiEntry>, hash: Hasher, decode: Decoder)
    ensures MatchAll(fl, CompileAll(events, hash), decode).Ok? <==> NoEventRaises(fl, events, hash, decode)
  {
    var ps := CompileAll(events, hash);
    MatchAllSpec(fl, ps, decode);
    forall i, j | 0 <= i < |fl| && 0 <= j < |events|
      ensures Matches(fl[i], ps[j]) <==> IsMatch(fl[i], events[j], hash)
      ensures Emit(fl[i], ps[j], decode) == EventEntry(fl[i], events[j], decode)
    {
      CompiledAgrees(fl[i], events[j], hash, decode);
    }
  }

  /** Every log carrying an event's topic yields that event's entry for it. */
  lemma CompiledMatchComplete(fl: seq<Log>, events: seq<AbiEntry>, hash: Hasher, decode: Decoder)
    requires MatchAll(fl, CompileAll(events, hash), decode).Ok?
    ensures forall i, j :: 0 <= i < |fl| && 0 <= j < |events| && IsMatch(fl[i], events[j], hash) ==>
      exists k :: 0 <= k < |MatchAll(fl, CompileAll(events, hash), decode).value| &&
        EventEntry(fl[i], events[j], decode) == Ok(MatchAll(fl, CompileAll(events, hash), decode).value[k])
  {
    var ps := CompileAll(events, hash);
    var out := MatchAll(fl, ps, decode).value;
    var pairs := Pairs(fl, ps, |fl|);
    MatchAllSpec(fl, ps, decode);
    PairsComplete(fl, ps, |fl|);
    forall i, j | 0 <= i < |fl| && 0 <= j < |events| && IsMatch(fl[i], events[j], hash)
      ensures exists k :: 0 <= k < |out| && EventEntry(fl[i], events[j], decode) == Ok(out[k])
    {
      CompiledAgrees(fl[i], events[j], hash, decode);
      assert (i, j) in pairs;
      var k :| 0 <= k < |pairs| && pairs[k] == (i, j);
      assert Emit(fl[i], ps[j], decode) == Ok(out[k]);
    }
  }

  /** Every entry is the entry of a log carrying the topic of an event. */
  lemma CompiledMatchSound(fl: seq<Log>, events: seq<AbiEntry>, hash: Hasher, decode: Decoder)
    requires MatchAll(fl, CompileAll(events, hash), decode).Ok?
    ensures forall d :: d in MatchAll(fl, CompileAll(events, hash), decode).value ==>
      exists i, j :: 0 <= i < |fl| && 0 <= j < |events| &&
        IsMatch(fl[i], events[j], hash) && EventEntry(fl[i], events[j], decode) == Ok(d)
  {
    var ps := CompileAll(events, hash);
    var out := MatchAll(fl, ps, decode).value;
    var pairs := Pairs(fl, ps, |fl|);
    MatchAllSpec(fl, ps, decode);
    PairsSound(fl, ps, |fl|);
    forall d | d in out
      ensures exists i, j ::
        0 <= i < |fl| && 0 <= j < |events| &&
        IsMatch(fl[i], events[j], hash) && EventEntry(fl[i], events[j], decode) == Ok(d)
    {
      var k :| 0 <= k < |out| && out[k] == d;
      var i, j := pairs[k].0, pairs[k].1;
      assert Matches(fl[i], ps[j]) && Emit(fl[i], ps[j], decode) == Ok(d);
      CompiledAgrees(fl[i], events[j], hash, decode);
    }
  }

  /** Matching against compiled events raises only the decoder's own exception. */
  lemma CompiledMatchErrors(logs: seq<Log>, events: seq<AbiEntry>, hash: Hasher, decode: Decoder)
    ensures MatchAll(logs, CompileAll(events, hash), decode).Err? ==>
      MatchAll(logs, CompileAll(events, hash), decode).error.DecoderError?
  {
    var ps := CompileAll(events, hash);
    var r := MatchAll(logs, ps, decode);
    if r.Err? {
      MatchAllSpec(logs, ps, decode);
      var pairs := Pairs(logs, ps, |logs|);
      var k :| 0 <= k < |pairs| && pairs[k].0 < |logs| && pairs[k].1 < |ps| &&
        Emit(logs[pairs[k].0], ps[pairs[k].1], decode) == Err(r.error);
      assert ps[pairs[k].1] == CompileEvent(events[pairs[k].1], hash);
    }
  }

  /**
   * The exceptions parseLog can raise: the `thisAbi.filter` TypeError when the abi does not expand,
   * and otherwise only the decoder's own exception, passed through unchanged.
   */
  lemma ParseLogErrors(logs: seq<Log>, abi: AbiValue, filter: FilterCriteria, hash: Hasher, decode: Decoder)
    ensures ParseLog(logs, abi, filter, hash, decode).Err? && Expand(abi).Err? ==>
      ParseLog(logs, abi, filter, hash, decode).error == NotAList
    ensures ParseLog(logs, abi, filter, hash, decode).Err? && Expand(abi).Ok? ==>
      ParseLog(logs, abi, filter, hash, decode).error.DecoderError?
  {
    if Expand(abi).Ok? {
      CompiledMatchErrors(FilterLogs(logs, filter), Expand(abi).value, hash, decode);
    }
  }

  /**
   * The end-to-end property: for an abi that expands to `events`, parseLog succeeds exactly when
   * no matching (filtered log, event) pair raises while decoding; it then holds, for every
   * filtered log whose first topic is the hash of an event's signature, that event's entry for
   * that log, and nothing else: every entry is the entry of such a matching pair.
   */
  lemma ParseLogMatchesEveryEvent(logs: seq<Log>, abi: AbiValue, filter: FilterCriteria, hash: Hasher,
                                  decode: Decoder, events: seq<AbiEntry>)
    requires Expand(abi) == Ok(events)
    ensures ParseLog(logs, abi, filter, hash, decode).Ok? <==>
      NoEventRaises(FilterLogs(logs, filter), events, hash, decode)
    ensures ParseLog(logs, abi, filter, hash, decode).Ok? ==>
      forall i, j ::
        (0 <= i < |FilterLogs(logs, filter)| && 0 <= j < |events| &&
         IsMatch(FilterLogs(logs, filter)[i], events[j], hash)) ==>
        exists k :: 0 <= k < |ParseLog(logs, abi, filter, hash, decode).value| &&
          EventEntry(FilterLogs(logs, filter)[i], events[j], decode) == Ok(ParseLog(logs, abi, filter, hash, decode).value[k])
    ensures ParseLog(logs, abi, filter, hash, decode).Ok? ==>
      forall d :: d in ParseLog(logs, abi, filter, hash, decode).value ==>
        exists i, j :: 0 <= i < |FilterLogs(logs, filter)| && 0 <= j < |events| &&
          IsMatch(FilterLogs(logs, filter)[i], events[j], hash) &&
          EventEntry(FilterLogs(logs, filter)[i], events[j], decode) == Ok(d)
  {
    var fl := FilterLogs(logs, filter);
    assert ParseLog(logs, abi, filter, hash, decode) == MatchAll(fl, CompileAll(events, hash), decode);
    CompiledMatchSucceeds(fl, events, hash, decode);
    if ParseLog(logs, abi, filter, hash, decode).Ok? {
      CompiledMatchComplete(fl, events, hash, decode);
      CompiledMatchSound(fl, events, hash, decode);
    }
  }

  /** The property name a bracket access on an object key reads: every ABI object coerces alike. */
  function PropertyKey(e: AbiEntry): string {
    "[object Object]"
  }

  /**
   * One call of the `eventAbis.map` callback against the property bag `props`: a stored parser
   * under the entry's key makes it return the entry itself; otherwise it compiles the entry and
   * stores the parser under that key.
   */
  function CacheStep(props: map<string, Parser>, e: AbiEntry, hash: Hasher): (Parser, map<string, Parser>) {
    if PropertyKey(e) in props then (Raw(e), props)
    else
      var p := CompileEvent(e, hash);
      (p, props[PropertyKey(e) := p])
  }

  /** The whole `eventAbis.map` against `props`: the parsers and the property bag afterwards. */
  function CachedParsers(props: map<string, Parser>, events: seq<AbiEntry>, hash: Hasher)
    : (seq<Parser>, map<string, Parser>)
  {
    if events == [] then ([], props)
    else
      var (ps, after) := CachedParsers(props, events[..|events| - 1], hash);
      var (p, stored) := CacheStep(after, events[|events| - 1], hash);
      (ps + [p], stored)
  }

  /**
   * What the cache does as written: only the first event of the first call that finds the key
   * unset is compiled; every other event, in that call and in every later one, comes back as the
   * ABI object itself. The bag gains the first event's parser when the key was unset.
   */
  lemma {:induction false} CachedParsersAsWritten(props: map<string, Parser>, events: seq<AbiEntry>, hash: Hasher)
    ensures |CachedParsers(props, events, hash).0| == |events|
    ensures forall k :: 0 <= k < |events| ==>
      CachedParsers(props, events, hash).0[k] ==
        if k == 0 && "[object Object]" !in props then CompileEvent(events[0], hash) else Raw(events[k])
    ensures CachedParsers(props, events, hash).1 ==
      if events != [] && "[object Object]" !in props
      then props["[object Object]" := CompileEvent(events[0], hash)]
      else props
  {
    if events != [] {
      var init := events[..|events| - 1];
      CachedParsersAsWritten(props, init, hash);
      var (ps, after) := CachedParsers(props, init, hash);
      var (p, stored) := CacheStep(after, events[|events| - 1], hash);
      assert CachedParsers(props, events, hash) == (ps + [p], stored);
      assert forall k :: 0 <= k < |init| ==> init[k] == events[k];
      if init == [] {
        assert events[|events| - 1] == events[0];
      }
    }
  }

  /** parseLog as written, against the property bag `props`: the result and the bag afterwards. */
  function ParseLogWithCache(props: map<string, Parser>, logs: seq<Log>, abi: AbiValue, filter: FilterCriteria,
                             hash: Hasher, decode: Decoder): (Result<seq<Decoded>>, map<string, Parser>)
  {
    match Expand(abi)
    case Err(e) => (Err(e), props)
    case Ok(events) =>
      var (ps, after) := CachedParsers(props, events, hash);
      (MatchAll(FilterLogs(logs, filter), ps, decode), after)
  }

  /** A log that matches none of the first `n` parsers has an empty row. */
  lemma {:induction false} NoMatchEmptyRow(logs: seq<Log>, parsers: seq<Parser>, i: nat, n: nat)
    requires i < |logs| && n <= |parsers|
    requires forall j :: 0 <= j < n ==> !Matches(logs[i], parsers[j])
    ensures Row(logs, parsers, i, n) == []
  {
    if n > 0 {
      NoMatchEmptyRow(logs, parsers, i, n - 1);
    }
  }

  /** Without a matching pair there is no pair. */
  lemma {:induction false} NoMatchNoPairs(logs: seq<Log>, parsers: seq<Parser>, n: nat)
    requires n <= |logs|
    requires forall i, j :: 0 <= i < |logs| && 0 <= j < |parsers| ==> !Matches(logs[i], parsers[j])
    ensures Pairs(logs, parsers, n) == []
  {
    if n > 0 {
      assert Pairs(logs, parsers, n) == Pairs(logs, parsers, n - 1) + Row(logs, parsers, n - 1, |parsers|);
      NoMatchNoPairs(logs, parsers, n - 1);
      NoMatchEmptyRow(logs, parsers, n - 1, |parsers|);
    }
  }

  /** Raw ABI objects match only logs without topics, and then raise the parseArgs TypeError. */
  lemma RawParsersMatchOnlyTopicless(logs: seq<Log>, parsers: seq<Parser>, decode: Decoder)
    requires forall j :: 0 <= j < |parsers| ==> parsers[j].Raw?
    ensures (parsers == [] || forall i :: 0 <= i < |logs| ==> |logs[i].topics| > 0) ==>
      MatchAll(logs, parsers, decode) == Ok([])
    ensures parsers != [] && (exists i :: 0 <= i < |logs| && |logs[i].topics| == 0) ==>
      MatchAll(logs, parsers, decode) == Err(NotAFunction)
  {
    MatchAllSpec(logs, parsers, decode);
    var ps := Pairs(logs, parsers, |logs|);
    var r := MatchAll(logs, parsers, decode);
    if parsers == [] || forall i :: 0 <= i < |logs| ==> |logs[i].topics| > 0 {
      NoMatchNoPairs(logs, parsers, |logs|);
    } else {
      var i :| 0 <= i < |logs| && |logs[i].topics| == 0;
      assert Matches(logs[i], parsers[0]);
      if r.Err? {
        var k :| 0 <= k < |ps| && ps[k].0 < |logs| && ps[k].1 < |parsers| &&
          Emit(logs[ps[k].0], parsers[ps[k].1], decode) == Err(r.error);
      }
    }
  }

  /**
   * Once the key is set (by any earlier call), parseLog finds nothing in logs that all carry
   * topics, whatever events the abi holds, and leaves the bag as it was.
   */
  lemma WarmCacheFindsNothing(props: map<string, Parser>, logs: seq<Log>, abi: AbiValue, filter: FilterCriteria,
                              hash: Hasher, decode: Decoder)
    requires "[object Object]" in props && Expand(abi).Ok?
    requires forall i :: 0 <= i < |logs| ==> |logs[i].topics| > 0
    ensures ParseLogWithCache(props, logs, abi, filter, hash, decode) == (Ok([]), props)
  {
    var events := Expand(abi).value;
    CachedParsersAsWritten(props, events, hash);
    var fl := FilterLogs(logs, filter);
    forall i | 0 <= i < |fl| ensures |fl[i].topics| > 0 {
      if AddressActive(filter) {
        var m :| 0 <= m < |logs| && logs[m] == fl[i];
      }
    }
    RawParsersMatchOnlyTopicless(fl, CachedParsers(props, events, hash).0, decode);
  }

  /** With the key unset and a single event, the cache does no harm: parseLog gives ParseLog's answer. */
  lemma ColdCacheSingleEventAgrees(props: map<string, Parser>, logs: seq<Log>, abi: AbiValue, filter: FilterCriteria,
                                   hash: Hasher, decode: Decoder, e: AbiEntry)
    requires "[object Object]" !in props && Expand(abi) == Ok([e])
    ensures ParseLogWithCache(props, logs, abi, filter, hash, decode).0 == ParseLog(logs, abi, filter, hash, decode)
    ensures ParseLogWithCache(props, logs, abi, filter, hash, decode).1 == props["[object Object]" := CompileEvent(e, hash)]
  {
    CachedParsersAsWritten(props, [e], hash);
    assert CachedParsers(props, [e], hash).0 == CompileAll([e], hash);
  }

  /** An array holding two live events expands to those two events. */
  lemma ExpandTwoEvents(eA: AbiEntry, eB: AbiEntry)
    requires IsLiveEvent(Entry(eA)) && IsLiveEvent(Entry(eB))
    ensures Expand(Items([Entry(eA), Entry(eB)])) == Ok([eA, eB])
  {
    var top := [Entry(eA), Entry(eB)];
    assert top[..1] == [Entry(eA)];
    assert top[..1][..0] == [];
    assert Flatten(top[..1]) == [Entry(eA)];
    assert Flatten(top) == top;
    assert top[..1] == [Entry(eA)];
    assert LiveEvents(top[..1]) == [eA];
    assert LiveEvents(top) == [eA, eB];
    assert AllExpandable(top);
  }

  // A two-event counterexample: events A() and B() without inputs, the identity as hash, a
  // decoder that returns no values, and one log whose first topic is B's signature.
  const EventA := AbiEntry("event", "A", false, [])
  const EventB := AbiEntry("event", "B", false, [])
  const TwoEvents := Items([Entry(EventA), Entry(EventB)])
  const LogOfB := Log("0x01", 1, ["B()"], "0x")

  function SameString(s: string): string { s }

  function NoValues(types: seq<string>, data: string): Decoding { Values([]) }

  lemma UncachedReportsB()
    ensures ParseLog([LogOfB], TwoEvents, FilterCriteria(None), SameString, NoValues) ==
      Ok([Decoded("B", map[], LogOfB)])
  {
    ExpandTwoEvents(EventA, EventB);
    assert EventSignature(EventA) == "A()" && EventSignature(EventB) == "B()";
    assert DecodedArgs(Partition([]), LogOfB, NoValues) == Ok(map[]);
    var ps := CompileAll([EventA, EventB], SameString);
    assert ps == [Compiled("A", "A()", Partition([])), Compiled("B", "B()", Partition([]))];
    assert Emit(LogOfB, ps[1], NoValues) == Ok(Decoded("B", map[], LogOfB));
    assert MatchRow([LogOfB], ps, 0, 1, NoValues) == Ok([]);
    assert [] + [Decoded("B", map[], LogOfB)] == [Decoded("B", map[], LogOfB)];
    assert MatchRow([LogOfB], ps, 0, 2, NoValues) == Ok([Decoded("B", map[], LogOfB)]);
    assert MatchPrefix([LogOfB], ps, 1, NoValues) == Ok([] + [Decoded("B", map[], LogOfB)]);
    assert [] + [Decoded("B", map[], LogOfB)] == [Decoded("B", map[], LogOfB)];
  }

  lemma CachedReportsNothing()
    ensures ParseLogWithCache(map[], [LogOfB], TwoEvents, FilterCriteria(None), SameString, NoValues).0 == Ok([])
  {
    ExpandTwoEvents(EventA, EventB);
    assert EventSignature(EventA) == "A()";
    CachedParsersAsWritten(map[], [EventA, EventB], SameString);
    var cached := CachedParsers(map[], [EventA, EventB], SameString).0;
    var none: seq<Decoded> := [];
    assert cached == [CompileEvent(EventA, SameString), Raw(EventB)];
    assert MatchRow([LogOfB], cached, 0, 1, NoValues) == Ok([]);
    assert MatchRow([LogOfB], cached, 0, 2, NoValues) == Ok([]);
    assert MatchPrefix([LogOfB], cached, 1, NoValues) == Ok(none + none);
    assert none + none == none;
  }

  /**
   * On a first call with TwoEvents and LogOfB, ParseLog reports the B entry, but the cache
   * hands back the B object itself as its parser, so the call as written reports nothing.
   */
  lemma CachedParseLogDropsSecondEvent()
    ensures ParseLog([LogOfB], TwoEvents, FilterCriteria(None), SameString, NoValues) ==
      Ok([Decoded("B", map[], LogOfB)])
    ensures ParseLogWithCache(map[], [LogOfB], TwoEvents, FilterCriteria(None), SameString, NoValues).0 == Ok([])
  {
    UncachedReportsB();
    CachedReportsNothing();
  }

  /** The module-level `cachedParsers` object, seen through bracket property access. */
  class ParserCache {
    var props: map<string, Parser>

    /** `new WeakMap()`: no property under the coerced key yet. */
    constructor()
      ensures props == map[]
    {
      props := map[];
    }

    /** The `eventAbis.map` callback for one entry: lines 73-89 of parseLog. */
    method Lookup(e: AbiEntry, hash: Hasher) returns (p: Parser)
      modifies this
      ensures (p, props) == CacheStep(old(props), e, hash)
    {
      if PropertyKey(e) in props {
        return Raw(e);
      }
      var sig := hash(EventSignature(e));
      var parseArgs := CreateArgsParser(e.inputs);
      props := props[PropertyKey(e) := Compiled(e.name, sig, parseArgs)];
      p := props[PropertyKey(e)];
    }
  }

  /**
   * parseLog as written: expand the abi, map every event through the cache, filter the logs by
   * address and run the two nested reduces.
   */
  method ParseLogCached(cache: ParserCache, logs: seq<Log>, abi: AbiValue, filter: FilterCriteria,
                        hash: Hasher, decode: Decoder) returns (r: Result<seq<Decoded>>)
    modifies cache
    ensures (r, cache.props) == ParseLogWithCache(old(cache.props), logs, abi, filter, hash, decode)
  {
    var expanded := ExpandAbi(abi);
    if expanded.Err? {
      return Err(expanded.error);
    }
    var events := expanded.value;
    var parsers: seq<Parser> := [];
    var i := 0;
    while i < |events|
      invariant 0 <= i <= |events|
      invariant (parsers, cache.props) == CachedParsers(old(cache.props), events[..i], hash)
    {
      assert events[..i + 1][..i] == events[..i];
      var p := cache.Lookup(events[i], hash);
      parsers := parsers + [p];
      i := i + 1;
    }
    assert events[..i] == events;
    var filteredLogs := FilterLogs(logs, filter);
    r := MatchLogs(filteredLogs, parsers, decode);
  }
}
