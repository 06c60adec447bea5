/** Compiled parsers and the nested reduce that matches filtered logs against them. */
module Matching {
  import opened Values
  import opened Logs
  import opened Abi
  import opened ArgsParsing

  /**
   * What the `parsers` array can hold: a compiled `{ name, sig, parseArgs }`, or (on a hit in
   * the module-level cache) the ABI object itself, which has neither `sig` nor `parseArgs`.
   */
  datatype Parser = Compiled(name: string, sig: string, args: ArgsParser) | Raw(entry: AbiEntry)

  /** Compiling one event: its name, the hash of its signature string, and its args parser. */
  function CompileEvent(e: AbiEntry, hash: Hasher): (p: Parser)
    ensures p.Compiled? && p.name == e.name
  {
    Compiled(e.name, hash(EventSignature(e)), Partition(e.inputs))
  }

  function ParserName(p: Parser): string {
    match p
    case Compiled(name, _, _) => name
    case Raw(entry) => entry.name
  }

  /**
   * `log.topics[0] === sig`. A log without topics reads undefined, which equals no string and
   * equals the missing `sig` of a raw ABI object.
   */
  predicate Matches(log: Log, p: Parser) {
    match p
    case Compiled(_, sig, _) => |log.topics| > 0 && log.topics[0] == sig
    case Raw(_) => |log.topics| == 0
  }

  /** One output entry `{ name, args, log }`. */
  datatype Decoded = Decoded(name: string, args: map<string, Value>, log: Log)

  /** The entry a matching (log, parser) pair pushes, or the exception raised while building it. */
  function Emit(log: Log, p: Parser, decode: Decoder): (r: Result<Decoded>)
    ensures r.Ok? ==> r.value.name == ParserName(p) && r.value.log == log
  {
    match p
    case Compiled(name, _, args) =>
      (match DecodedArgs(args, log, decode)
       case Err(e) => Err(e)
       case Ok(a) => Ok(Decoded(name, a, log)))
    case Raw(_) => Err(NotAFunction)
  }

  /** The inner reduce body for one matching pair. */
  method EmitMatch(log: Log, p: Parser, decode: Decoder) returns (r: Result<Decoded>)
    ensures r == Emit(log, p, decode)
  {
    match p
    case Compiled(name, _, args) =>
      var a := ParseArgs(args, log, decode);
      if a.Err? {
        return Err(a.error);
      }
      r := Ok(Decoded(name, a.value, log));
    case Raw(_) =>
      r := Err(NotAFunction);
  }

  /** The matching parsers of log `i` among the first `n`, as index pairs in parser order. */
  function Row(logs: seq<Log>, parsers: seq<Parser>, i: nat, n: nat): seq<(nat, nat)>
    requires i < |logs| && n <= |parsers|
  {
    if n == 0 then []
    else Row(logs, parsers, i, n - 1) + (if Matches(logs[i], parsers[n - 1]) then [(i, n - 1)] else [])
  }

  /** All matching (log, parser) index pairs among the first `n` logs, log by log. */
  function Pairs(logs: seq<Log>, parsers: seq<Parser>, n: nat): seq<(nat, nat)>
    requires n <= |logs|
  {
    if n == 0 then [] else Pairs(logs, parsers, n - 1) + Row(logs, parsers, n - 1, |parsers|)
  }

  /** Every pair of `ps` is a matching (log, parser) pair. */
  predicate AllMatch(logs: seq<Log>, parsers: seq<Parser>, ps: seq<(nat, nat)>) {
    forall k :: 0 <= k < |ps| ==>
      ps[k].0 < |logs| && ps[k].1 < |parsers| && Matches(logs[ps[k].0], parsers[ps[k].1])
  }

  /** Row holds only matching parsers of log `i` among the first `n`, in increasing order. */
  lemma {:induction false} RowSound(logs: seq<Log>, parsers: seq<Parser>, i: nat, n: nat)
    requires i < |logs| && n <= |parsers|
    ensures AllMatch(logs, parsers, Row(logs, parsers, i, n))
    ensures forall k :: 0 <= k < |Row(logs, parsers, i, n)| ==>
      Row(logs, parsers, i, n)[k].0 == i && Row(logs, parsers, i, n)[k].1 < n
    ensures forall a, b :: 0 <= a < b < |Row(logs, parsers, i, n)| ==>
      Row(logs, parsers, i, n)[a].1 < Row(logs, parsers, i, n)[b].1
  {
    if n > 0 {
      RowSound(logs, parsers, i, n - 1);
      var init := Row(logs, parsers, i, n - 1);
      if Matches(logs[i], parsers[n - 1]) {
        var r := init + [(i, n - 1)];
        assert Row(logs, parsers, i, n) == r;
        assert forall k :: 0 <= k < |init| ==> r[k] == init[k];
      } else {
        assert Row(logs, parsers, i, n) == init;
      }
    }
  }

  /** Row holds every matching parser of log `i` among the first `n`. */
  lemma {:induction false} RowComplete(logs: seq<Log>, parsers: seq<Parser>, i: nat, n: nat)
    requires i < |logs| && n <= |parsers|
    ensures forall j :: 0 <= j < n && Matches(logs[i], parsers[j]) ==> (i, j) in Row(logs, parsers, i, n)
  {
    if n > 0 {
      RowComplete(logs, parsers, i, n - 1);
      var init := Row(logs, parsers, i, n - 1);
      if Matches(logs[i], parsers[n - 1]) {
        assert Row(logs, parsers, i, n) == init + [(i, n - 1)];
      } else {
        assert Row(logs, parsers, i, n) == init;
      }
    }
  }

  /** Every pair is about one of the first `n` logs. */
  predicate LogsBelow(ps: seq<(nat, nat)>, n: nat) {
    forall k :: 0 <= k < |ps| ==> ps[k].0 < n
  }

  lemma PairsAppend(logs: seq<Log>, parsers: seq<Parser>, a: seq<(nat, nat)>, b: seq<(nat, nat)>, n: nat)
    requires AllMatch(logs, parsers, a) && AllMatch(logs, parsers, b)
    requires LogsBelow(a, n) && LogsBelow(b, n)
    ensures AllMatch(logs, parsers, a + b) && LogsBelow(a + b, n)
  {
    assert forall k :: 0 <= k < |a + b| ==> (a + b)[k] == if k < |a| then a[k] else b[k - |a|];
  }

  /** Every pair is a matching pair among the first `n` logs. */
  lemma {:induction false} PairsSound(logs: seq<Log>, parsers: seq<Parser>, n: nat)
    requires n <= |logs|
    ensures AllMatch(logs, parsers, Pairs(logs, parsers, n)) && LogsBelow(Pairs(logs, parsers, n), n)
  {
    if n > 0 {
      PairsSound(logs, parsers, n - 1);
      RowSound(logs, parsers, n - 1, |parsers|);
      var init, row := Pairs(logs, parsers, n - 1), Row(logs, parsers, n - 1, |parsers|);
      assert LogsBelow(init, n);
      assert LogsBelow(row, n);
      PairsAppend(logs, parsers, init, row, n);
    }
  }

  /** Every matching pair among the first `n` logs is in `ps`. */
  predicate Covers(logs: seq<Log>, parsers: seq<Parser>, ps: seq<(nat, nat)>, n: nat)
    requires n <= |logs|
  {
    forall i, j :: 0 <= i < n && 0 <= j < |parsers| && Matches(logs[i], parsers[j]) ==> (i, j) in ps
  }

  lemma CoversStep(logs: seq<Log>, parsers: seq<Parser>, init: seq<(nat, nat)>, row: seq<(nat, nat)>, n: nat)
    requires 0 < n <= |logs|
    requires Covers(logs, parsers, init, n - 1)
    requires forall j :: 0 <= j < |parsers| && Matches(logs[n - 1], parsers[j]) ==> (n - 1, j) in row
    ensures Covers(logs, parsers, init + row, n)
  {
    forall i, j | 0 <= i < n && 0 <= j < |parsers| && Matches(logs[i], parsers[j])
      ensures (i, j) in init + row
    {
      if i < n - 1 {
        assert (i, j) in init;
      } else {
        assert (i, j) in row;
      }
    }
  }

  /** Every matching pair among the first `n` logs is a pair. */
  lemma {:induction false} PairsComplete(logs: seq<Log>, parsers: seq<Parser>, n: nat)
    requires n <= |logs|
    ensures Covers(logs, parsers, Pairs(logs, parsers, n), n)
  {
    if n > 0 {
      PairsComplete(logs, parsers, n - 1);
      RowComplete(logs, parsers, n - 1, |parsers|);
      assert Pairs(logs, parsers, n) == Pairs(logs, parsers, n - 1) + Row(logs, parsers, n - 1, |parsers|);
      CoversStep(logs, parsers, Pairs(logs, parsers, n - 1), Row(logs, parsers, n - 1, |parsers|), n);
    }
  }

  /** The pairs are strictly increasing: by log first, by parser second. */
  predicate Increasing(ps: seq<(nat, nat)>) {
    forall a, b :: 0 <= a < b < |ps| ==> ps[a].0 < ps[b].0 || (ps[a].0 == ps[b].0 && ps[a].1 < ps[b].1)
  }

  lemma {:induction false} PairsSorted(logs: seq<Log>, parsers: seq<Parser>, n: nat)
    requires n <= |logs|
    ensures Increasing(Pairs(logs, parsers, n))
  {
    if n > 0 {
      PairsSorted(logs, parsers, n - 1);
      PairsSound(logs, parsers, n - 1);
      RowSound(logs, parsers, n - 1, |parsers|);
      var init, row := Pairs(logs, parsers, n - 1), Row(logs, parsers, n - 1, |parsers|);
      var r := init + row;
      assert Pairs(logs, parsers, n) == r;
      forall a, b | 0 <= a < b < |r| ensures r[a].0 < r[b].0 || (r[a].0 == r[b].0 && r[a].1 < r[b].1) {
        if b < |init| {
          assert r[a] == init[a] && r[b] == init[b];
        } else if a < |init| {
          assert r[a] == init[a] && r[b] == row[b - |init|];
        } else {
          assert r[a] == row[a - |init|] && r[b] == row[b - |init|];
        }
      }
    }
  }

  /** The inner reduce for log `i` over the first `n` parsers: the entries of its matches, or the first exception. */
  function MatchRow(logs: seq<Log>, parsers: seq<Parser>, i: nat, n: nat, decode: Decoder): Result<seq<Decoded>>
    requires i < |logs| && n <= |parsers|
  {
    if n == 0 then Ok([])
    else
      match MatchRow(logs, parsers, i, n - 1, decode)
      case Err(e) => Err(e)
      case Ok(done) =>
        if !Matches(logs[i], parsers[n - 1]) then Ok(done)
        else
          match Emit(logs[i], parsers[n - 1], decode)
          case Err(e) => Err(e)
          case Ok(d) => Ok(done + [d])
  }

  /** The outer reduce over the first `n` logs. */
  function MatchPrefix(logs: seq<Log>, parsers: seq<Parser>, n: nat, decode: Decoder): Result<seq<Decoded>>
    requires n <= |logs|
  {
    if n == 0 then Ok([])
    else
      match MatchPrefix(logs, parsers, n - 1, decode)
      case Err(e) => Err(e)
      case Ok(done) =>
        match MatchRow(logs, parsers, n - 1, |parsers|, decode)
        case Err(e) => Err(e)
        case Ok(row) => Ok(done + row)
  }

  /** parseLog's result for the filtered logs and the parsers. */
  function MatchAll(logs: seq<Log>, parsers: seq<Parser>, decode: Decoder): Result<seq<Decoded>> {
    MatchPrefix(logs, parsers, |logs|, decode)
  }

  /** `out` holds, in order, the entry of each pair of `ps`. */
  predicate EmitsAll(logs: seq<Log>, parsers: seq<Parser>, ps: seq<(nat, nat)>, out: seq<Decoded>, decode: Decoder) {
    |out| == |ps| &&
    forall k :: 0 <= k < |ps| ==>
      ps[k].0 < |logs| && ps[k].1 < |parsers| && Emit(logs[ps[k].0], parsers[ps[k].1], decode) == Ok(out[k])
  }

  /** Some pair of `ps` raises `e`, and every pair before it succeeds. */
  predicate RaisesFirst(logs: seq<Log>, parsers: seq<Parser>, ps: seq<(nat, nat)>, e: Error, decode: Decoder) {
    exists k :: 0 <= k < |ps| && ps[k].0 < |logs| && ps[k].1 < |parsers| &&
      Emit(logs[ps[k].0], parsers[ps[k].1], decode) == Err(e) &&
      forall m :: 0 <= m < k ==>
        ps[m].0 < |logs| && ps[m].1 < |parsers| && Emit(logs[ps[m].0], parsers[ps[m].1], decode).Ok?
  }

  lemma EmitsAllAppend(logs: seq<Log>, parsers: seq<Parser>, a: seq<(nat, nat)>, x: seq<Decoded>,
                       b: seq<(nat, nat)>, y: seq<Decoded>, decode: Decoder)
    requires EmitsAll(logs, parsers, a, x, decode) && EmitsAll(logs, parsers, b, y, decode)
    ensures EmitsAll(logs, parsers, a + b, x + y, decode)
  {
    var ab, xy := a + b, x + y;
    forall k | 0 <= k < |ab|
      ensures ab[k].0 < |logs| && ab[k].1 < |parsers| && Emit(logs[ab[k].0], parsers[ab[k].1], decode) == Ok(xy[k])
    {
      if k < |a| {
        assert ab[k] == a[k] && xy[k] == x[k];
      } else {
        assert ab[k] == b[k - |a|] && xy[k] == y[k - |a|];
      }
    }
  }

  lemma RaisesFirstInPrefix(logs: seq<Log>, parsers: seq<Parser>, a: seq<(nat, nat)>, b: seq<(nat, nat)>,
                            e: Error, decode: Decoder)
    requires RaisesFirst(logs, parsers, a, e, decode)
    ensures RaisesFirst(logs, parsers, a + b, e, decode)
  {
    var k :| 0 <= k < |a| && a[k].0 < |logs| && a[k].1 < |parsers| &&
      Emit(logs[a[k].0], parsers[a[k].1], decode) == Err(e) &&
      forall m :: 0 <= m < k ==>
        a[m].0 < |logs| && a[m].1 < |parsers| && Emit(logs[a[m].0], parsers[a[m].1], decode).Ok?;
    assert (a + b)[k] == a[k];
    assert forall m :: 0 <= m < k ==> (a + b)[m] == a[m];
  }

  lemma RaisesFirstAfter(logs: seq<Log>, parsers: seq<Parser>, a: seq<(nat, nat)>, x: seq<Decoded>,
                         b: seq<(nat, nat)>, e: Error, decode: Decoder)
    requires EmitsAll(logs, parsers, a, x, decode) && RaisesFirst(logs, parsers, b, e, decode)
    ensures RaisesFirst(logs, parsers, a + b, e, decode)
  {
    var k :| 0 <= k < |b| && b[k].0 < |logs| && b[k].1 < |parsers| &&
      Emit(logs[b[k].0], parsers[b[k].1], decode) == Err(e) &&
      forall m :: 0 <= m < k ==>
        b[m].0 < |logs| && b[m].1 < |parsers| && Emit(logs[b[m].0], parsers[b[m].1], decode).Ok?;
    var ab := a + b;
    assert ab[|a| + k] == b[k];
    forall m | 0 <= m < |a| + k
      ensures ab[m].0 < |logs| && ab[m].1 < |parsers| && Emit(logs[ab[m].0], parsers[ab[m].1], decode).Ok?
    {
      if m < |a| {
        assert ab[m] == a[m];
      } else {
        assert ab[m] == b[m - |a|];
      }
    }
  }

  /** The inner reduce gives the entries of Row in order, or the exception of its first raising pair. */
  lemma {:induction false} MatchRowSpec(logs: seq<Log>, parsers: seq<Parser>, i: nat, n: nat, decode: Decoder)
    requires i < |logs| && n <= |parsers|
    ensures MatchRow(logs, parsers, i, n, decode).Ok? ==>
      EmitsAll(logs, parsers, Row(logs, parsers, i, n), MatchRow(logs, parsers, i, n, decode).value, decode)
    ensures MatchRow(logs, parsers, i, n, decode).Err? ==>
      RaisesFirst(logs, parsers, Row(logs, parsers, i, n), MatchRow(logs, parsers, i, n, decode).error, decode)
  {
    if n > 0 {
      MatchRowSpec(logs, parsers, i, n - 1, decode);
      var init := Row(logs, parsers, i, n - 1);
      var last: seq<(nat, nat)> := if Matches(logs[i], parsers[n - 1]) then [(i, n - 1)] else [];
      assert Row(logs, parsers, i, n) == init + last;
      var prev := MatchRow(logs, parsers, i, n - 1, decode);
      if prev.Err? {
        RaisesFirstInPrefix(logs, parsers, init, last, prev.error, decode);
      } else if !Matches(logs[i], parsers[n - 1]) {
        assert init + last == init;
      } else {
        var r := Emit(logs[i], parsers[n - 1], decode);
        if r.Err? {
          assert RaisesFirst(logs, parsers, last, r.error, decode) by {
            assert last[0] == (i, n - 1);
          }
          RaisesFirstAfter(logs, parsers, init, prev.value, last, r.error, decode);
        } else {
          assert EmitsAll(logs, parsers, last, [r.value], decode);
          EmitsAllAppend(logs, parsers, init, prev.value, last, [r.value], decode);
        }
      }
    }
  }

  /** The outer reduce gives the entries of Pairs in order, or the exception of its first raising pair. */
  lemma {:induction false} MatchPrefixSpec(logs: seq<Log>, parsers: seq<Parser>, n: nat, decode: Decoder)
    requires n <= |logs|
    ensures MatchPrefix(logs, parsers, n, decode).Ok? ==>
      EmitsAll(logs, parsers, Pairs(logs, parsers, n), MatchPrefix(logs, parsers, n, decode).value, decode)
    ensures MatchPrefix(logs, parsers, n, decode).Err? ==>
      RaisesFirst(logs, parsers, Pairs(logs, parsers, n), MatchPrefix(logs, parsers, n, decode).error, decode)
  {
    if n > 0 {
      MatchPrefixSpec(logs, parsers, n - 1, decode);
      MatchRowSpec(logs, parsers, n - 1, |parsers|, decode);
      var init, row := Pairs(logs, parsers, n - 1), Row(logs, parsers, n - 1, |parsers|);
      assert Pairs(logs, parsers, n) == init + row;
      var prev := MatchPrefix(logs, parsers, n - 1, decode);
      var cur := MatchRow(logs, parsers, n - 1, |parsers|, decode);
      if prev.Err? {
        RaisesFirstInPrefix(logs, parsers, init, row, prev.error, decode);
      } else if cur.Err? {
        RaisesFirstAfter(logs, parsers, init, prev.value, row, cur.error, decode);
      } else {
        EmitsAllAppend(logs, parsers, init, prev.value, row, cur.value, decode);
      }
    }
  }

  /** No matching (log, parser) pair raises. */
  predicate NoMatchRaises(logs: seq<Log>, parsers: seq<Parser>, decode: Decoder) {
    forall i, j :: 0 <= i < |logs| && 0 <= j < |parsers| && Matches(logs[i], parsers[j]) ==>
      Emit(logs[i], parsers[j], decode).Ok?
  }

  /**
   * The match succeeds exactly when no matching pair raises; it then holds the entry of each
   * matching pair, in log-then-parser order (the pairs are those of Pairs, which PairsSound,
   * PairsComplete and PairsSorted characterise), and otherwise the exception of the first
   * matching pair, in that order, that raises.
   */
  lemma MatchAllSpec(logs: seq<Log>, parsers: seq<Parser>, decode: Decoder)
    ensures MatchAll(logs, parsers, decode).Ok? <==> NoMatchRaises(logs, parsers, decode)
    ensures MatchAll(logs, parsers, decode).Ok? ==>
      EmitsAll(logs, parsers, Pairs(logs, parsers, |logs|), MatchAll(logs, parsers, decode).value, decode)
    ensures MatchAll(logs, parsers, decode).Err? ==>
      RaisesFirst(logs, parsers, Pairs(logs, parsers, |logs|), MatchAll(logs, parsers, decode).error, decode)
  {
    var ps := Pairs(logs, parsers, |logs|);
    var r := MatchAll(logs, parsers, decode);
    MatchPrefixSpec(logs, parsers, |logs|, decode);
    if r.Ok? {
      PairsComplete(logs, parsers, |logs|);
      forall i, j | 0 <= i < |logs| && 0 <= j < |parsers| && Matches(logs[i], parsers[j])
        ensures Emit(logs[i], parsers[j], decode).Ok?
      {
        assert (i, j) in ps;
        var k :| 0 <= k < |ps| && ps[k] == (i, j);
        assert Emit(logs[ps[k].0], parsers[ps[k].1], decode) == Ok(r.value[k]);
      }
    } else {
      PairsSound(logs, parsers, |logs|);
      var k :| 0 <= k < |ps| && ps[k].0 < |logs| && ps[k].1 < |parsers| &&
        Emit(logs[ps[k].0], parsers[ps[k].1], decode) == Err(r.error);
      assert Matches(logs[ps[k].0], parsers[ps[k].1]);
    }
  }

  /** Once the inner reduce has raised, later parsers do not change its result. */
  lemma {:induction false} RowErrPropagates(logs: seq<Log>, parsers: seq<Parser>, i: nat, j: nat, n: nat, decode: Decoder)
    requires i < |logs| && j <= n <= |parsers|
    requires MatchRow(logs, parsers, i, j, decode).Err?
    ensures MatchRow(logs, parsers, i, n, decode) == MatchRow(logs, parsers, i, j, decode)
    decreases n
  {
    if n > j {
      RowErrPropagates(logs, parsers, i, j, n - 1, decode);
    }
  }

  /** Once the outer reduce has raised, later logs do not change its result. */
  lemma {:induction false} PrefixErrPropagates(logs: seq<Log>, parsers: seq<Parser>, m: nat, n: nat, decode: Decoder)
    requires m <= n <= |logs|
    requires MatchPrefix(logs, parsers, m, decode).Err?
    ensures MatchPrefix(logs, parsers, n, decode) == MatchPrefix(logs, parsers, m, decode)
    decreases n
  {
    if n > m {
      PrefixErrPropagates(logs, parsers, m, n - 1, decode);
    }
  }

  /** An exception in the inner reduce for log `i` is the result of the whole match. */
  lemma RaiseEndsMatch(logs: seq<Log>, parsers: seq<Parser>, i: nat, j: nat, decode: Decoder)
    requires i < |logs| && j <= |parsers|
    requires MatchPrefix(logs, parsers, i, decode).Ok?
    requires MatchRow(logs, parsers, i, j, decode).Err?
    ensures MatchAll(logs, parsers, decode) == MatchRow(logs, parsers, i, j, decode)
  {
    RowErrPropagates(logs, parsers, i, j, |parsers|, decode);
    assert MatchPrefix(logs, parsers, i + 1, decode) == MatchRow(logs, parsers, i, j, decode);
    PrefixErrPropagates(logs, parsers, i + 1, |logs|, decode);
  }

  /**
   * The two nested reduces of parseLog: for each filtered log in order, for each parser in
   * order, push the entry of every matching parser; the first exception ends the call.
   */
  method MatchLogs(logs: seq<Log>, parsers: seq<Parser>, decode: Decoder) returns (r: Result<seq<Decoded>>)
    ensures r == MatchAll(logs, parsers, decode)
  {
    var retSoFar: seq<Decoded> := [];
    var i := 0;
    while i < |logs|
      invariant 0 <= i <= |logs|
      invariant MatchPrefix(logs, parsers, i, decode) == Ok(retSoFar)
    {
      var log := logs[i];
      var matches: seq<Decoded> := [];
      var j := 0;
      while j < |parsers|
        invariant 0 <= j <= |parsers|
        invariant MatchRow(logs, parsers, i, j, decode) == Ok(matches)
      {
        if Matches(log, parsers[j]) {
          var entry := EmitMatch(log, parsers[j], decode);
          if entry.Err? {
            RaiseEndsMatch(logs, parsers, i, j + 1, decode);
            return Err(entry.error);
          }
          matches := matches + [entry.value];
        }
        j := j + 1;
      }
      retSoFar := retSoFar + matches;
      i := i + 1;
    }
    r := Ok(retSoFar);
  }
}
