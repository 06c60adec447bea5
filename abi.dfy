/** ABI entries, the expansion of parseLog's `abi` argument, and event signatures. */
module Abi {
  import opened Values
  import opened Seqs

  /** One declared input: `{ name, type, indexed }` (`type` is a Dafny keyword, hence typeTag; a missing `indexed` is false). */
  datatype Param = Param(name: string, typeTag: string, indexed: bool)

  /** One ABI object: `{ type, name, anonymous, inputs }` (a missing `anonymous` is false). */
  datatype AbiEntry = AbiEntry(typeTag: string, name: string, anonymous: bool, inputs: seq<Param>)

  /** What the `abi` argument and its elements can be: one ABI object or an array of them. */
  datatype AbiValue = Entry(entry: AbiEntry) | Items(items: seq<AbiValue>)

  /** `thisAbi.type === 'event' && !thisAbi.anonymous` (an array has no `type`). */
  predicate IsLiveEvent(v: AbiValue) {
    v.Entry? && v.entry.typeTag == "event" && !v.entry.anonymous
  }

  /** `if (!Array.isArray(abi)) abi = [ abi ]`. */
  function TopLevel(abi: AbiValue): seq<AbiValue> {
    if abi.Items? then abi.items else [abi]
  }

  /** What one top-level element contributes before filtering: itself, or its elements. */
  function Splice(v: AbiValue): seq<AbiValue> {
    if v.Items? then v.items else [v]
  }

  /** Every top-level array spliced in place. */
  function Flatten(vs: seq<AbiValue>): seq<AbiValue> {
    if vs == [] then [] else Flatten(vs[..|vs| - 1]) + Splice(vs[|vs| - 1])
  }

  lemma {:induction false} FlattenAppend(a: seq<AbiValue>, b: seq<AbiValue>)
    ensures Flatten(a + b) == Flatten(a) + Flatten(b)
  {
    if b == [] {
      assert a + b == a;
    } else {
      var ab, binit, last := a + b, b[..|b| - 1], b[|b| - 1];
      assert ab[..|ab| - 1] == a + binit;
      assert ab[|ab| - 1] == last;
      FlattenAppend(a, binit);
      assert Flatten(ab) == (Flatten(a) + Flatten(binit)) + Splice(last);
      assert Flatten(b) == Flatten(binit) + Splice(last);
      assert (Flatten(a) + Flatten(binit)) + Splice(last) == Flatten(a) + (Flatten(binit) + Splice(last));
    }
  }

  /** Flatten keeps every top-level entry and every element of every top-level array. */
  lemma {:induction false} FlattenMembers(vs: seq<AbiValue>)
    ensures forall k :: 0 <= k < |vs| && vs[k].Entry? ==> vs[k] in Flatten(vs)
    ensures forall k, m :: 0 <= k < |vs| && vs[k].Items? && 0 <= m < |vs[k].items| ==>
      vs[k].items[m] in Flatten(vs)
  {
    if vs != [] {
      var init, last := vs[..|vs| - 1], vs[|vs| - 1];
      FlattenMembers(init);
      var f := Flatten(vs);
      assert f == Flatten(init) + Splice(last);
      forall k | 0 <= k < |vs| && vs[k].Entry? ensures vs[k] in f {
        if k < |vs| - 1 {
          assert vs[k] == init[k];
        } else {
          assert Splice(last) == [last];
        }
      }
      forall k, m | 0 <= k < |vs| && vs[k].Items? && 0 <= m < |vs[k].items| ensures vs[k].items[m] in f {
        if k < |vs| - 1 {
          assert vs[k] == init[k];
        } else {
          assert Splice(last) == last.items;
        }
      }
    }
  }

  /** The live events of `vs`, in order: `vs.filter(isLiveEvent)`. */
  function LiveEvents(vs: seq<AbiValue>): seq<AbiEntry> {
    if vs == [] then []
    else
      var last := vs[|vs| - 1];
      LiveEvents(vs[..|vs| - 1]) + (if IsLiveEvent(last) then [last.entry] else [])
  }

  /** Everything LiveEvents keeps is a live event of `vs`. */
  lemma {:induction false} LiveEventsAreLive(vs: seq<AbiValue>)
    ensures forall k :: 0 <= k < |LiveEvents(vs)| ==>
      Entry(LiveEvents(vs)[k]) in vs && IsLiveEvent(Entry(LiveEvents(vs)[k]))
  {
    if vs != [] {
      var init, last := vs[..|vs| - 1], vs[|vs| - 1];
      LiveEventsAreLive(init);
      var r, ri := LiveEvents(vs), LiveEvents(init);
      assert r == ri + (if IsLiveEvent(last) then [last.entry] else []);
      forall k | 0 <= k < |r| ensures Entry(r[k]) in vs && IsLiveEvent(Entry(r[k])) {
        if k < |ri| {
          assert r[k] == ri[k];
          var m :| 0 <= m < |init| && init[m] == Entry(ri[k]);
          assert vs[m] == init[m];
        } else {
          assert Entry(r[k]) == last;
        }
      }
    }
  }

  lemma {:induction false} LiveEventsKeepAll(vs: seq<AbiValue>)
    ensures forall k :: 0 <= k < |vs| && IsLiveEvent(vs[k]) ==> vs[k].entry in LiveEvents(vs)
  {
    if vs != [] {
      var init := vs[..|vs| - 1];
      LiveEventsKeepAll(init);
      forall k | 0 <= k < |vs| - 1 ensures vs[k] == init[k] { }
    }
  }

  lemma {:induction false} LiveEventsAppend(a: seq<AbiValue>, b: seq<AbiValue>)
    ensures LiveEvents(a + b) == LiveEvents(a) + LiveEvents(b)
  {
    if b == [] {
      assert a + b == a;
    } else {
      var ab := a + b;
      assert ab[..|ab| - 1] == a + b[..|b| - 1];
      assert ab[|ab| - 1] == b[|b| - 1];
      LiveEventsAppend(a, b[..|b| - 1]);
    }
  }

  /** A top-level element the reduce can handle: a live event, or an array to filter. */
  predicate Expandable(v: AbiValue) {
    IsLiveEvent(v) || v.Items?
  }

  predicate AllExpandable(vs: seq<AbiValue>) {
    forall k :: 0 <= k < |vs| ==> Expandable(vs[k])
  }

  lemma AllExpandableStep(vs: seq<AbiValue>, i: nat)
    requires i < |vs| && AllExpandable(vs[..i])
    ensures AllExpandable(vs[..i + 1]) <==> Expandable(vs[i])
  {
    assert vs[..i + 1][i] == vs[i];
    forall k | 0 <= k < i ensures vs[..i + 1][k] == vs[..i][k] { }
  }

  /**
   * The event list parseLog compiles: Ok with the live events of the spliced top level when
   * every top-level element is a live event or an array, the TypeError otherwise.
   */
  function Expand(abi: AbiValue): (r: Result<seq<AbiEntry>>)
    ensures r.Err? ==> r.error == NotAList
    ensures r.Ok? <==> AllExpandable(TopLevel(abi))
    ensures abi.Entry? ==> r == if IsLiveEvent(abi) then Ok([abi.entry]) else Err(NotAList)
  {
    var top := TopLevel(abi);
    if AllExpandable(top) then
      assert abi.Entry? ==> Flatten(top) == Flatten([]) + Splice(abi) == [abi];
      assert abi.Entry? ==> [abi][..0] == [];
      assert abi.Entry? ==> LiveEvents(Flatten(top)) == (if IsLiveEvent(abi) then [abi.entry] else []);
      Ok(LiveEvents(Flatten(top)))
    else Err(NotAList)
  }

  lemma FlattenSingle(v: AbiValue)
    ensures Flatten([v]) == Splice(v)
  {
    assert [v][..0] == [];
  }

  lemma LiveEventsSingle(v: AbiValue)
    ensures LiveEvents([v]) == if IsLiveEvent(v) then [v.entry] else []
  {
    assert [v][..0] == [];
  }

  /** The live events of the first i + 1 elements, spliced: those of the first i, then those of element i. */
  lemma LiveEventsSnoc(top: seq<AbiValue>, i: nat)
    requires i < |top|
    ensures LiveEvents(Flatten(top[..i + 1])) == LiveEvents(Flatten(top[..i])) + LiveEvents(Splice(top[i]))
  {
    assert top[..i + 1] == top[..i] + [top[i]];
    FlattenAppend(top[..i], [top[i]]);
    FlattenSingle(top[i]);
    LiveEventsAppend(Flatten(top[..i]), Splice(top[i]));
  }

  /** The first i top-level elements expand, and `soFar` holds their live events. */
  predicate ExpandedPrefix(top: seq<AbiValue>, i: nat, soFar: seq<AbiEntry>)
    requires i <= |top|
  {
    AllExpandable(top[..i]) && soFar == LiveEvents(Flatten(top[..i]))
  }

  /** What the `eventAbis` reduce pushes for one expandable top-level element. */
  function StepEvents(v: AbiValue): seq<AbiEntry>
    requires Expandable(v)
  {
    if IsLiveEvent(v) then [v.entry] else LiveEvents(v.items)
  }

  /** One more top-level element adds the live events of its splice, or ends the expansion. */
  lemma ExpandStep(top: seq<AbiValue>, i: nat, soFar: seq<AbiEntry>)
    requires i < |top| && ExpandedPrefix(top, i, soFar)
    ensures Expandable(top[i]) ==> ExpandedPrefix(top, i + 1, soFar + StepEvents(top[i]))
    ensures !Expandable(top[i]) ==> !AllExpandable(top)
  {
    LiveEventsSnoc(top, i);
    AllExpandableStep(top, i);
    if IsLiveEvent(top[i]) {
      LiveEventsSingle(top[i]);
    }
  }

  /**
   * Expansion keeps exactly the live events: everything it returns is a live event of the
   * spliced top level, and every live event of the top level or of a top-level array is kept.
   */
  lemma ExpandKeepsExactlyLiveEvents(abi: AbiValue)
    requires Expand(abi).Ok?
    ensures forall k :: 0 <= k < |Expand(abi).value| ==>
      IsLiveEvent(Entry(Expand(abi).value[k])) && Entry(Expand(abi).value[k]) in Flatten(TopLevel(abi))
    ensures forall k :: 0 <= k < |TopLevel(abi)| && IsLiveEvent(TopLevel(abi)[k]) ==>
      TopLevel(abi)[k].entry in Expand(abi).value
    ensures forall k, m ::
      (0 <= k < |TopLevel(abi)| && TopLevel(abi)[k].Items? &&
       0 <= m < |TopLevel(abi)[k].items| && IsLiveEvent(TopLevel(abi)[k].items[m])) ==>
      TopLevel(abi)[k].items[m].entry in Expand(abi).value
  {
    var top := TopLevel(abi);
    var flat := Flatten(top);
    FlattenMembers(top);
    LiveEventsAreLive(flat);
    LiveEventsKeepAll(flat);
  }

  /**
   * Expansion keeps order: expanding the concatenation of two expandable top-level lists gives the
   * events of the first list, then those of the second.
   */
  lemma ExpandAppend(a: seq<AbiValue>, b: seq<AbiValue>)
    requires Expand(Items(a)).Ok? && Expand(Items(b)).Ok?
    ensures Expand(Items(a + b)) == Ok(Expand(Items(a)).value + Expand(Items(b)).value)
  {
    assert TopLevel(Items(a + b)) == a + b;
    forall k | 0 <= k < |a + b| ensures Expandable((a + b)[k]) {
      if k < |a| {
        assert (a + b)[k] == a[k];
      } else {
        assert (a + b)[k] == b[k - |a|];
      }
    }
    FlattenAppend(a, b);
    LiveEventsAppend(Flatten(a), Flatten(b));
  }

  /** The `eventAbis` reduce: push each live event, push the live events of each array, or throw. */
  method ExpandAbi(abi: AbiValue) returns (r: Result<seq<AbiEntry>>)
    ensures r == Expand(abi)
  {
    var top := TopLevel(abi);
    var soFar: seq<AbiEntry> := [];
    var i := 0;
    while i < |top|
      invariant 0 <= i <= |top|
      invariant ExpandedPrefix(top, i, soFar)
    {
      var thisAbi := top[i];
      ExpandStep(top, i, soFar);
      if IsLiveEvent(thisAbi) {
        soFar := soFar + [thisAbi.entry];
      } else if thisAbi.Items? {
        soFar := soFar + LiveEvents(thisAbi.items);
      } else {
        return Err(NotAList);
      }
      i := i + 1;
    }
    assert top[..i] == top;
    r := Ok(soFar);
  }

  function TypesOf(ps: seq<Param>): (r: seq<string>)
    ensures |r| == |ps| && forall k :: 0 <= k < |ps| ==> r[k] == ps[k].typeTag
  {
    seq(|ps|, k requires 0 <= k < |ps| => ps[k].typeTag)
  }

  function NamesOf(ps: seq<Param>): (r: seq<string>)
    ensures |r| == |ps| && forall k :: 0 <= k < |ps| ==> r[k] == ps[k].name
  {
    seq(|ps|, k requires 0 <= k < |ps| => ps[k].name)
  }

  /** `${name}(${types.join(',')})`. */
  function Signature(name: string, types: seq<string>): string {
    name + "(" + Join(types, ',') + ")"
  }

  /** The signature of an event uses only its name and declared types, in order. */
  function EventSignature(e: AbiEntry): string {
    Signature(e.name, TypesOf(e.inputs))
  }

  /** Parameter names and `indexed` flags never reach the signature: only the name and the types do. */
  lemma SignatureIgnoresParamNames(e1: AbiEntry, e2: AbiEntry)
    requires e1.name == e2.name && |e1.inputs| == |e2.inputs|
    requires forall k :: 0 <= k < |e1.inputs| ==> e1.inputs[k].typeTag == e2.inputs[k].typeTag
    ensures EventSignature(e1) == EventSignature(e2)
  {
    assert TypesOf(e1.inputs) == TypesOf(e2.inputs);
  }

  lemma CharAt(a: string, x: string, i: nat)
    requires i <= |a|
    ensures (a + "(" + x)[i] == if i == |a| then '(' else a[i]
  {
  }

  lemma NamesBeforeParenthesis(a: string, x: string, b: string, y: string)
    requires '(' !in a && '(' !in b
    requires a + "(" + x == b + "(" + y
    ensures a == b && x == y
  {
    var s := a + "(" + x;
    if |a| < |b| {
      CharAt(a, x, |a|);
      assert false;
    } else if |b| < |a| {
      CharAt(b, y, |b|);
      assert false;
    }
    assert a == s[..|a|] == b;
    assert x == s[|a| + 1..] == y;
  }

  /**
   * For names without '(' and types that are non-empty and comma-free, two signature strings
   * are equal exactly when the names and the ordered type lists are equal.
   */
  lemma SignatureInjective(n1: string, t1: seq<string>, n2: string, t2: seq<string>)
    requires '(' !in n1 && '(' !in n2
    requires forall k :: 0 <= k < |t1| ==> t1[k] != "" && ',' !in t1[k]
    requires forall k :: 0 <= k < |t2| ==> t2[k] != "" && ',' !in t2[k]
    ensures Signature(n1, t1) == Signature(n2, t2) <==> n1 == n2 && t1 == t2
  {
    if Signature(n1, t1) == Signature(n2, t2) {
      var j1, j2 := Join(t1, ','), Join(t2, ',');
      assert Signature(n1, t1) == n1 + "(" + (j1 + ")");
      assert Signature(n2, t2) == n2 + "(" + (j2 + ")");
      NamesBeforeParenthesis(n1, j1 + ")", n2, j2 + ")");
      assert j1 == (j1 + ")")[..|j1|] == j2;
      JoinInjective(t1, t2, ',');
    }
  }
}
