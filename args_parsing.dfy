/** createArgsParser and decodeParameters: partitioning the inputs and decoding each group. */
module ArgsParsing {
  import opened Values
  import opened Seqs
  import opened Logs
  import opened Abi

  /** The closure createArgsParser returns, given by the four lists it captures. */
  datatype ArgsParser = ArgsParser(
    indexedNames: seq<string>,
    indexedTypes: seq<string>,
    nonIndexedNames: seq<string>,
    nonIndexedTypes: seq<string>)

  predicate IsIndexed(p: Param) { p.indexed }

  predicate IsNonIndexed(p: Param) { !p.indexed }

  /** The partition of the declared inputs into indexed and non-indexed names and types. */
  function Partition(inputs: seq<Param>): (p: ArgsParser)
    ensures |p.indexedNames| == |p.indexedTypes|
    ensures |p.nonIndexedNames| == |p.nonIndexedTypes|
  {
    var ix, nx := Filter(IsIndexed, inputs), Filter(IsNonIndexed, inputs);
    ArgsParser(NamesOf(ix), TypesOf(ix), NamesOf(nx), TypesOf(nx))
  }

  /**
   * Every input lands in exactly one group, according to its `indexed` flag, and the group
   * sizes add up to the number of inputs.
   */
  lemma PartitionIsExact(inputs: seq<Param>)
    ensures multiset(Filter(IsIndexed, inputs)) + multiset(Filter(IsNonIndexed, inputs)) == multiset(inputs)
    ensures |Partition(inputs).indexedNames| + |Partition(inputs).nonIndexedNames| == |inputs|
  {
    FilterSplits(IsIndexed, IsNonIndexed, inputs);
  }

  /** One input more: it is appended to the lists of its own group and the other group is unchanged. */
  lemma PartitionStep(inputs: seq<Param>, i: nat)
    requires i < |inputs|
    ensures inputs[i].indexed ==>
      && Partition(inputs[..i + 1]).indexedNames == Partition(inputs[..i]).indexedNames + [inputs[i].name]
      && Partition(inputs[..i + 1]).indexedTypes == Partition(inputs[..i]).indexedTypes + [inputs[i].typeTag]
      && Partition(inputs[..i + 1]).nonIndexedNames == Partition(inputs[..i]).nonIndexedNames
      && Partition(inputs[..i + 1]).nonIndexedTypes == Partition(inputs[..i]).nonIndexedTypes
    ensures !inputs[i].indexed ==>
      && Partition(inputs[..i + 1]).indexedNames == Partition(inputs[..i]).indexedNames
      && Partition(inputs[..i + 1]).indexedTypes == Partition(inputs[..i]).indexedTypes
      && Partition(inputs[..i + 1]).nonIndexedNames == Partition(inputs[..i]).nonIndexedNames + [inputs[i].name]
      && Partition(inputs[..i + 1]).nonIndexedTypes == Partition(inputs[..i]).nonIndexedTypes + [inputs[i].typeTag]
  {
    assert inputs[..i + 1][..i] == inputs[..i];
    var ix, nx := Filter(IsIndexed, inputs[..i]), Filter(IsNonIndexed, inputs[..i]);
    if inputs[i].indexed {
      assert Filter(IsIndexed, inputs[..i + 1]) == ix + [inputs[i]];
      assert Filter(IsNonIndexed, inputs[..i + 1]) == nx;
      NamesTypesAppend(ix, inputs[i]);
    } else {
      assert Filter(IsIndexed, inputs[..i + 1]) == ix;
      assert Filter(IsNonIndexed, inputs[..i + 1]) == nx + [inputs[i]];
      NamesTypesAppend(nx, inputs[i]);
    }
  }

  lemma NamesTypesAppend(ps: seq<Param>, x: Param)
    ensures NamesOf(ps + [x]) == NamesOf(ps) + [x.name]
    ensures TypesOf(ps + [x]) == TypesOf(ps) + [x.typeTag]
  {
  }

  /** The forEach of createArgsParser, pushing each input's name and type onto its group's lists. */
  method CreateArgsParser(inputs: seq<Param>) returns (p: ArgsParser)
    ensures p == Partition(inputs)
  {
    var indexedNames, indexedTypes: seq<string> := [], [];
    var nonIndexedNames, nonIndexedTypes: seq<string> := [], [];
    var i := 0;
    while i < |inputs|
      invariant 0 <= i <= |inputs|
      invariant ArgsParser(indexedNames, indexedTypes, nonIndexedNames, nonIndexedTypes) == Partition(inputs[..i])
    {
      var input := inputs[i];
      PartitionStep(inputs, i);
      if input.indexed {
        indexedNames := indexedNames + [input.name];
        indexedTypes := indexedTypes + [input.typeTag];
      } else {
        nonIndexedNames := nonIndexedNames + [input.name];
        nonIndexedTypes := nonIndexedTypes + [input.typeTag];
      }
      i := i + 1;
    }
    assert inputs[..i] == inputs;
    p := ArgsParser(indexedNames, indexedTypes, nonIndexedNames, nonIndexedTypes);
  }

  /** `result[i]`: reading past the end of the decoder's result gives undefined. */
  function At(vals: seq<Value>, i: nat): Value {
    if i < |vals| then vals[i] else Undefined
  }

  /** No later position among the first `n` carries the same name with a truthy value. */
  predicate LastTruthy(names: seq<string>, vals: seq<Value>, i: nat, n: nat)
    requires i < n <= |names|
  {
    forall j :: i < j < n && names[j] == names[i] ==> !Truthy(At(vals, j))
  }

  /**
   * The map the first `n` rounds of the decodeParameters loop build: its keys are the names at
   * truthy positions, and each key holds the value at its last truthy position.
   */
  function Collect(names: seq<string>, vals: seq<Value>, n: nat): map<string, Value>
    requires n <= |names|
  {
    if n == 0 then map[]
    else
      var m := Collect(names, vals, n - 1);
      var v := At(vals, n - 1);
      if Truthy(v) then m[names[n - 1] := v] else m
  }

  lemma {:induction false} CollectSpec(names: seq<string>, vals: seq<Value>, n: nat)
    requires n <= |names|
    ensures Collect(names, vals, n).Keys == set i | 0 <= i < n && Truthy(At(vals, i)) :: names[i]
    ensures forall i :: 0 <= i < n && Truthy(At(vals, i)) && LastTruthy(names, vals, i, n) ==>
      Collect(names, vals, n)[names[i]] == At(vals, i)
  {
    if n > 0 {
      CollectSpec(names, vals, n - 1);
    }
  }

  /** With distinct names, each name is present exactly when its value is truthy, and holds it. */
  lemma CollectDistinct(names: seq<string>, vals: seq<Value>)
    requires forall i, j :: 0 <= i < j < |names| ==> names[i] != names[j]
    ensures forall i :: 0 <= i < |names| ==>
      (names[i] in Collect(names, vals, |names|) <==> Truthy(At(vals, i)))
    ensures forall i :: 0 <= i < |names| && Truthy(At(vals, i)) ==>
      Collect(names, vals, |names|)[names[i]] == At(vals, i)
  {
    var m := Collect(names, vals, |names|);
    CollectSpec(names, vals, |names|);
    forall i | 0 <= i < |names| && Truthy(At(vals, i))
      ensures LastTruthy(names, vals, i, |names|)
    {
    }
    forall i | 0 <= i < |names| && names[i] in m
      ensures Truthy(At(vals, i))
    {
      var j :| 0 <= j < |names| && Truthy(At(vals, j)) && names[j] == names[i];
      assert j == i;
    }
  }

  /**
   * decodeParameters as a value: the empty map without calling the decoder unless `names` is
   * non-empty and as long as `types`; otherwise the decoder's exception, or the truthy values
   * under their names.
   */
  function DecodeGroup(names: seq<string>, types: seq<string>, data: string, decode: Decoder)
    : (r: Result<map<string, Value>>)
    ensures !(|names| > 0 && |names| == |types|) ==> r == Ok(map[])
    ensures r.Err? <==> |names| > 0 && |names| == |types| && decode(types, data).Throws?
    ensures r.Err? ==> r.error == DecoderError(decode(types, data).message)
    ensures r.Ok? ==> r.value.Keys <= set i | 0 <= i < |names| :: names[i]
  {
    if |names| > 0 && |names| == |types| then
      match decode(types, data)
      case Throws(message) => Err(DecoderError(message))
      case Values(vals) =>
        CollectSpec(names, vals, |types|);
        Ok(Collect(names, vals, |types|))
    else Ok(map[])
  }

  /** decodeParameters: the guarded decoder call and the counted loop that fills `ret`. */
  method DecodeParameters(names: seq<string>, types: seq<string>, data: string, decode: Decoder)
    returns (r: Result<map<string, Value>>)
    ensures r == DecodeGroup(names, types, data, decode)
  {
    var ret: map<string, Value> := map[];
    if |names| > 0 && |names| == |types| {
      var result := decode(types, data);
      if result.Throws? {
        return Err(DecoderError(result.message));
      }
      var i := 0;
      while i < |types|
        invariant 0 <= i <= |types|
        invariant ret == Collect(names, result.values, i)
      {
        var v := At(result.values, i);
        if Truthy(v) {
          ret := ret[names[i] := v];
        }
        i := i + 1;
      }
    }
    r := Ok(ret);
  }

  /**
   * The args parser applied to a log: decode the indexed group from the topics after the first,
   * then the non-indexed group from the data, and merge them with the non-indexed map on top.
   */
  function DecodedArgs(p: ArgsParser, log: Log, decode: Decoder): (r: Result<map<string, Value>>)
    ensures r.Err? <==>
      DecodeGroup(p.indexedNames, p.indexedTypes, IndexedStream(log.topics), decode).Err? ||
      DecodeGroup(p.nonIndexedNames, p.nonIndexedTypes, DataStream(log.data), decode).Err?
    ensures r.Err? ==>
      var ix := DecodeGroup(p.indexedNames, p.indexedTypes, IndexedStream(log.topics), decode);
      var nx := DecodeGroup(p.nonIndexedNames, p.nonIndexedTypes, DataStream(log.data), decode);
      r.error == if ix.Err? then ix.error else nx.error
    ensures r.Ok? ==>
      var ix := DecodeGroup(p.indexedNames, p.indexedTypes, IndexedStream(log.topics), decode).value;
      var nx := DecodeGroup(p.nonIndexedNames, p.nonIndexedTypes, DataStream(log.data), decode).value;
      && r.value.Keys == ix.Keys + nx.Keys
      && (forall k :: k in nx ==> r.value[k] == nx[k])
      && (forall k :: k in ix && k !in nx ==> r.value[k] == ix[k])
  {
    match DecodeGroup(p.indexedNames, p.indexedTypes, IndexedStream(log.topics), decode)
    case Err(e) => Err(e)
    case Ok(ix) =>
      match DecodeGroup(p.nonIndexedNames, p.nonIndexedTypes, DataStream(log.data), decode)
      case Err(e) => Err(e)
      case Ok(nx) => Ok(ix + nx)
  }

  /** The closure returned by createArgsParser (src/index.js:36-47). */
  method ParseArgs(p: ArgsParser, log: Log, decode: Decoder) returns (r: Result<map<string, Value>>)
    ensures r == DecodedArgs(p, log, decode)
  {
    var indexedData := IndexedStream(log.topics);
    var nonIndexedData := DataStream(log.data);
    var args: map<string, Value> := map[];
    var ix := DecodeParameters(p.indexedNames, p.indexedTypes, indexedData, decode);
    if ix.Err? {
      return Err(ix.error);
    }
    args := args + ix.value;
    var nx := DecodeParameters(p.nonIndexedNames, p.nonIndexedTypes, nonIndexedData, decode);
    if nx.Err? {
      return Err(nx.error);
    }
    args := args + nx.value;
    assert map[] + ix.value == ix.value;
    r := Ok(args);
  }

  lemma GroupNamesAreInputNames(f: Param -> bool, inputs: seq<Param>)
    ensures (set i | 0 <= i < |NamesOf(Filter(f, inputs))| :: NamesOf(Filter(f, inputs))[i])
            <= set k | 0 <= k < |inputs| :: inputs[k].name
  {
    var sub := Filter(f, inputs);
    FilterMembers(f, inputs);
    forall i | 0 <= i < |NamesOf(sub)|
      ensures NamesOf(sub)[i] in set k | 0 <= k < |inputs| :: inputs[k].name
    {
      var k :| 0 <= k < |inputs| && inputs[k] == sub[i];
    }
  }

  /** The args of a compiled event never carry a key that is not one of its input names. */
  lemma ArgsKeysAreInputNames(inputs: seq<Param>, log: Log, decode: Decoder)
    requires DecodedArgs(Partition(inputs), log, decode).Ok?
    ensures DecodedArgs(Partition(inputs), log, decode).value.Keys <= set k | 0 <= k < |inputs| :: inputs[k].name
  {
    GroupNamesAreInputNames(IsIndexed, inputs);
    GroupNamesAreInputNames(IsNonIndexed, inputs);
  }
}
