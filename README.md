# ethereum-event-logs: parseLog in Dafny

This project models `parseLog` from hiddentao/ethereum-event-logs (`src/index.js`). `parseLog` turns raw
Ethereum event logs into `{ name, args, log }` entries, given an ABI: one event object, a list
of them, or a list holding whole contract ABIs as arrays. A contract ABI passed directly, not wrapped
in an outer array, raises a TypeError at its first entry that is neither a live event nor an array
(a function entry, or an anonymous event). It has these stages:

- **Expansion** (`Abi`). A non-array `abi` is wrapped in a list. Each top-level element is kept when it is a
  non-anonymous `event`. Otherwise it is filtered as an array for such events.
- **Compilation** (`Abi`, `ArgsParsing`, `Matching.CompileEvent`). An event becomes a parser: its name, the
  hash of `name(type1,type2,...)`, and the args parser `createArgsParser` builds.
  `createArgsParser` partitions the inputs into indexed and non-indexed names and types.
- **Decoding** (`Logs`, `ArgsParsing`). The indexed stream is `topics[1..]` with two characters stripped from
  each, joined. The data stream is `data` minus its first two characters. `decodeParameters`
  calls the decoder only for a non-empty group whose names and types have the same length. It keeps
  only truthy values. The non-indexed map is merged over the indexed one.
- **Address filter** (`Logs`). An exact comparison, applied only when `filter.address` is truthy.
- **Matching** (`Matching`). For each filtered log in order, then each parser in order, one entry is emitted
  whenever `log.topics[0]` equals the parser's `sig`. An exception raised while decoding ends the call.
- **End to end** (`EventLogs`). `ParseLog` compiles every event to its own parser. `ParserCache` and
  `ParseLogCached` model the module-level `cachedParsers` object as the code uses it (see Findings).

The web3-eth-abi calls are parameters. `hash: Hasher` stands for `encodeEventSignature`.
`decode: Decoder` stands for `decodeParameters`, which returns values or throws. The loops of the source
(`forEach`, the `for` loop, the `reduce` accumulators, the cache writes) are methods. Each is proved equal
to a function, and the properties are lemmas about those functions.

Facts about `src/index.js` that the model keeps:

- The output is ordered by log, then by parser, not grouped by parser.
- The address comparison is case-sensitive.
- The cache is keyed by one coerced string, not by the event's structure (see Findings).

Behaviour the tests or a reader might expect, which the code does not have:

- Result entries carry only `name`, `args` and `log`. No `address` or `blockNumber` field is copied
  to the entry (`src/index.test.js:51-52` reads them from it).
- No digest type is substituted for dynamic indexed types: the declared types go to the decoder
  (`src/index.test.js:54` expects the hash of an indexed string).
- There is no block-number filter: `filter.blockNumber` is never read (`src/index.test.js:75-89`).
- An anonymous event passed at top level is not skipped. It is taken for an array, and `thisAbi.filter`
  raises a TypeError (`Error.NotAList`, proved by `EventLogs.ParseLogRejectsBadAbi`;
  `src/index.test.js:91-97` expects an empty result).
- A contract ABI passed directly raises the same TypeError at its first function entry or anonymous
  event (`EventLogs.ParseLogRejectsBadAbi`; `src/index.test.js:113-114` passes the contract ABI
  holding the `emit` function and the anonymous `Event4`, and expects three entries).
- A decoded `false` (or `0`, `""`) is dropped (`src/index.test.js:108` expects `boolVar: false`).

## Model

| member | source | states |
|---|---|---|
| Abi.Expand | src/index.js:54-70 | Expansion succeeds exactly when every top-level element is a live event or an array; otherwise it raises the `thisAbi.filter` TypeError; a single object is wrapped, so a live event gives itself and anything else raises |
| Abi.ExpandKeepsExactlyLiveEvents | src/index.js:59-70 | Everything expanded is a non-anonymous event of the spliced top level, and every such event, at top level or inside a top-level array, is kept |
| Abi.ExpandAppend | src/index.js:59-70 | Expansion keeps order: the events of two expandable top-level lists, concatenated, are those of the first list followed by those of the second |
| Abi.ExpandAbi | src/index.js:54-70 | The `reduce` with its `push` accumulator computes exactly Expand |
| Abi.SignatureIgnoresParamNames | src/index.js:80-82 | Two events with the same name and the same ordered types get the same signature string, whatever their parameter names and `indexed` flags |
| Abi.SignatureInjective | src/index.js:80-82 | For names without '(' and non-empty comma-free types, two signature strings are equal exactly when the names and ordered type lists are equal |
| Seqs.SplitJoin | src/index.js:81 | Splitting the joined type list at ',' gives a non-empty list back when no type contains a comma (an empty list joins to `""`, which splits to one empty string) |
| Seqs.JoinInjective | src/index.js:81 | The joined type list determines the list, for non-empty comma-free types |
| ArgsParsing.Partition | src/index.js:19-34 | Each group's names and types have equal length |
| ArgsParsing.PartitionIsExact | src/index.js:19-34 | Every input lands in exactly one group according to `indexed` (as a multiset), and the group sizes sum to the number of inputs |
| ArgsParsing.PartitionStep | src/index.js:26-33 | One `forEach` step appends the input's name and type to its own group and leaves the other group unchanged |
| ArgsParsing.CreateArgsParser | src/index.js:19-34 | The four-array `forEach` builds exactly the partition |
| ArgsParsing.CollectSpec | src/index.js:9-13 | After the loop, the keys are the names at truthy positions, and each name holds the value at its last truthy position |
| ArgsParsing.CollectDistinct | src/index.js:9-13 | With distinct names, `names[i]` is present exactly when `result[i]` is truthy, and it maps to `result[i]` |
| ArgsParsing.DecodeGroup | src/index.js:3-17 | The decoder is not called and the map is empty unless names are non-empty and as long as types; it raises exactly when the guarded call throws, with the decoder's message; keys are among the names |
| ArgsParsing.DecodeParameters | src/index.js:3-17 | The guarded call and counted loop compute exactly DecodeGroup |
| ArgsParsing.DecodedArgs | src/index.js:36-47 | The args parser raises exactly when one group's decoding raises, with the indexed group's decoder error first and otherwise the non-indexed group's; its keys are the union of both groups' keys, the non-indexed value wins on a shared name, and the indexed value is kept otherwise |
| ArgsParsing.ParseArgs | src/index.js:36-47 | The closure with its two `Object.assign` calls computes exactly DecodedArgs |
| ArgsParsing.ArgsKeysAreInputNames | src/index.js:41-46 | No key outside the event's declared input names is ever introduced |
| Logs.Drop2 | src/index.js:39 | `slice(2)` gives the rest after the first two characters, or the empty string for shorter input |
| Logs.IndexedStreamSlots | src/index.js:38 | For topics 1.. of one width, cutting the indexed stream into slots gives `topics[1..]` without their prefixes; `topics[0]`, of any width, never contributes |
| Logs.IndexedStreamOfPrefixed | src/index.js:38 | For "0x"-prefixed payloads, the indexed stream is the concatenation of payloads 1 onwards |
| Logs.FilterLogs | src/index.js:92-94 | With a falsy address the logs are unchanged; otherwise exactly the logs whose address equals it are kept |
| Logs.FilterLogsOrder | src/index.js:92-94 | Filtering distributes over concatenation, so the kept logs stay in their original order |
| Matching.CompileEvent | src/index.js:77-89 | A compiled parser carries the event's own name |
| Matching.Emit | src/index.js:99-103 | A pushed entry carries the parser's name and the log itself |
| Matching.EmitMatch | src/index.js:98-103 | Building one entry computes exactly Emit |
| Matching.RowSound | src/index.js:97-107 | The inner reduce's pairs all belong to the log, match it, and are in increasing parser order |
| Matching.RowComplete | src/index.js:97-107 | Every parser that matches the log is in its row |
| Matching.PairsSound | src/index.js:96-112 | Every enumerated pair is a matching (log, parser) pair |
| Matching.PairsComplete | src/index.js:96-112 | Every matching (log, parser) pair is enumerated |
| Matching.PairsSorted | src/index.js:96-112 | Pairs are strictly increasing by log, then by parser |
| Matching.MatchRowSpec | src/index.js:97-107 | The inner reduce gives the entries of its row's pairs in order, or the exception of the first such pair that raises |
| Matching.MatchPrefixSpec | src/index.js:96-112 | The outer reduce gives the entries of all pairs in order, or the exception of the first pair that raises |
| Matching.MatchAllSpec | src/index.js:96-112 | The match succeeds exactly when no matching pair raises; its k-th entry is the k-th matching pair's entry (so the length is the number of matching pairs); otherwise it gives the first raising pair's exception |
| Matching.RowErrPropagates | src/index.js:97-107 | Once the inner reduce has raised, later parsers do not change its outcome |
| Matching.PrefixErrPropagates | src/index.js:96-112 | Once the outer reduce has raised, later logs do not change its outcome |
| Matching.RaiseEndsMatch | src/index.js:96-112 | An exception inside one log's inner reduce is the result of the whole call |
| Matching.MatchLogs | src/index.js:96-112 | The two nested `reduce` loops compute exactly MatchAll |
| EventLogs.CompiledAgrees | src/index.js:80-98 | A compiled event matches a log exactly when the log's first topic is the hash of the event's signature; it emits the event's name and decoded args |
| EventLogs.ParseLogRejectsBadAbi | src/index.js:59-70 | An abi with a top-level element that is neither a live event nor an array makes the call raise the TypeError |
| EventLogs.CompiledMatchSucceeds | src/index.js:72-112 | Matching against the compiled events succeeds exactly when no matching (log, event) pair fails to decode |
| EventLogs.CompiledMatchComplete | src/index.js:72-112 | Every (log, event) pair whose topic matches produces that event's entry for that log |
| EventLogs.CompiledMatchSound | src/index.js:72-112 | Every entry is the entry of a (log, event) pair whose topic matches |
| EventLogs.ParseLogMatchesEveryEvent | src/index.js:52-112 | Over the filtered logs and the expanded events: success exactly when no matching pair raises; every matching pair's entry is present, and nothing else |
| EventLogs.CompiledMatchErrors | src/index.js:96-112 | Matching against the compiled events raises only a decoder exception |
| EventLogs.ParseLogErrors | src/index.js:52-112 | parseLog raises the `thisAbi.filter` TypeError when the abi does not expand, and otherwise only a decoder exception |
| EventLogs.CachedParsersAsWritten | src/index.js:72-90 | With the coerced key unset, only the first event is compiled, and every other event comes back as the ABI object itself; once the key is set, every event does; the bag gains the first event's parser |
| EventLogs.RawParsersMatchOnlyTopicless | src/index.js:97-103 | Raw ABI objects as parsers give no entries when every log has topics, and raise the `parseArgs` TypeError when some log has none |
| EventLogs.WarmCacheFindsNothing | src/index.js:72-112 | Once the key is set, a call on logs that all carry topics returns nothing, whatever events an expandable abi holds, and leaves the bag unchanged |
| EventLogs.ColdCacheSingleEventAgrees | src/index.js:72-90 | With the key unset and a single event, the cached call agrees with ParseLog and stores that event's parser |
| EventLogs.ExpandTwoEvents | src/index.js:54-70 | An array of two live events expands to those two events |
| EventLogs.UncachedReportsB | src/index.js:72-112 | For the two-event counterexample, compiling each event gives the B entry |
| EventLogs.CachedReportsNothing | src/index.js:72-90 | For the two-event counterexample, the call as written gives no entry |
| EventLogs.CachedParseLogDropsSecondEvent | src/index.js:73-74 | On a first call with events A() and B() and a log with B's topic, ParseLog reports B but the cached call reports nothing |
| EventLogs.ParserCache.constructor | src/index.js:50 | A fresh cache has no property under the coerced key |
| EventLogs.ParserCache.Lookup | src/index.js:73-89 | One `map` callback: a hit returns the entry itself and leaves the bag alone; a miss compiles the entry, stores the parser under the coerced key and returns it |
| EventLogs.ParseLogCached | src/index.js:52-112 | The imperative pipeline as written gives ParseLogWithCache's result and leaves the cache holding its property bag |

## Left out

- The internals of web3-eth-abi's `encodeEventSignature` (Keccak-256) and `decodeParameters` (ABI decoding) are not modelled. They are the `hash` and `decode` parameters. The hash is total: a hash that throws is not modelled.
- The decoder's result object is a sequence. Reading past its end gives `undefined`, as in `result[i]`.
- Decoded values that are floating point (NaN), BN objects or other host objects are not modelled. `Value` covers undefined, null, booleans, integers, strings and lists, with JavaScript truthiness.
- The key order of the `args` object is not modelled, and neither are prototype names such as `__proto__` used as parameter names. `args` is a map.
- Malformed inputs are not modelled: `abi` values other than objects and arrays, entries without `inputs`, logs without `topics`, and non-string addresses. They would raise TypeErrors this model does not represent.
- The filter reads only `address`, as the code does. The block-number filter the tests mention does not exist in the code.
- `cachedParsers` is a module-level `WeakMap` in the code. Here it is a `ParserCache` object passed to `ParseLogCached`. Its string-keyed property bag is the field `props`.
- The test suite (`src/index.test.js`) is not modelled: the local chain, contract deployment and transactions are I/O.
- Matching.CompileEvent: its contract states only the name; the signature hash and args parser are given by its definition, and CompiledAgrees states what they mean for matching.
- Matching.Emit: its contract states the name and log of an entry; the args are given by DecodedArgs, whose contract states them.

## Findings

| source | as written | input that shows it | evidently intended | confidence | as-written member | corrected member |
|---|---|---|---|---|---|---|
| src/index.js:73-89 | `cachedParsers[thisAbi]` is a property access. Every ABI object coerces to the key "[object Object]", so after the first compile every event is a cache "hit". The "hit" returns the ABI object itself, which has no `sig` and no `parseArgs`. | First call ever, abi `[A(), B()]` with no inputs, one log whose first topic is the hash of "B()": the B entry is missing | Each event is compiled to its own `{ name, sig, parseArgs }`, for example through `cachedParsers.get`/`set`; every matching event yields its entry | not executed | EventLogs.CachedParseLogDropsSecondEvent | EventLogs.ParseLogMatchesEveryEvent |
