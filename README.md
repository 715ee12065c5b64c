# Naïve Easy Mock — a Dafny model of its core

Naïve Easy Mock is a development-time mock API server. For each request it
finds a template file by walking a resource directory one path segment at a
time, builds a request context (`_req`) for the template's generator
functions, and resolves the template — a tree of scalars, objects, arrays and
functions whose keys may carry Mock.js rules (`name|rule`) — into JSON.

This project models the three pieces of `index.js` that hold that logic:

- `routes.dfy` (`Routes`): the route resolver `build_params`. The file
  system is an abstract tree in which every directory has an ordered listing
  of named files and directories. `BuildParams` is the resolver's loop,
  proved equal to the specification function `Walk`. Lemmas state the
  precedence rules: a literal entry beats a dynamic one (`_x` or `{x}`); the
  first dynamic entry in listing order wins; a miss is `NotFound`; a `{x}.json`
  file fails with an error because its parameter regex never matches. They
  also state which parameters a hit binds.
- `template.dfy` (`Template`): the template engine — `recursive`,
  `handle_object` and `handle_mockjs_syntax`. Mock.js and the generator
  functions are oracles (`Oracles.mock`, `Oracles.call`), with stated
  assumptions about the shapes they return (`ValidOracles`). The engine is
  specified by ghost functions (`ResolveNode`, `ResolveObject`, `Prefix`,
  `ResolveKey`, …). Methods with the source's loops (`Recursive`,
  `HandleObject`, `HandleMockSyntax`, `BuildPlaceholder`, `RestoreKeys`,
  `RestoreArray`, …) are proved equal to them. Lemmas cover the key order of
  `handle_object`, renaming, sibling visibility for functions, and the
  placeholder round trip for objects and arrays.
- `request.dfy` (`RequestContext`): `generate_req`. This covers the query
  string, the search string, and content-type normalisation. That
  normalisation is an accumulator loop in which the last `;`-segment without
  `charset` wins.

Support modules: `strings.dfy` (`Strings`) holds the JavaScript string
operations the code uses: `split` on one character, `trim`, ASCII
`toLowerCase`, `includes`, and `<` on strings. `keyorder.dfy` (`KeyOrder`)
holds `Array.prototype.sort` over object keys with `handle_object`'s
comparator. `json.dfy` (`Json`) holds template values and `TypeOf`.
`optional.dfy` (`Optional`) holds `Option`.

Three behaviours of the code are kept as written:

- Within each key group, keys are compared as whole decorated strings
  (index.js:117-122), not by their names, so a name sorts before every
  decorated key that carries it.
- A `{name}.json` file passes the filter at index.js:224, but the second
  regex at index.js:230 ends in `.json}`, so it never matches such a file and
  reading `[1]` from `null` throws. The walk returns
  `Failed(NoParamName(..))`; see "## Findings".
- Restoring an array after Mock.js (index.js:88) uses each surviving marker
  as the position to write as well as the element to read; see
  "## Findings".

## Model

| member | source | states |
|---|---|---|
| `Json.TypeOf` | index.js:30-36 | the tag is Object, Array or Function exactly for objects, arrays and functions, and the fourth tag exactly for scalars |
| `Strings.Split` | index.js:209 | `split` on one character gives at least one piece; no piece holds the separator; joining the pieces gives the text back |
| `Strings.SplitJoin` | index.js:186 | splitting the join of separator-free pieces gives the pieces back |
| `Strings.Trim` | index.js:188 | `trim` removes exactly the leading and trailing white space; the result neither starts nor ends with white space |
| `Strings.ContainsAt` | index.js:187 | `includes` holds exactly when the text occurs at some position |
| `Strings.LexPrefix` | index.js:119 | under `<` on strings, a proper prefix sorts strictly before the longer string |
| `KeyOrder.Sort` | index.js:117-122 | the sort lists every key exactly once |
| `KeyOrder.SortOrdered` | index.js:117-122 | every pair of listed keys is in comparator order |
| `Routes.Segments` | index.js:209 | segments are non-empty and hold no `/` or `\` |
| `Routes.SegmentsAround` | index.js:209 | a `/` or `\` cuts the path into the segments of its two sides |
| `Routes.NoSegments` | index.js:209 | a path has no segments exactly when it consists of separators only |
| `Routes.NoSegmentsNotFound` | index.js:209-261 | a path with no segments runs no iteration and resolves to `{success:false}` |
| `Routes.FirstDynamic` | index.js:223-225 | the index is the first listed entry of the right kind and name form; `None` when there is none |
| `Routes.BuildParams` | index.js:207-262 | the loop over segments, tracking the current directory and the parameters, gives exactly the outcome of the walk `Walk` |
| `Routes.FinalMatched` | index.js:214-239 | the final step appends one existing entry: `seg.json` if present, otherwise the first dynamic file listed |
| `Routes.IntermediateMatched` | index.js:241-258 | an intermediate step descends into one existing entry: `seg` if present, otherwise the first dynamic directory listed |
| `Routes.FoundIsMatched` | index.js:211-260 | a hit's path extends the root by one entry per segment, and each entry was chosen by the precedence rule |
| `Routes.FoundBindings` | index.js:229-256 | a hit's parameters are exactly those bound, in path order, by the dynamic entries it walked |
| `Routes.RebindKey` | index.js:231-255 | each bound name holds the segment of the last entry binding it; names no entry binds are untouched |
| `Routes.LiteralRouteWins` | index.js:214-244 | when every segment has a literal entry, the literal path is found and no parameter is bound, whatever dynamic entries exist |
| `Routes.MatchedChainFound` | index.js:211-260 | conversely, a chain of entries each chosen by the precedence rule and ending in `seg.json` or a `_x.json` file is exactly the hit the walk returns, with the parameters those entries bind |
| `Routes.BraceFileUnbound` | index.js:224-230 | as written, a `{x}.json` file passes the filter but its parameter pattern finds nothing |
| `Routes.BraceFileFails` | index.js:207-262 | as written, with only `{id}.json` in the root, `/42` throws instead of binding `id` |
| `Routes.FileParamIntendedBinds` | index.js:224-230 | corrected, every file the filter keeps binds a parameter, and `_x.json` and `{x}.json` both bind `x` |
| `Routes.FailureCauses` | index.js:223-254 | the walk only throws when it lists something that is not a directory, or when the final file taken is a `{x}.json` file |
| `Routes.UsersExample` | index.js:207-262 | with `users/_id/profile.json` on disk, `/users/42/profile` selects that file with `id = "42"` |
| `RequestContext.QueryString` | index.js:180 | the query string is the URL without its first path-length-plus-one characters, or `""` when the URL is shorter |
| `RequestContext.QueryStringOfUrl` | index.js:180-182 | for a URL of the form path `?` query, the query string is that query |
| `RequestContext.Normalise` | index.js:184-190 | the accumulator loop leaves the trimmed last segment without `charset`, or the whole lower-cased header when every segment has `charset` |
| `RequestContext.ContentType` | index.js:184 | a missing header gives `""`; a present one is normalised |
| `RequestContext.EmptyHeader` | index.js:184-190 | the empty header normalises to `""` |
| `RequestContext.ContentTypeWithCharset` | index.js:185-190 | `type;charset=…`, in any case, normalises to the type lower-cased and trimmed |
| `RequestContext.ContentTypeLastWins` | index.js:186-190 | with two segments free of `charset`, in any case, the second one is kept, lower-cased and trimmed, not the first |
| `RequestContext.OnlyCharsetKept` | index.js:184-190 | a one-segment header holding `charset` stays whole: lower-cased and untrimmed |
| `RequestContext.NormalisedTypeUnique` | index.js:184-192 | the normalised type is a function of the header |
| `RequestContext.GenerateReq` | index.js:167-201 | the context copies the request fields, sets `search` to `?` plus the query string, and normalises the type; missing params give `{}` |
| `Template.NameIsFirstPiece` | index.js:46 | the name is the first `\|`-piece of the key |
| `Template.RuleIsSecondPiece` | index.js:46-49 | the rule is the trimmed second `\|`-piece, or `""` when there is none |
| `Template.KeyParts` | index.js:46-49 | for `name\|rule…`, the name is `name` and the rule is `rule` trimmed; any further pieces are dropped |
| `Template.PlainKey` | index.js:46-55 | a key without `\|` is its own name and has no rule |
| `Template.NameBefore` | index.js:119 | a decorated key sorts strictly after its name |
| `Template.ProcessingOrder` | index.js:112-122 | the key snapshot lists every key of the object exactly once |
| `Template.ProcessingOrderDistinct` | index.js:112-123 | no key is processed twice |
| `Template.ProcessingOrderSorted` | index.js:112-122 | every non-function key comes before every function key; within each group, keys are in strictly ascending order of the decorated key |
| `Template.NameKeyMappingNames` | index.js:59-64 | every inner name is mapped to a key of the object carrying that name |
| `Template.NameKeyMappingGreatest` | index.js:60-64 | when several keys share a name, the later write wins, so the name maps to the greatest of them |
| `Template.PlaceholderNames` | index.js:57-64 | the placeholder holds exactly the inner names, each mapped to `""` |
| `Template.BuildPlaceholder` | index.js:57-64 | the `forEach` fills the mapping and the placeholder as the specification functions say |
| `Template.RestoreKeys` | index.js:69-73 | the restoring `forEach` gives the restored object `RestoreKeysOf` |
| `Template.RestoreKeysOfShape` | index.js:69-73 | every name that survives Mock.js gets its original key back with the original value; every other key keeps Mock.js's value, including the `m: ""` entry of a decorated key |
| `Template.RestoredParts` | index.js:68-73 | a restored value is a scalar from Mock.js or a value of the original object |
| `Template.Markers` | index.js:79-82 | the loop pushes the markers `0 .. n-1` |
| `Template.RestoreElements` | index.js:87-89 | corrected restoration, beside the engine: each position holds the original element its marker names, and the length is unchanged |
| `Template.RestoreArray` | index.js:88 | corrected restoration in place on an array equals `RestoreElements` |
| `Template.RestoreArrayAsWritten` | index.js:88 | the loop as written, which the engine uses: with each marker at most its own index: positions named by some marker hold the original element, other positions keep their marker, and the length is unchanged |
| `Template.AsWrittenKeepsMarker` | index.js:88 | markers `[0, 0]` over `[x]` give `[x, 0]` as written and `[x, x]` corrected |
| `Template.RestorePrefix` | index.js:85-89 | markers `[0 .. k-1]` restore to the first `k` elements, both as written and corrected |
| `Template.ResolveNode` | index.js:139-161 | `recursive` returns data holding no function |
| `Template.ResolveObject` | index.js:110-131 | `handle_object` returns an object whose values hold no function |
| `Template.Prefix` | index.js:123-129 | after `i` steps, every key still to come is present with its pending value; every other value is finished |
| `Template.ResolveKey` | index.js:45-102 | `handle_mockjs_syntax` returns a value holding no function |
| `Template.ResolveRuleObject` | index.js:55-74 | the round trip of an object under a rule (blank, Mock.js, restore, resolve) yields finished data; what it holds is `RuleObjectRoundTrip` |
| `Template.RuleObjectRoundTrip` | index.js:55-76 | the round trip of an object under a rule holds exactly the names Mock.js kept, each with the resolved original value of the key that name came from |
| `Template.ResolveRuleArray` | index.js:78-92 | the round trip of an array under a rule (markers, Mock.js, restore as written or pick, resolve) yields finished data; what it holds is `RuleArrayResult` |
| `Template.RuleArrayResult` | index.js:78-89 | when Mock.js returns an array, the result has its length; a position some marker names holds the original element there, resolved, and any other position keeps its marker |
| `Template.ResolveObjectKeys` | index.js:123-129 | after `handle_object`, the keys are exactly the names of the original keys, so every decorated key is gone |
| `Template.WrittenAtStep` | index.js:124-125 | after key `k`'s step, `val[name(k)]` holds its result |
| `Template.LastWriterWins` | index.js:123-129 | the last key in the order with a given name decides the final value under that name |
| `Template.KeyUntouched` | index.js:123-128 | a key that no other key names keeps its original value until its own step |
| `Template.DecoratedUntouched` | index.js:123-128 | a decorated key keeps its original value until its own step |
| `Template.DecoratedOverwritesBase` | index.js:112-128 | for a decorated key beside its bare name `m` (a non-function, as restoration leaves it), the bare name goes first, so the final value is the decorated key's result |
| `Template.NameStaysResolved` | index.js:123-128 | once written, a name stays present with a finished value |
| `Template.FunctionsSeeResolvedSiblings` | index.js:111-125 | when a function key runs, every non-function sibling has been processed and its name holds a finished value |
| `Template.FunctionIgnoresRule` | index.js:52-53 | a function value ignores its rule: it is called once, and its return is used unresolved |
| `Template.ScalarToMock` | index.js:93-97 | a scalar goes to Mock.js with the full key; `recursive` leaves a scalar unchanged |
| `Template.PlainObjectResolved` | index.js:75-77 | an object under a key without a rule is resolved directly |
| `Template.UnchangedArrayResolved` | index.js:78-89 | when Mock.js returns the markers unchanged, the array is resolved element by element and keeps its length |
| `Template.PickedElement` | index.js:90-91 | a single marker selects the element it names, resolved and unwrapped |
| `Template.HandleMockSyntax` | index.js:45-102 | returns the key's name and the value `ResolveKey` specifies |
| `Template.HandleRuleObject` | index.js:55-74 | the object branch computes `ResolveRuleObject` |
| `Template.HandleRuleArray` | index.js:78-92 | the array branch, restoring in place as written, computes `ResolveRuleArray` |
| `Template.HandleObject` | index.js:110-131 | the loop over the key snapshot computes `ResolveObject` |
| `Template.HandleKey` | index.js:123-128 | one turn of the loop: resolving the key of turn `i` and storing the result under its name gives the object after step `i` |
| `Template.Recursive` | index.js:139-161 | `recursive` computes `ResolveNode` |

## Findings

| source | as written | input that shows it | evidently intended | confidence | as-written member | corrected member |
|---|---|---|---|---|---|---|
| index.js:88 | each element read from the array Mock.js returned is used as an index: the original element at that index is written to position index, not to the element's own position | key `list\|2` with value `['a']`: Mock.js repeats the array, giving markers `[0, 0]`, and the result is `['a', 0]` | every position gets the original element its marker names: `['a', 'a']` | high, not executed | `Template.AsWrittenKeepsMarker` | `Template.RestoreArray` |
| index.js:230 | the parameter of a dynamic file is read with `/^{(.+)\.json}$/`, which matches no name ending in `}.json`, so `[1]` is read from `null` and the request throws | only `{id}.json` in the resource root and the request `/42` | bind `id` to `42`, as the filter at index.js:224 and the directory case at index.js:254 do | high, not executed | `Routes.BraceFileFails` | `Routes.FileParamIntendedBinds` |

The engine (`ResolveRuleArray`, `HandleRuleArray`) and the walk (`Walk`,
`BuildParams`) follow the code as written. The corrected definitions stand
beside them: `RestoreElements` and `RestoreArray` agree with the as-written
restoration whenever Mock.js returns `[0 .. k-1]` (`RestorePrefix`), and
`FileParamIntended` differs from `FileParam` only on `{x}.json` files.

## Left out

- Express wiring, middleware, CORS, the root greeting, and the listening port (index.js:24-28, 311-317): framework plumbing.
- Configuration loading through `require` (index.js:12-22): I/O. The resource root is the parameter `root` of `BuildParams`.
- The request handler `mock_handle` (index.js:269-309) is not part of this model: the proxy call through `request-promise-native`, the `eval` of the template text, logging, and the `{error: …}` envelope are I/O, a network call and dynamic code. The engine receives an already-built `Node` tree.
- Mock.js is an oracle. Its rule semantics (counts, ranges, random picks, formats) are not modelled. `ValidOracles` assumes it returns an object of scalars on some of the placeholder's names, and for an array of markers either a non-array or an array of in-range markers, each at most its own index.
- Function-free results: `ValidOracles` assumes that neither Mock.js nor a generator function returns a function. A template whose generator returns a function is outside the model.
- Determinism: `mock` and `call` are functions of their arguments. Mock.js is random and a generator may return a different value on each call; in the model two calls with the same arguments agree, so the same `Fn(id)` under the same `_req` always gives the same value.
- Generator functions are opaque `Fn(id)` nodes called through the oracle `call(id, _req)`. They do not receive `root`, and the `Mock` field of `argv` is left out. Aliasing between `root` and the object being resolved is not modelled; sibling visibility is stated by `FunctionsSeeResolvedSiblings` and `ProcessingOrderSorted` instead.
- The real file system: `existsSync` and `readdirSync` read an abstract tree. `path.join` normalisation of `.`, `..` and separators is not modelled; segments are opaque names.
- The `return {success:false}` at index.js:240 cannot be reached in the model: a file that was just listed exists. `FinalMatched` states this.
- JavaScript object key order: objects are maps. Where enumeration order matters (`name_key_mapping` when several keys share a name, index.js:60-64), keys are taken in ascending order. Numbers are integers only; floating point is not modelled.
- `Template.Recursive`: an array is resolved element by element on a sequence value, not on a JavaScript array shared by reference, so in-place update and aliasing are not captured.
- `Template.RestoreArrayAsWritten`: requires each marker to be at most its own index, as Mock.js's repetition rules produce. For other markers the source writes ahead of the loop or extends a sparse array, and those writes are not modelled.
- `Template.ResolveNode`: its contract states only that the result holds no function. What the result is, is stated by the lemmas about it (`LastWriterWins`, `ResolveObjectKeys`, `PickedElement`, …).
- `ret.get` and `ret.cookies` (index.js:196-199): thin readers over the Express request.
- `TypeOf` tags other than Object, Array and Function (for example `AsyncFunction`) fall into the scalar case.
- `Strings.ToLower`: lower-cases only `A` to `Z`. JavaScript's `toLowerCase` also maps capitals outside ASCII.
- `Strings.LexLess`: strings are sequences of code points, whereas JavaScript compares and counts UTF-16 code units. The order and the lengths used by `RequestContext.QueryString` and `Strings.Trim` differ from JavaScript's for characters outside the Basic Multilingual Plane.
