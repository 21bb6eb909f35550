# transform-keys, modelled in Dafny

This project models the key rewriter of the `transform-keys` TypeScript
library (`src/transformKeys.ts`) and proves properties of it.

The library has two layers:

- **The recursive rewriter** `transformKeys(transformation, object)`:
  - arrays are mapped element by element;
  - a value whose `typeof` is not `'object'` is returned as it is;
  - anything else gets a fresh object. It is filled by
    `newObj[transformation(key)] = transformKeys(transformation, value)`
    over the own keys, in enumeration order.
- **Key transforms**, each built from a *splitter* and a *joiner*:
  - the splitters are `key.split('_')` and the upper-case boundary split
    `key.split(/(?=[A-Z])/)`;
  - the joiners are camelCase, PascalCase and snake_case;
  - on top of them sit the presets `fromSnakeCaseToCamelCase` and
    `fromSnakeCaseToPascalCase`, the curried `transformFromTo`, and the
    whole-value wrappers `transformFromCamelCaseToSnakeCase` and
    `transformFromSnakeCaseToCamelCase`.

## Layout

- `casing.dfy` (`Casing`): ASCII models of lodash `capitalize` and of `lowerCase` on one word.
- `splitters.dfy` (`Splitters`): covers three things.
  - `Split`: ECMAScript `split` with a one-character separator.
  - `SplitBeforeUpper`: the `/(?=[A-Z])/` split, as the ECMAScript `RegExp.prototype[@@split]` algorithm defines it.
  - `Join`.
- `keyed_objects.dfy` (`KeyedObjects`): covers plain objects.
  - A plain object is an association list of its own keys in enumeration order.
  - `Put` is `obj[k] = v`.
  - `Build` is the fold that assigns a list of entries into `{}`.
  - `ObjectBuilder` is the mutable accumulator, and its `Set` method performs the assignment in place.
- `values.dfy` (`Values`): the values the rewriter walks:
  - `Leaf` for everything whose `typeof` is not `'object'`;
  - `Null`;
  - `Arr`;
  - `Obj`.
- `rewriter.dfy` (`Rewriter`): `KeysTransformed` is the rewriter as a specification function. `TransformKeys` (with `TransformItems` and `TransformFields`) is the code, with the loop that fills the fresh object through `ObjectBuilder.Set`. Each method is proved equal to the function.
- `key_transforms.dfy` (`KeyTransforms`): covers the key-level layer.
  - `Transform` is `transformation(split(key))`, and `Curried` is `curry(transform)(split, transformation)`. Each has its own contract; the joiners, presets and wrappers are built on them.
  - It also holds the joiners, the presets, the wrappers and the round trips.
- `key_examples.dfy` (`KeyExamples`): worked examples: the test keys `city`, `country_code` and `zip_code`, two-word snake_case keys in general, and the boundary split of `FooBar`.

Three behaviours of the code are easy to misread, and the model follows the code in each:

- **`null`.** The code tests `typeof object !== 'object'`. That test is false for `null`, so `null` is not returned as it is. It reaches the object branch, has no keys there, and comes back as `{}` (`Rewriter.KeysTransformed`, `v.Null? ==> r == Obj([])`).
- **Boundary split.** ECMAScript skips a zero-width match at the position where the current part starts. So `"FooBar".split(/(?=[A-Z])/)` is `["Foo", "Bar"]`, with no leading empty part (`KeyExamples.FooBarBoundarySplit`). The snake→Pascal→snake round trip in the tests depends on this.
- **`capitalize`.** lodash `capitalize` upper-cases the first character and lower-cases the rest of the word, so `capitalize("fooBar")` is `"Foobar"`. The PascalCase joiner therefore lower-cases each part after its first character. The camelCase joiner does the same to every part but the first, which it keeps verbatim (`Casing.Capitalize`, `KeyTransforms.PascalJoin`).

## Model

| member | source | states |
|---|---|---|
| Casing.Capitalize | src/transformKeys.ts:15 | the result equals the word up to case, its first character is not a lower-case letter, and no later character is upper-case |
| Casing.LowerCase | src/transformKeys.ts:35 | the result equals the word up to case and holds no upper-case letter |
| Casing.CapitalizeLowerWord | src/transformKeys.ts:35 | on a word of lower-case letters, `lowerCase` undoes `capitalize`, `capitalize` makes the first letter upper-case, and `lowerCase` leaves the word unchanged |
| Splitters.Join | src/transformKeys.ts:23 | joining no parts gives `""` and joining one part gives that part |
| Splitters.JoinPrependPart | src/transformKeys.ts:35 | joining `[first] + rest` gives `first` alone when `rest` is empty and `first + sep + join(rest)` otherwise |
| Splitters.Split | src/transformKeys.ts:27 | `key.split('_')` gives at least one part, joining the parts with `'_'` gives the key back, no part holds `'_'`, and a key without `'_'` gives `[key]` |
| Splitters.SplitOfJoin | src/transformKeys.ts:27 | splitting the `'_'`-join of `'_'`-free parts gives exactly those parts back (empty parts included) |
| Splitters.SplitFirstWord | src/transformKeys.ts:27 | splitting `w + sep + rest` with `w` free of `sep` gives `w` followed by the parts of `rest` |
| Splitters.SplitBeforeUpper | src/transformKeys.ts:34 | the parts concatenate back to the key; the first part starts with the key's first character; every later part is non-empty and starts upper-case; no part has an upper-case letter after its first character; a non-empty key gives no empty part; a key with no upper-case letter after index 0 is one part |
| Splitters.SplitBeforeUpperOfJoin | src/transformKeys.ts:34 | the boundary split is the only decomposition of that shape: splitting the concatenation of such parts gives the same parts back |
| KeyedObjects.PutLookup | src/transformKeys.ts:58 | after `obj[k] = v`, `obj[k]` is `v` and every other key reads as before |
| KeyedObjects.PutKeys | src/transformKeys.ts:58 | `obj[k] = v` keeps the key order when `k` is present and appends `k` otherwise; it keeps keys unique; every entry afterwards is an old entry or `(k, v)` |
| KeyedObjects.PutAbsent | src/transformKeys.ts:58 | assigning a key the object does not have appends that entry last |
| KeyedObjects.ObjectBuilder.constructor | src/transformKeys.ts:60 | the accumulator starts as the empty object `{}` |
| KeyedObjects.ObjectBuilder.Set | src/transformKeys.ts:58 | the in-place search-and-overwrite-or-append produces exactly `Put` of the old entries |
| KeyedObjects.BuildKeys | src/transformKeys.ts:54-60 | the object built by the reduce has no key twice, has exactly the keys assigned, and holds only assigned entries |
| KeyedObjects.BuildLastWriteWins | src/transformKeys.ts:58 | a key holds the value of its last assignment |
| KeyedObjects.BuildKeyOrder | src/transformKeys.ts:54-60 | the key order of the built object is the assigned keys with repeats dropped, each at its first assignment |
| KeyedObjects.BuildDistinct | src/transformKeys.ts:54-60 | assigning distinct keys in turn rebuilds exactly the same entries |
| KeyedObjects.BuildPrefixStep | src/transformKeys.ts:54-60 | the reduce takes one step per key: the object built from the first `i + 1` entries is the one built from the first `i`, with entry `i` assigned into it |
| Rewriter.KeysTransformed | src/transformKeys.ts:48-61 | leaves come back unchanged; `null` becomes `{}`; arrays stay arrays of the same length and nothing else becomes an array; objects stay objects |
| Rewriter.ObjectKeys | src/transformKeys.ts:53-60 | the rewritten object has each key once, and its key set is exactly the set of `transformation(k)` over the original own keys |
| Rewriter.Renamed | src/transformKeys.ts:55-57 | entry `i` of the renamed list has key `transformation(key_i)` and value the rewrite of value `i` |
| Rewriter.ArrayElementwise | src/transformKeys.ts:51 | element `i` of a rewritten array is the rewrite of element `i` |
| Rewriter.ObjectKeyOrder | src/transformKeys.ts:53-60 | the rewritten object lists each new key once, at the position of the first original key that maps to it |
| Rewriter.LastWriteWins | src/transformKeys.ts:58 | a new key holds the rewritten value of the last original key that maps to it |
| Rewriter.InjectiveKeepsEntries | src/transformKeys.ts:53-60 | when the renaming has no collisions, the entry count is kept and entry `i` is key `i` renamed with its value rewritten |
| Rewriter.AgreeingTransforms | src/transformKeys.ts:48-61 | two transformations that agree on every key occurring in the value give the same result |
| Rewriter.KeysInImage | src/transformKeys.ts:55 | every key of the result, at every depth, has any property that every output of the transformation has |
| Rewriter.TransformedWellFormed | src/transformKeys.ts:53-60 | no object in the result, at any depth, repeats a key |
| Rewriter.RoundTrip | src/transformKeys.ts:48-61 | rewriting with `f` and then with `g` gives the value back when `g` undoes `f` on every occurring key, no object repeats a key and no `null` occurs |
| Rewriter.TransformKeys | src/transformKeys.ts:48-61 | the recursive method's result equals the specification `KeysTransformed` |
| Rewriter.TransformItems | src/transformKeys.ts:51 | the mapping loop over the array yields `KeysTransformed` of the array |
| Rewriter.TransformFields | src/transformKeys.ts:53-60 | the reduce loop that fills a fresh `ObjectBuilder` yields `KeysTransformed` of the object (or of `null`) |
| KeyTransforms.Transform | src/transformKeys.ts:8-11 | the transform of a key is the transformation applied to the splitter's parts of that key |
| KeyTransforms.Curried | src/transformKeys.ts:44 | the curried transform, given a splitter and a transformation, is the function that renames every key `k` to `transform(split, transformation, k)` |
| KeyTransforms.CamelJoin | src/transformKeys.ts:14-17 | no parts give `""`; otherwise the result is the first part verbatim followed by the PascalCase join of the remaining parts (each one capitalized); the result equals the concatenated parts up to case |
| KeyTransforms.PascalJoin | src/transformKeys.ts:21-24 | no parts give `""`; otherwise the result is the first part capitalized followed by the PascalCase join of the rest, so every part is capitalized; the result equals the concatenated parts up to case and does not start with a lower-case letter when the first part is non-empty |
| KeyTransforms.SnakeJoin | src/transformKeys.ts:35 | the result equals the parts joined with `'_'` up to case and holds no upper-case letter |
| KeyTransforms.SnakeSplit | src/transformKeys.ts:27 | the `'_'` splitter gives at least one part, no part holds `'_'`, and joining the parts with `'_'` gives the key back |
| KeyTransforms.ToCamelCase | src/transformKeys.ts:13-18 | for any splitter: no parts give `""`; otherwise the first part verbatim, then each later part capitalized; the result equals the concatenated parts up to case |
| KeyTransforms.ToPascalCase | src/transformKeys.ts:20-25 | for any splitter: no parts give `""`; otherwise every part capitalized and concatenated; the result equals the concatenated parts up to case |
| KeyTransforms.FromSnakeCaseToCamelCase | src/transformKeys.ts:26-28 | the result is the key's first `'_'`-word verbatim followed by every later word capitalized; it has no `'_'` and equals the key without its underscores up to case; a key without `'_'` is unchanged |
| KeyTransforms.FromSnakeCaseToPascalCase | src/transformKeys.ts:29-31 | the result is every `'_'`-word of the key capitalized and concatenated; it has no `'_'` and equals the key without its underscores up to case; a key without `'_'` is capitalized |
| KeyTransforms.PascalOfSnakeWords | src/transformKeys.ts:29-31 | a leading `'_'`-free word `w` of the key becomes `capitalize(w)` in front of the PascalCase of the rest of the key |
| KeyTransforms.CamelOfSnakeWords | src/transformKeys.ts:26-31 | a leading `'_'`-free word `w` of the key stays `w`, followed by the PascalCase of the rest of the key |
| KeyTransforms.CamelToSnakeKey | src/transformKeys.ts:34-35 | the key transformation of the camel-to-snake wrapper gives no upper-case letter, equals the boundary parts joined with `'_'` up to case, and lower-cases a key with no inner upper-case letter |
| KeyTransforms.TransformFromTo | src/transformKeys.ts:43-46 | the result has no repeated key at any depth, leaves are unchanged, `null` becomes `{}`, and arrays stay arrays |
| KeyTransforms.FromToIsComposition | src/transformKeys.ts:43-46 | currying is plain partial application: each key `k` is renamed to `transformation(split(k))` |
| KeyTransforms.FromToKeys | src/transformKeys.ts:43-46 | every key of the result, at every depth, has any property that every output of the joiner has |
| KeyTransforms.TransformFromCamelCaseToSnakeCase | src/transformKeys.ts:33-37 | leaves are unchanged, `null` becomes `{}`, arrays stay arrays and nothing else becomes one; no key of the result, at any depth, holds an upper-case letter, and no object repeats a key |
| KeyTransforms.TransformFromSnakeCaseToCamelCase | src/transformKeys.ts:39-41 | leaves are unchanged, `null` becomes `{}`, arrays stay arrays and nothing else becomes one; no key of the result, at any depth, holds `'_'`, and no object repeats a key |
| KeyTransforms.SnakeToCamelIsFromTo | src/transformKeys.ts:39-41 | the snake-to-camel wrapper equals the general transform with the `'_'` split and the camelCase joiner |
| KeyTransforms.CamelToSnakeIsKeyRewrite | src/transformKeys.ts:33-37 | the camel-to-snake wrapper is the rewriter applied with the key transformation `CamelToSnakeKey` |
| KeyTransforms.SnakeCamelKeyRoundTrip | src/transformKeys.ts:26-37 | a snake_case key (lower-case words joined by single `'_'`) comes back from camelCase through the boundary split and the snake_case joiner |
| KeyTransforms.SnakePascalKeyRoundTrip | src/transformKeys.ts:29-37 | a snake_case key comes back from PascalCase through the boundary split and the snake_case joiner |
| KeyTransforms.SnakeCamelRoundTrip | test/transformKeys.test.ts:445-461 | snake→camel then camel→snake gives back every value whose keys are all snake_case, whose objects repeat no key and which holds no `null` |
| KeyTransforms.SnakePascalRoundTrip | test/transformKeys.test.ts:422-443 | under the same conditions, snake→Pascal with `transformFromTo`, then boundary split, lower-case and `'_'` join, gives the value back |
| KeyExamples.CamelOfTwoWords | src/transformKeys.ts:26-28 | a two-word snake_case key becomes the first word followed by the second word capitalized |
| KeyExamples.PascalOfTwoWords | src/transformKeys.ts:29-31 | a two-word snake_case key becomes both words capitalized |
| KeyExamples.CityToCamel | test/transformKeys.test.ts:223 | `city` is unchanged by the snake-to-camel preset |
| KeyExamples.CountryCodeToCamel | test/transformKeys.test.ts:225 | `country_code` becomes `countryCode` |
| KeyExamples.ZipCodeToPascal | test/transformKeys.test.ts:336 | `zip_code` becomes `ZipCode` |
| KeyExamples.FooBarBoundarySplit | src/transformKeys.ts:34 | the boundary split of `FooBar` is `["Foo", "Bar"]`, with no leading empty part |

## Left out

- Casing.Capitalize: lodash `capitalize` is modelled on ASCII letters only. Unicode case mapping is not modelled.
- Casing.LowerCase: lodash `lowerCase` is modelled on ASCII letters only, character by character. lodash also splits its argument into words, at non-letters and at case changes, and joins them with spaces: `lowerCase('__FOO_BAR__')` is `'foo bar'` and `lowerCase('fooBar')` is `'foo bar'`, where the model gives `"foobar"`. The model agrees with lodash only on strings of ASCII letters with no upper-case letter after the first character. Every part of the boundary split of a letters-only key has that shape (`Splitters.SplitBeforeUpper` ensures no part has an upper-case letter after its first character), so the round trips are unaffected.
- JavaScript key enumeration order (integer-like keys first, symbol keys skipped) is not modelled. An object is its own keys in insertion order.
- Prototype keys, non-enumerable keys and the special `__proto__` key are not modelled.
- Non-plain objects such as `Date`, class instances and typed arrays are not modelled as such. Their `typeof` is `'object'`, so the code rebuilds them as fresh plain objects from their lodash `keys`. In the model they are `Obj` values holding those keys, never leaves: a `Date` is `Obj([])`, and a typed array is an `Obj` keyed `"0"`, `"1"`, and so on.
- Cyclic object graphs are not modelled, because the datatype is finite. On them the recursion of the code never reaches a leaf; it runs out of call stack and throws a `RangeError`, as for deep nesting below.
- Numbers are opaque `real` leaves. Nothing is computed with them.
- Functions, symbols and bigints are opaque leaves.
- lodash `curry`, `map`, `reduce`, `keys` and `isArray` are modelled as plain partial application, sequence comprehension, a loop or fold, the own key list, and the `Arr` constructor.
- lodash `map` over a sparse array turns each hole into `undefined`. A sequence has no holes, so sparse arrays are not modelled.
- Deeply nested values overflow the host's call stack in the recursive code. The model has unbounded recursion, so stack overflow is not modelled.
- TypeScript generics and `as` casts are not modelled. They have no run-time effect.
