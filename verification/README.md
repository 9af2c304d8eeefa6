# scour `filter` — a Dafny model

scour wraps nested JSON-like data in a traversal handle. Its `.filter()`
rests on one utility, `utilities/filter.js`. The utility takes a collection
and a predicate `fn(val, key)`. It returns a fresh collection with only the
entries the predicate accepts:

- **Array result**: the kept values are pushed onto a fresh array. They end up
  densely re-indexed, in visiting order.
- **Object result**: the kept values are assigned to a fresh object under
  their original keys.
- **Shape**: the optional `_isArray` flag picks the result shape when it is
  given. Otherwise `Array.isArray` of the input picks it.

The model is written as pure functions over immutable sequences:

- `Wrappers`: `Option`, where `None` stands for `undefined`.
- `Decimal`: the decimal property name of an array index (`String(i)`), and
  its parser.
- `Objects`: a plain object as an ordered `seq<(string, V)>` in iteration
  order. It has property lookup (`obj[k]`) and property assignment
  (`obj[k] = v`). Assignment overwrites an existing property in its slot and
  otherwise appends the new one.
- `Collections`: the collection shapes (`Array`, `Object`) and the key given
  to the predicate (`Index(i)` or `Name(s)`). `Each` lists what the iteration
  visits, in order.
- `Filtering`: the filter itself, the reference set of kept positions, and
  the properties.

The predicate is an arbitrary total Dafny function `(V, Key) -> bool`.
Both branches are tied to one reference, `KeptPositions`. It is the strictly
ascending sequence of exactly those positions whose pair the predicate
accepts. Every property below is proved against it.

scour's `.filter()` is described as returning a collection of the source's
shape. The utility itself lets `_isArray` override that shape. The model
follows the utility's code, including the two cross-shape cases:

- An object forced into an array gives its kept values in order.
- An array forced into an object gives the kept elements under the property
  names `"0"`, `"1"`, and so on.

## Model

| member | source | states |
|---|---|---|
| `Decimal.Show` | utilities/filter.js:17 | A numeric key used as a property name becomes a non-empty string of digits. It has a leading zero only when the index is zero. |
| `Decimal.ParseShow` | utilities/filter.js:17 | Reading back the property name of an index gives the index. |
| `Decimal.ShowInjective` | utilities/filter.js:17 | Two different indices never become the same property name. |
| `Objects.FindKey` | utilities/filter.js:17 | The slot of property `k` is the first entry named `k`. There is no slot exactly when `k` is not a property name. |
| `Objects.Lookup` | test/index_test.js:126-130 | Reading `obj[k]` gives `undefined` exactly when `k` is not a property. Otherwise it gives a value stored under `k`. |
| `Objects.LookupDistinct` | test/index_test.js:138-140 | When names are distinct, reading an entry's name gives that entry's value. |
| `Objects.Put` | utilities/filter.js:17 | `obj[k] = v` on an existing name keeps its slot, so the names and their order are unchanged. A new name is appended after all the others. |
| `Objects.PutReads` | utilities/filter.js:17 | After `obj[k] = v`, reading `k` gives `v` and every other read is unchanged. |
| `Objects.PutKeepsDistinct` | utilities/filter.js:17 | Assignment never gives an object two properties with the same name. |
| `Objects.LookupSelection` | utilities/filter.js:15-17 | In an object built from some entries of a larger object, a name is present exactly when its slot in the larger object was selected. It then has the same value. |
| `Collections.EachFacts` | utilities/filter.js:16-17 | The visited values are the collection's values in order. Object keys are visited under their own names. In a well-formed collection no two visited keys become the same property name. |
| `Filtering.KeptPositions` | utilities/filter.js:11-12 | The kept positions are strictly ascending and in range. A position is among them exactly when the predicate accepts that position's value and key. |
| `Filtering.Filter` | utilities/filter.js:4-21 | A supplied `_isArray` alone decides whether the result is an array. Without it, the result is an array exactly when the input is one. |
| `Filtering.PushKeptSelects` | utilities/filter.js:10-13 | The pushed array has one element per kept position. Each element is the value at that position, in input order. |
| `Filtering.AssignKeptSelects` | utilities/filter.js:15-18 | When the input's names are distinct, the assigned object has one entry per kept position, in input order. Each entry is that position's value under the position's own property name, so no assignment overwrites. |
| `Filtering.AssignKeptAppends` | utilities/filter.js:16-17 | Visiting one more pair appends it when kept, because its name is not yet present, and changes nothing otherwise. |
| `Filtering.FilterArrayBranch` | utilities/filter.js:9-13 | An array result is exactly the subsequence of input values at the kept positions, in order. It is never longer than the input, and each of its elements occurs in the input. |
| `Filtering.FilterObjectBranch` | utilities/filter.js:14-18 | An object result holds the kept pairs under their own property names, in input order, with distinct names. |
| `Filtering.ObjectFilterEntries` | test/index_test.js:138-143 | An object filtered into an object keeps the input's own entries at the kept positions, in input order. Keys are preserved, not renumbered. |
| `Filtering.ObjectFilterLookup` | test/index_test.js:121-145 | In a filtered object, property `k` is present exactly when the input has it and the predicate accepts its value and `k`. It then holds the input's value. Rejected and unknown names read as `undefined`. |
| `Filtering.ArrayAsObjectLookup` | utilities/filter.js:14-18 | An array filtered into an object holds element `i` under the decimal name of `i` exactly when `i` is in range and the predicate accepts it. |
| `Filtering.ArrayAsObjectKeys` | utilities/filter.js:17 | Every property of an array filtered into an object is the canonical decimal name of an in-range index. |
| `Filtering.FilterNoneKept` | test/index_test.js:159-166 | A predicate that rejects every pair gives an empty array or an empty object. |
| `Filtering.FilterAllKept` | utilities/filter.js:9-18 | A predicate that accepts every pair gives back the input when the shape is not overridden: the same array, or the same entries in the same order. |

## Left out

- Line 7 of `utilities/filter.js` lets `each` be an iteration function. That case is not modelled, and neither is the `./each` helper it binds. `utilities/each.js` is not part of this model. The input is a materialised array or object, visited in index or property order (`Collections.Each`).
- Iteration over strings is not modelled, for the same reason.
- The receiver and any extra arguments passed through `fn.apply(this, arguments)` are not modelled. The predicate is a pure function of value and key. A predicate's side effects and exceptions are out of scope.
- Truthiness is reduced to booleans. The predicate returns `bool` rather than an arbitrary truthy value. `_isArray` is `None` (undefined) or a boolean; other flag values such as `null` or `0` would act through their truthiness.
- Some JavaScript object quirks are not modelled: `__proto__` and other special property names, holes in sparse arrays, and the engine's ordering of integer-like property names ahead of other names. An object's iteration order is taken to be its entry order.
- The traversal wrapper (`go`, `get`, `at`, `getAt`, `each`, `map`, `find`, `len`, `extend`, `toJSON`, `keypath`, `root`) is not modelled. `lib/index.js` and `scour.js` are not part of this model. The tests cited above reach the filter through that wrapper.
- The `$regex` matching language used by the tests' predicates is not modelled. It belongs to an external matcher; the model accepts any predicate.
