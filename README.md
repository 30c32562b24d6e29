# Champion/challenger comparison tables of the promote-request page

A promote request asks to replace the *champion* (the deployed model version)
with a *challenger* (the candidate version). The review page shows both
versions side by side. It has a tag whose colour depends on each version's
stage, a table of metrics and a table of parameters. Each table has one row
per metric or parameter name. A row carries the champion's value, the
challenger's value and, for metrics, the change between them. The rows whose
two values differ come preselected.

This project models the logic that builds those tables. It is written in
Dafny and proves properties of the model. The parts are:

- `Wrappers`: `Option`, standing for a JavaScript value that may be `null` or
  `undefined`.
- `Sequences`: `filter`, `map` and the subsequence relation.
- `StringOrder`: the string order that the default `Array.prototype.sort`
  uses. Also the ascending sequence of a set of strings, and the insertion
  step that builds it.
- `ShowRequest`: `getColor`, `diffMetrics`, `diffParams` and the two
  row-selection expressions.

A `Record<string, T>` is modelled as `map<string, Option<T>>`. A key whose
value is `null` or `undefined` is still a key of the object, so it still gets
a row, with an empty cell. JavaScript reads a missing key as `undefined`, and
`!= null` treats it like `null`. `Lookup` therefore gives `None` for a missing
key and for a null value alike.

The page receives `toFixed(4)`, number subtraction and `value + ''` from the
JavaScript runtime. The model does not interpret them: they are parameters
(`NumberFormat.toFixed4`, `NumberFormat.minus`, `toText`).

Each diff function is written as a method, as the source writes it. The method
falls back to an empty map for an absent argument. It takes the sorted union of
keys (`SortedKeys`), then runs a loop that pushes one row per key
(`PushMetricRows`, `PushParamRows`). The method is proved equal to a
specification: `MetricTable` or `ParamTable`. That specification is built from
the ascending key sequence `SortedSeq` and the per-key row `MetricRow` or
`ParamRow`. The lemmas then prove facts about the specification: which keys
appear, in what order, the content of each cell, and which rows are selected.

The two blocks marked `TODO: Remove` look like debugging leftovers. They are
modelled as written, because they are what the page does:

- in the metrics table, a champion value that formats as `0.5005` is shown as
  `0.6005`, and its change as `0.1000`;
- in the parameters table, the champion value of `fit_intercept` is shown as
  `False`.

## Model

| member | source | states |
|---|---|---|
| `ShowRequest.GetColor` | checkpoint/frontend/src/pages/ShowRequest/ShowRequest.tsx:14-30 | the colour is always one of `success`, `warning`, `default` |
| `ShowRequest.GetColorCases` | checkpoint/frontend/src/pages/ShowRequest/ShowRequest.tsx:14-30 | `success` exactly for `production` in any casing, `warning` exactly for `staging` in any casing, `default` for every other string and for `undefined` |
| `ShowRequest.ToLowerCase` | checkpoint/frontend/src/pages/ShowRequest/ShowRequest.tsx:16 | lower-casing keeps the word in any casing and its length, leaves no upper-case ASCII letter, and changes no other character |
| `ShowRequest.ToLowerCaseMatches` | checkpoint/frontend/src/pages/ShowRequest/ShowRequest.tsx:16 | lower-casing a stage gives a lower-case word exactly when the stage is that word in some casing |
| `StringOrder.Less` | checkpoint/frontend/src/pages/ShowRequest/ShowRequest.tsx:87 | a proper prefix sorts before the longer string |
| `StringOrder.LessFirstDifference` | checkpoint/frontend/src/pages/ShowRequest/ShowRequest.tsx:87 | `a` sorts before `b` exactly when `a` is a proper prefix of `b`, or `a` has the smaller character at the first position where the two differ, as the default sort comparator decides |
| `StringOrder.LessIrreflexive` | checkpoint/frontend/src/pages/ShowRequest/ShowRequest.tsx:87 | no string sorts before itself |
| `StringOrder.LessAsymmetric` | checkpoint/frontend/src/pages/ShowRequest/ShowRequest.tsx:87 | two strings never sort before each other |
| `StringOrder.LessTransitive` | checkpoint/frontend/src/pages/ShowRequest/ShowRequest.tsx:87 | the sort order is transitive |
| `StringOrder.LessTotal` | checkpoint/frontend/src/pages/ShowRequest/ShowRequest.tsx:87 | any two different strings are ordered one way or the other |
| `StringOrder.StrictlySortedDistinct` | checkpoint/frontend/src/pages/ShowRequest/ShowRequest.tsx:87 | a sorted key list holds no key twice, so the `Set` de-duplication is kept by the sort |
| `StringOrder.Insert` | checkpoint/frontend/src/pages/ShowRequest/ShowRequest.tsx:87 | inserting a new key into a sorted list gives a sorted list with one more element, holding exactly the old keys and the new one |
| `StringOrder.SortedSeq` | checkpoint/frontend/src/pages/ShowRequest/ShowRequest.tsx:87 | the sorted keys of a set are strictly ascending, hold exactly the set's elements, and number as many as the set has |
| `StringOrder.SortedUnique` | checkpoint/frontend/src/pages/ShowRequest/ShowRequest.tsx:87 | two strictly ascending lists with the same elements are equal, so the sorted key list does not depend on the order `Object.keys` returns the keys in |
| `StringOrder.SubsequenceOfSorted` | checkpoint/frontend/src/pages/ShowRequest/ShowRequest.tsx:164 | a list filtered from an ascending list is still ascending |
| `Sequences.Filter` | checkpoint/frontend/src/pages/ShowRequest/ShowRequest.tsx:164 | `filter` keeps exactly the elements that pass the test and never lengthens the list |
| `Sequences.MapSeq` | checkpoint/frontend/src/pages/ShowRequest/ShowRequest.tsx:164 | `map` keeps the length and applies the function at every position |
| `Sequences.FilterIsSubsequence` | checkpoint/frontend/src/pages/ShowRequest/ShowRequest.tsx:164 | `filter` keeps the original order: its result is a subsequence of its input |
| `Sequences.MapPreservesSubsequence` | checkpoint/frontend/src/pages/ShowRequest/ShowRequest.tsx:164 | `map` carries a subsequence to a subsequence |
| `Sequences.SubsequenceMembers` | checkpoint/frontend/src/pages/ShowRequest/ShowRequest.tsx:164 | every element of a subsequence occurs in the original |
| `ShowRequest.Lookup` | checkpoint/frontend/src/pages/ShowRequest/ShowRequest.tsx:91 | a value is found exactly when the key is present and its value is non-null, and it is then the stored value |
| `ShowRequest.OrEmpty` | checkpoint/frontend/src/pages/ShowRequest/ShowRequest.tsx:81-86 | an absent map is read as a map with no keys, a present map as itself |
| `ShowRequest.SortedKeys` | checkpoint/frontend/src/pages/ShowRequest/ShowRequest.tsx:87 | the de-duplicated, sorted union of both key sets is the ascending sequence of their union |
| `ShowRequest.MetricRow` | checkpoint/frontend/src/pages/ShowRequest/ShowRequest.tsx:89-115 | the row is named by its key. Each cell is present exactly when its value is non-null, and the challenger cell is that value formatted. The champion cell is the formatted value, except that a champion formatting as `0.5005` shows `0.6005` with change `0.1000`, so `0.5005` never shows. There is a change exactly when the champion is overridden or both values are non-null, and it is then the formatted champion minus challenger; a change never appears without a champion value |
| `ShowRequest.MetricTable` | checkpoint/frontend/src/pages/ShowRequest/ShowRequest.tsx:87-116 | the metric table has one row per distinct key of either map, and none when both maps have no keys |
| `ShowRequest.DiffMetrics` | checkpoint/frontend/src/pages/ShowRequest/ShowRequest.tsx:80-118 | the result is the metric table of the two maps, an absent map read as empty; when both maps are absent the result is empty |
| `ShowRequest.PushMetricRows` | checkpoint/frontend/src/pages/ShowRequest/ShowRequest.tsx:88-116 | the loop pushes, in key order, exactly the row of each key |
| `ShowRequest.MetricRows` | checkpoint/frontend/src/pages/ShowRequest/ShowRequest.tsx:88-116 | one row is pushed per key |
| `ShowRequest.MetricRowsAt` | checkpoint/frontend/src/pages/ShowRequest/ShowRequest.tsx:110-115 | row `i` is named by the `i`-th key and built from that key's values |
| `ShowRequest.MetricTableKeys` | checkpoint/frontend/src/pages/ShowRequest/ShowRequest.tsx:87-89 | the row names are exactly the keys of either map, strictly ascending, and there are as many rows as distinct keys |
| `ShowRequest.MetricRowOf` | checkpoint/frontend/src/pages/ShowRequest/ShowRequest.tsx:87-89 | every key of either map names exactly one row |
| `ShowRequest.MetricCells` | checkpoint/frontend/src/pages/ShowRequest/ShowRequest.tsx:95-108 | the challenger cell is present exactly when the challenger value is non-null, and is that value formatted. The champion cell is present exactly when the champion value is non-null, and is that value formatted, except that `0.5005` shows as `0.6005` |
| `ShowRequest.MetricChange` | checkpoint/frontend/src/pages/ShowRequest/ShowRequest.tsx:90-102 | a champion formatted as `0.5005` sets the change to `0.1000` even without a challenger value. Otherwise the change is present exactly when both values are non-null, and is then the formatted champion minus challenger |
| `ShowRequest.MetricRowSelection` | checkpoint/frontend/src/pages/ShowRequest/ShowRequest.tsx:164 | the selection is a subsequence of the row names, and holds exactly the names of rows whose two cells differ |
| `ShowRequest.MetricDiffers` | checkpoint/frontend/src/pages/ShowRequest/ShowRequest.tsx:164 | a row with both cells empty never differs, and a row with exactly one cell shown always does |
| `ShowRequest.MetricSelected` | checkpoint/frontend/src/pages/ShowRequest/ShowRequest.tsx:164 | on the metric table, a key is selected exactly when it is a key of either map and its row's two cells differ |
| `ShowRequest.MetricSelectionOrdered` | checkpoint/frontend/src/pages/ShowRequest/ShowRequest.tsx:164 | on the metric table, the selection keeps row order and is strictly ascending |
| `ShowRequest.MetricAbsentNotSelected` | checkpoint/frontend/src/pages/ShowRequest/ShowRequest.tsx:164 | a key that is null in both maps is never selected, because two absent cells compare equal |
| `ShowRequest.DiffParams` | checkpoint/frontend/src/pages/ShowRequest/ShowRequest.tsx:126-157 | the result is the parameter table of the two maps, an absent map read as empty; when both maps are absent the result is empty |
| `ShowRequest.PushParamRows` | checkpoint/frontend/src/pages/ShowRequest/ShowRequest.tsx:134-155 | the loop pushes, in key order, exactly the row of each key |
| `ShowRequest.ParamRow` | checkpoint/frontend/src/pages/ShowRequest/ShowRequest.tsx:135-154 | the row is named by its key. Each cell is present exactly when its value is non-null, and is then that value as text, except that the champion cell of `fit_intercept` reads `False` |
| `ShowRequest.ParamTable` | checkpoint/frontend/src/pages/ShowRequest/ShowRequest.tsx:133-155 | the parameter table has one row per distinct key of either map, and none when both maps have no keys |
| `ShowRequest.ParamRows` | checkpoint/frontend/src/pages/ShowRequest/ShowRequest.tsx:134-155 | one row is pushed per key |
| `ShowRequest.ParamRowsAt` | checkpoint/frontend/src/pages/ShowRequest/ShowRequest.tsx:150-154 | row `i` is named by the `i`-th key and built from that key's values |
| `ShowRequest.ParamTableKeys` | checkpoint/frontend/src/pages/ShowRequest/ShowRequest.tsx:133-135 | the row names are exactly the keys of either map, strictly ascending, and there are as many rows as distinct keys |
| `ShowRequest.ParamRowOf` | checkpoint/frontend/src/pages/ShowRequest/ShowRequest.tsx:133-135 | every key of either map names exactly one row |
| `ShowRequest.ParamCells` | checkpoint/frontend/src/pages/ShowRequest/ShowRequest.tsx:136-148 | each cell is present exactly when its value is non-null, and is that value as text. The one exception is the champion cell of `fit_intercept`, which reads `False` whatever the value |
| `ShowRequest.ParamRowSelection` | checkpoint/frontend/src/pages/ShowRequest/ShowRequest.tsx:169 | the selection is a subsequence of the row names, and holds exactly the names of rows whose two cells differ |
| `ShowRequest.ParamDiffers` | checkpoint/frontend/src/pages/ShowRequest/ShowRequest.tsx:169 | a row with both cells empty never differs, and a row with exactly one cell shown always does |
| `ShowRequest.ParamSelected` | checkpoint/frontend/src/pages/ShowRequest/ShowRequest.tsx:169 | on the parameter table, a key is selected exactly when it is a key of either map and its row's two cells differ |
| `ShowRequest.ParamSelectionOrdered` | checkpoint/frontend/src/pages/ShowRequest/ShowRequest.tsx:169 | on the parameter table, the selection keeps row order and is strictly ascending |
| `ShowRequest.ParamAbsentNotSelected` | checkpoint/frontend/src/pages/ShowRequest/ShowRequest.tsx:169 | a key that is null in both maps is never selected |

## Left out

- The JSX of the `ShowRequest` component (ShowRequest.tsx:159-276), that is the cards, tags, tables and review form. It is presentation built on a UI component library that is not part of this model. The model covers only the values the component computes and hands to that library.
- All of ShowRequestVM.tsx: the state-store binding, the fetch-on-mount effect, the route parameter with its `parseInt`, and the `requests.find` lookup. These are glue around a state library and a router, or asynchronous I/O.
- `toFixed(4)`, floating-point subtraction and `value + ''` are parameters the model does not interpret. Rounding, and whether a given number formats as `0.5005`, are not modelled.
- ShowRequest.GetColor: lower-cases ASCII letters only, where `toLowerCase` applies the full Unicode case mapping. Only two non-ASCII characters lower-case to something that contains an ASCII letter: U+0130 (to `i` followed by a combining dot) and U+212A (to `k`). Neither can make a stage read `production` or `staging`, so the colour should be the same. That argument is not proved.
- StringOrder.Less: compares characters by code point, where `Array.prototype.sort` compares UTF-16 code units. For well-formed strings the two orders differ only between characters above U+FFFF and characters from U+E000 to U+FFFF. JavaScript keys may also hold lone surrogates, which a Dafny `char` cannot represent; such keys are not modelled.
- ShowRequest.Lookup: a key missing from a map reads as absent. In JavaScript, `champion[key]` also finds properties inherited from `Object.prototype`, such as `constructor` or `toString`. So a key with such a name present in only one map would find a function in the other map, on either side. For metrics, `toFixed` would then throw (ShowRequest.tsx:97 for the champion, :107 for the challenger); for parameters, the function's source text would be shown (:138 or :147). Maps whose keys collide with inherited property names are not modelled.
- The distinction between `null` and `undefined` is not kept: the source only ever tests values with `!= null`, which treats the two alike.
- Values whose runtime type differs from the declared `Record<string, number>` are not modelled, for example a string in a metrics map.
