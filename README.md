# RandomizeMe in Dafny

A model of RandomizeMe, a small JavaScript template engine with a toolkit
for random choices. The repository has two copies of the engine:

- `randomizeme.js`, the published module. Its `RTools.merge` is a deep
  merge.
- `index.js`, the older copy. Its `merge` is a shallow `Object.assign`,
  and its `configure` returns the engine's internal `self`, not the
  object `new` returns.

Each copy has two parts.

- **RTools**, the toolkit:
  - `merge` combines option objects;
  - `Number(min, max)` draws an integer;
  - `Choice(array, num, mode)` shuffles the index list of an array in
    place and returns one index or element, or a prefix of them.
- **RandomizeMe**, the engine:
  - an `options` record holds the tags (`{{` and `}}` by default) and the
    actions (`number` and `choice` by default);
  - `configure` merges new options over the current ones;
  - `render` finds every `open … close` occurrence in a template and
    replaces each one in turn by what its action yields.

Files and modules:

- `values.dfy` (`JsValues`): the JavaScript values the options hold, and
  truthiness, `typeof … === 'object'`, `for..in` and `===` on them.
- `deep_merge.dfy` (`DeepMerge`): the deep `merge`. It has a specification
  fold `MergeAll` and the source's loops as the methods `Merge`, `Walk`
  and `MergeProperty`.
- `shallow_merge.dfy` (`ShallowMerge`): the shallow `merge`, with the fold
  `AssignAll` and the loop `Merge`.
- `random_number.dfy` (`RandomNumber`): `Number`.
- `choice.dfy` (`Choice`): the in-place shuffle on an `array<nat>`, its
  specification `Shuffled`, and `Choice` itself.
- `text_ops.dfy` (`TextOps`): `trim`, `indexOf`, and `replace` with a
  string pattern, including the `$` patterns of the replacement.
- `scanner.dfy` (`Scanner`): `template.match(/open(.+?)close/g)` for tags
  the expression takes literally.
- `renderer.dfy` (`Renderer`): how one occurrence is resolved, the
  specification `Rendering`, and the loop of `render` as the methods
  `Render` and `Substitute`.
- `render_example.dfy` (`RenderExample`): a worked example of
  first-literal-match replacement.
- `engine.dfy` (`Engine`): the classes `RandomizeMe` (randomizeme.js) and
  `LegacyRandomizeMe` (index.js). Each has an `options` field that
  `Configure` reassigns. The module also holds the lemmas about
  configuring over the defaults.

Randomness is an input. `Number` takes the integer `draw` that
`Math.floor(Math.random() * (max - min))` produces. `Choice` takes the
draws `j <= i` of its shuffle loop. What an action yields is an input too:
`invoke(i)` is the string the call for the `i`-th occurrence returns, or
`None` when that call throws.

Behaviour of the code worth knowing (the model follows the code):

- `render` can throw. It throws when:
  - a registered bare-name action throws (that call is outside the
    `try`), or is truthy but not a function;
  - a bare name is looked up while `actions` is `undefined` or `null`;
  - a tag is missing, not a string, or empty (an empty tag gives a
    malformed regular expression);
  - the template is not a string (`template.match` is called on it),
    although the comment at randomizeme.js:352 gives the template the
    default `""`.
- `configure` does not fall back to the default tags. A shallow
  `configure` that sets only `tags.open` loses the close tag, and from
  then on every `render` throws (`LegacyConfigureDropsCloseTag`).
- `Choice` never clamps the count. The `switch` compares a number with
  booleans, so no case ever matches. A count larger than the list is cut
  by `slice`. A negative count stays negative, and `slice(0, count)` then
  drops elements from the end.
- The text put back for an occurrence goes through `replace` with a
  string pattern, which expands `$$`, `$&`, `` $` `` and `$'` in it. This
  holds for an unknown name kept as written too. With the default
  options, `{{ $& }}` renders as `{{ {{ $& }} }}`
  (`DollarInUnknownName`).
- Each occurrence replaces the first literal match of its text in the
  text as it stands, not the place where it was found
  (`InsertedTextIsReplaced`).
- `Number(min, max)` does not follow the range the comment at
  randomizeme.js:81 promises (`1..10` inclusive for `Number(1, 10)`):
  - for `min < max` the result lies in `[min + 1, max]`, so it is never `min`;
  - for `min == max` it is `min + 1`, above `max`;
  - for `max < min` it lies in `[max + 1, min + 1]`, so it can be `min`;
  - `Number()` always gives 1, while the comment at randomizeme.js:82-83
    says 0 or 1.

## Model

| member | source | states |
|---|---|---|
| DeepMerge.Merge | randomizeme.js:51-66 | The loop over the arguments computes `MergeAll(args)`, the fold of the arguments into `{}`. |
| DeepMerge.Walk | randomizeme.js:56-62 | The `for..in` loop over one argument, taking properties in any order, leaves `Into(merged, arg)` in the accumulator. |
| DeepMerge.MergeProperty | randomizeme.js:57-61 | A non-object value is copied as it is. An object value (including `null`) becomes the recursive merge of the accumulator's value with it. |
| DeepMerge.MergeKeys | randomizeme.js:56-62 | The merge holds exactly the union of the arguments' properties. |
| DeepMerge.LastPrimitiveWins | randomizeme.js:57-58 | A property whose value is not an object takes it from the last argument that has the property. |
| DeepMerge.NestedKeysCombine | randomizeme.js:59-60 | When every argument holding `k` holds an object there, the merged `k` has the nested properties of all of them. |
| DeepMerge.NestedKeysPair | randomizeme.js:59-60 | In the two-argument case, the nested properties under `k` are those of the first argument plus those of the second. |
| DeepMerge.NestedSurvives | randomizeme.js:59-60 | A nested property that the later argument does not mention keeps its earlier value. |
| DeepMerge.NestedOverrides | randomizeme.js:57-60 | A nested property that the later argument sets to a non-object takes that value. |
| DeepMerge.IntoNothingIsCopy | randomizeme.js:60 | `merge(undefined, v)` is a deep copy of `v`. |
| DeepMerge.MergeNormalized | randomizeme.js:52-65 | Every merge result is a plain object all the way down, and no `null` survives at any depth. A `null` value is merged like an object with no properties. |
| DeepMerge.NullKeepsEarlier | randomizeme.js:59-60 | A `null` merged over an object keeps that object, because `for..in` over `null` visits nothing. (Over nothing, `IntoNothingIsCopy` gives `{}`.) |
| DeepMerge.CopyNormalizedIsIdentity | randomizeme.js:60 | Copying an already merged object gives the same properties back. |
| DeepMerge.MergeWithNothing | randomizeme.js:51-66 | Merging a merged object with an argument that has no properties gives it back unchanged. |
| DeepMerge.DocumentedExample | randomizeme.js:36-47 | `merge({a:1}, {b:1}, {f: new f()})` is `{a:1, b:1, f:{property, method}}`. |
| ShallowMerge.Assignable | index.js:52 | An argument is taken if and only if it is an object (not `null`) or a function; `undefined`, `null` and primitives are skipped. |
| ShallowMerge.Merge | index.js:47-59 | The loop computes `AssignAll(args)`: `Object.assign` of each truthy object or function argument, in order. |
| ShallowMerge.AssignKeys | index.js:52-53 | A property is in the merge if and only if some argument has it. |
| ShallowMerge.LastWins | index.js:53 | Every property, object-valued or not, takes its value wholesale from the last argument that has it. |
| RandomNumber.NumberOr | randomizeme.js:88-89 | A truthy number argument is the bound itself. A falsy or non-number argument, `0` included, gives the default. |
| RandomNumber.Number | randomizeme.js:87-92 | The result is `draw + min + 1`, where `IsDraw` gives the values `Math.floor(Math.random() * (max - min))` can take. For `min < max` the result is in `[min + 1, max]`. Equal bounds give `min + 1`. For `max < min` it is in `[max + 1, min + 1]`. With both defaults it is 1. index.js:78-83 is the same. |
| RandomNumber.NumberRange | randomizeme.js:88-91 | For `min < max`, the values some draw produces are exactly `[min + 1, max]`, each from one draw only. |
| RandomNumber.ZeroMaxActsAsOne | randomizeme.js:89 | `max = 0` is falsy and acts as the default 1. |
| Choice.Shuffle | randomizeme.js:136-142 | The in-place swap loop turns `keys = [0..n)` into `Shuffled(draws)`. index.js:127-133 is the same. |
| Choice.ShuffledIsPermutation | randomizeme.js:136-142 | The shuffled list is a permutation of `[0..n)`, as multisets. |
| Choice.ShuffledDistinct | randomizeme.js:136-142 | No index occurs twice in the shuffled list. |
| Choice.ShuffleInjective | randomizeme.js:137-141 | Different valid draws give different orders. |
| Choice.ShuffleSurjective | randomizeme.js:137-141 | Every permutation of `[0..n)` comes from some valid draws. With `ShuffleInjective`, each of the `n!` orders has exactly one draw sequence. |
| Choice.KeyCount | randomizeme.js:124 | Only an array has keys, one per element. Anything else gives the empty key list. |
| Choice.Count | randomizeme.js:123 | The count is never 0. It is 1 for a non-number or `0`. Any other number is the count itself, negatives included. |
| Choice.ValueMode | randomizeme.js:122 | Only a boolean can select value mode, and then only `true`. A truthy non-boolean such as `1` does not. |
| Choice.SliceEnd | randomizeme.js:144 | The length `slice(0, end)` keeps: at most the list's length, and `min(end, len)` for a non-negative end. |
| Choice.ElementsAt | randomizeme.js:151-159 | The `while`/`shift`/`push` loop returns the elements at the chosen indices, in order. |
| Choice.Choice | randomizeme.js:121-160 | Gives the result for each mode and count. Index mode with count 1 gives `keys[0]` (or `undefined`); otherwise it gives the `slice` of the shuffled indices. Value mode with count 1 gives the element at `keys[0]`, or a `TypeError` for a `null`/`undefined` array; otherwise it gives the elements at the sliced indices, in order. The `switch` leaves the count as `Count(num)`, and a non-array has no keys. |
| Choice.PickedIndicesDistinct | randomizeme.js:143-159 | The returned indices are distinct and within the array. |
| TextOps.Trim | randomizeme.js:368 | The result has no white space at either end. Only white space surrounds it in the input. |
| TextOps.TrimIdempotent | randomizeme.js:368 | Trimming twice is trimming once. |
| TextOps.IndexOf | randomizeme.js:381 | Returns the leftmost occurrence at or after `from`, or `None` when there is none. |
| TextOps.Expand | randomizeme.js:381 | A replacement without `$` is inserted as it is. |
| TextOps.ReplaceFirst | randomizeme.js:381 | A pattern that does not occur leaves the string unchanged. |
| TextOps.ReplaceFirstAt | randomizeme.js:381 | The leftmost occurrence is cut out and the replacement put in its place. |
| TextOps.ReplaceWithItself | randomizeme.js:378-381 | Replacing a text by itself changes nothing, when it holds no `$`. |
| TextOps.ReplaceWhole | randomizeme.js:381 | Replacing the whole string gives the replacement. |
| Scanner.FindClose | randomizeme.js:360 | The lazy `.+?` stops at the first place the close tag follows, with no line terminator on the way. |
| Scanner.MatchAt | randomizeme.js:360 | A match is found at `p` if and only if one exists there, and the match it returns is one. |
| Scanner.MatchUnique | randomizeme.js:360 | A match is determined by where it starts. |
| Scanner.Scan | randomizeme.js:360-361 | The spans lie within the template. Each is the match at its start, and they do not overlap. |
| Scanner.Occurrences | randomizeme.js:361 | There is one occurrence per span of the scan. |
| Scanner.OccurrenceShape | randomizeme.js:360-361 | Each occurrence starts with the open tag and ends with the close tag. Between them it has at least one character and no line terminator. |
| Scanner.ScanLeftmost | randomizeme.js:361 | No match starts outside the spans, so every skipped position is one where the expression fails. |
| Scanner.MatchTextAnywhere | randomizeme.js:360 | The text of a match is a match wherever it occurs. |
| Scanner.FirstOccurrenceFirst | randomizeme.js:381 | The first occurrence's text first appears where the scan found it. |
| Renderer.Tag | randomizeme.js:358-359 | A tag that is read is the string stored under `options.tags`. When there is none, `tags` is not an object or the entry is not a string. |
| Renderer.RenderedNeedsTags | randomizeme.js:358-361 | `render` returns only when both tags are non-empty strings and the template is a string. Otherwise `split`, the `RegExp` constructor or `match` throws. |
| Renderer.ActionName | randomizeme.js:365-368 | The action name is trimmed already: it has no white space at either end. |
| Renderer.Resolve | randomizeme.js:369-380 | The call-form test `IsCallForm` models line 370. A call form never throws. The replacement is the occurrence itself, `""`, or what the action's call returned. A function whose call returns never makes `render` throw. |
| Renderer.Render | randomizeme.js:356-385 | `render` computes `Rendering(options, template, invoke)`. |
| Renderer.Substitute | randomizeme.js:363-383 | The loop over the occurrences computes `Steps`: resolve each in turn and replace its first literal match. |
| Renderer.NoMatchUnchanged | randomizeme.js:361-363 | A template where the expression matches nowhere is returned unchanged. |
| Renderer.NoOpenTagUnchanged | randomizeme.js:361-363 | A template without the open tag is returned unchanged. |
| Renderer.OccurrencesInTemplate | randomizeme.js:361 | Every character of an occurrence is in the template. |
| Renderer.UnknownNamesUnchanged | randomizeme.js:375-381 | In a template with no `$`, when every occurrence is a bare name that `actions` does not hold, the template comes back unchanged. |
| Renderer.WholeTagScan | randomizeme.js:360-368 | A template that is one tag around a name is its only occurrence, and its action name is the trimmed name. |
| Renderer.WholeTagNameTrimmed | randomizeme.js:365-368 | The action name of `open + name + close` is `name` when the name has no surrounding white space. |
| Renderer.CallFormRendering | randomizeme.js:370-373 | A template that is one call form renders as what the call returns, when that holds no `$`, or as `""` when the call throws. |
| Renderer.MissingActionsRendering | randomizeme.js:375 | A bare name looked up while `actions` is `undefined` or `null` makes `render` throw. |
| Renderer.UnknownNameExpands | randomizeme.js:377-381 | An unknown bare name is put back through `replace`, so the `$` patterns it holds are expanded, with the occurrence as the match. |
| Renderer.UnknownNameRendering | randomizeme.js:377-378 | In a template with no `$`, an unknown bare name stays verbatim. |
| Renderer.RegisteredNameRendering | randomizeme.js:375-376 | A registered bare name renders as what its call returns, when that holds no `$`, and `render` throws when that call throws. |
| Renderer.TwoOccurrences | randomizeme.js:364-382 | Two occurrences are replaced one after the other, left to right, each in the text as it stands. |
| RenderExample.DollarInUnknownName | randomizeme.js:377-381 | With the default options, `{{ $& }}` renders as `{{ {{ $& }} }}`: `$&` stands for the whole occurrence. |
| TextOps.ReplaceWholeExpanded | randomizeme.js:381 | Replacing the whole string gives the replacement expanded, with the whole string as the match and nothing before or after it. |
| RenderExample.InsertedTextIsReplaced | randomizeme.js:381 | In `{{a}} {{b}}`, when `a` returns `{{b}}`, the result of `b` replaces the inserted text and the template's own `{{b}}` stays. |
| Engine.RandomizeMe.constructor | randomizeme.js:387-389 | The options are the defaults, deep-merged with the argument when it is truthy. |
| Engine.RandomizeMe.Configure | randomizeme.js:319-321 | The options become `merge(options, opts \|\| {})` and stay a merged object. A falsy argument leaves them unchanged. |
| Engine.RandomizeMe.Render | randomizeme.js:356-385 | Renders with the current options. |
| Engine.LegacyRandomizeMe.constructor | index.js:247-249 | The options are the defaults, shallow-merged with the argument when it is truthy. |
| Engine.LegacyRandomizeMe.Configure | index.js:210-214 | The options become the shallow merge, and a falsy argument leaves the options unchanged. The engine's internal `self` is returned, not the object `new` returns. |
| Engine.LegacyRandomizeMe.Render | index.js:216-245 | Renders with the current options. |
| Engine.DeepConfigureKeepsCloseTag | randomizeme.js:319-321 | A deep `configure` that sets only the open tag keeps the default close tag and takes the new open tag. |
| Engine.LegacyConfigureDropsCloseTag | index.js:210-214 | A shallow `configure` that sets only the open tag loses the close tag, and every `render` then throws. |
| Engine.DeepConfigureKeepsActions | randomizeme.js:319-321 | A deep `configure` with new actions keeps `number` and `choice`: the actions are the defaults plus the new ones. |
| Engine.DeepConfigureKeepsDefaultAction | randomizeme.js:319-321 | A default action that the new actions do not name keeps its function. |
| Engine.LegacyConfigureReplacesActions | index.js:212 | A shallow `configure` with new actions replaces the whole `actions` object. |
| Engine.DefaultTagsLiteral | randomizeme.js:200-226 | The default tags are ones the regular expression takes literally. |

## Left out

- Renderer.Render: requires tags whose characters are not ASCII letters or digits. Each tag character gets a backslash, so some such characters turn into escapes with other meanings (`\d`, `\b`, `\1`).
- Renderer.Resolve: only the `actions` object's own properties count. Inherited names such as `toString`, and properties of a primitive `actions` (a string's indices or `length`), are treated as absent.
- `eval` of a call form and the call of a registered action are not modelled: `invoke(i)` gives their string result or their failure.
- Results that are not strings are not modelled: their conversion to text, and functions that `replace` would call as replacers. The index.js default actions return such functions.
- Actions that call `render` again are not modelled.
- Values hold no arrays, no fractions and no `NaN`. `Number` and `Choice` take integers, and `parseInt` of a fraction is not modelled.
- DeepMerge.Merge: `for..in` over a string argument, which gives index properties, is not modelled. Primitives contribute no properties.
- Choice.Choice: keys are the numbers `0..n-1`, where `Object.keys` gives the strings `"0"…`.
- Choice.Choice: in value mode with count 1, indexing a non-array object with `undefined` reads its `"undefined"` property. The model returns `undefined`.
- `Math.random` is replaced by integer draws. Uniformity is stated as a one-to-one correspondence between draws and results, not as probabilities.
- LegacyRandomizeMe.Configure: `Object.assign` copies references. After a shallow `configure`, `tags` and `actions` are the caller's own objects, and later changes to them would change `render`. Values cannot alias, so the model does not capture this.
- RandomNumber.Number: numbers are integers of any size. JavaScript doubles round `+ min + 1` above 2^53, so `Number` could return `min` there. `parseInt` reads a result of 1e21 or more from its exponent form (`1e+21` gives 1). Neither is modelled.
- Renderer.Render: the options are fixed for the whole call. The source reads `self.options` again for each occurrence, so an action that calls `configure` during `render` would change what later occurrences see.
- Functions have no own properties in the model. `for..in` and `Object.assign` over a function argument copy nothing, and looking up a name in an `actions` that is a function (`name`, `length`) finds nothing.
- Strings are sequences of characters. UTF-16 surrogate pairs are not modelled.
- Left out because they are packaging or a demonstration:
  - the module export wrappers;
  - the `{configure, render, tools}` object the constructor hands out;
  - the demonstration script under `test/`.
