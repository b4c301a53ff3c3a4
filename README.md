# TagPicker interaction model

This project is a Dafny model of the `TagPicker` React component in
`components/ui/tag-picker.tsx`. The component is a searchable, grouped,
multi-select tag dropdown with keyboard navigation. It keeps a fixed tag pool
and five pieces of state:

- `selectedTags`: the pills, in the order they were added.
- `filteredTags`: the pool entries whose name contains the search text.
- `searchTerm`: the lower-cased text in the input.
- `isDropdownOpen`: whether the dropdown is visible.
- `highlightedIndex`: an index into `filteredTags`, or null.

Each event handler is one atomic transition of that state.

Layout, one module per file:

- `wrappers.dfy` (`Wrappers`): `Option`, the model of `number | null`.
- `seqs.dfy` (`Seqs`): `Keep`, the order-preserving filter (`Array.prototype.filter`), and the subsequence relation.
- `text.dfy` (`Text`): `Lower` (`toLowerCase` on ASCII letters) and `Contains` (`includes`).
- `tags.dfy` (`Tags`): the `Tag` record, the initial pool, the search filter, and the selection updates.
- `highlight.dfy` (`Highlight`): the ArrowDown/ArrowUp index arithmetic and what Enter finds under the highlight.
- `grouping.dfy` (`Grouping`): the `reduce` that groups the filtered tags into an object keyed by group name, and `Object.entries` over it.
- `picker.dfy` (`Picker`): the class `TagPicker`, with one field per state variable and one method per handler, plus client methods whose verification walks event sequences through the handlers' contracts.

The class invariant `Valid()` says three things:

- The listed tags are always the pool filtered by the search term on display.
- The selection has distinct identifiers.
- The selection holds only pool tags.

The highlight is deliberately left unconstrained, because the code does not keep it in range.

Behaviour the model keeps as the code has it:

- A search does not reset `highlightedIndex` (line 39), so after a search the highlight can point past the end of the shorter list. `Picker.StaleHighlightScenario` walks through this: one tag is selected, two ArrowDown presses follow, then a search that leaves one tag, then Enter, which reads `undefined` and leaves the selection as it was.
- ArrowUp from null or 0 on an empty list gives -1 (line 70).
- From an index at or past the end, ArrowDown keeps increasing and never comes back into the list, while ArrowUp does come back. A negative index does the reverse: ArrowUp keeps decreasing it, while ArrowDown brings it back to 0.
- The outside-click test (line 93) checks the `<input>` element, not the whole widget. A click on a dropdown item therefore also closes the dropdown.
- Concatenating the groups reproduces the filtered list only when the list already keeps each group together. The initial pool does not: Node.js, CSS and HTML stand between React and GraphQL, which share the group "Libraries". So the model proves a different set of facts:
  - Grouping loses nothing (the multisets are equal).
  - Each group keeps its tags in their original order.
  - The groups appear in the order their names are first seen.
  - The concatenation is exact if and only if the list is clustered by group.

## Model

| member | source | states |
|---|---|---|
| `Seqs.Keep` | components/ui/tag-picker.tsx:39 | The filter result is no longer than its input; each kept element is in the input and satisfies the predicate; each input element that satisfies it is kept |
| `Seqs.KeepIsFilter` | components/ui/tag-picker.tsx:39 | The filter result is a subsequence of the input that holds each satisfying element exactly as often as the input and nothing else |
| `Seqs.KeepMonotone` | components/ui/tag-picker.tsx:39 | Filtering by a stronger predicate yields a subsequence of filtering by a weaker one |
| `Seqs.KeepConcat` | components/ui/tag-picker.tsx:39 | Filtering distributes over concatenation |
| `Seqs.KeepAll` | components/ui/tag-picker.tsx:53 | When every element passes, the filter returns its input unchanged |
| `Text.Lower` | components/ui/tag-picker.tsx:37-39 | Lower-casing keeps the length, leaves no ASCII capital, and keeps every other character in place |
| `Text.LowerMapsCapitals` | components/ui/tag-picker.tsx:37-39 | Each ASCII capital becomes its lower-case letter (32 code points above), so a query and its capitalised variants search alike |
| `Text.Contains` | components/ui/tag-picker.tsx:39 | A contained needle is no longer than the string, and the empty needle is contained in every string |
| `Text.ContainsIffOccurs` | components/ui/tag-picker.tsx:39 | `includes` holds exactly when the needle occurs at some position of the string |
| `Text.ContainsPrefixOfNeedle` | components/ui/tag-picker.tsx:39 | A string that contains `a + b` contains `a` |
| `Tags.FilterTags` | components/ui/tag-picker.tsx:39 | The search result is no longer than the pool and every listed tag matches the query; `Tags.FilterTagsSpec` gives the exact characterisation |
| `Tags.FilterTagsSpec` | components/ui/tag-picker.tsx:39 | The search result is the subsequence of the pool made of exactly the tags whose lower-cased name contains the query, each with its pool multiplicity |
| `Tags.FilterEmptyQuery` | components/ui/tag-picker.tsx:29-39 | An empty search gives back the whole pool, which is the list the component starts with |
| `Tags.FilterNarrows` | components/ui/tag-picker.tsx:36-39 | Typing more characters gives a subsequence of the previous result |
| `Tags.FilterStoredTerm` | components/ui/tag-picker.tsx:37-39 | Searching again for the stored lower-cased term gives the same list |
| `Tags.SearchJaOnMockTags` | components/ui/tag-picker.tsx:15-39 | Searching the initial pool for "Ja" leaves only JavaScript |
| `Tags.SelectTag` | components/ui/tag-picker.tsx:45-47 | The new selection is non-empty, extends the old one as a prefix and is at most one entry longer; `Tags.SelectTagSpec` gives the exact effect |
| `Tags.SelectTagSpec` | components/ui/tag-picker.tsx:45-47 | Selecting keeps the old selection as a prefix and makes the id present; it appends exactly the tag when the id was absent and changes nothing when it was present |
| `Tags.SelectIdempotent` | components/ui/tag-picker.tsx:45-47 | Selecting the same tag twice equals selecting it once |
| `Tags.SelectKeepsUniqueIds` | components/ui/tag-picker.tsx:45-47 | Selecting preserves "no two selected entries share an id" |
| `Tags.RemoveTag` | components/ui/tag-picker.tsx:53 | No entry with the id remains and every remaining entry comes from the old selection; `Tags.RemoveTagSpec` gives the exact effect |
| `Tags.RemoveTagSpec` | components/ui/tag-picker.tsx:53 | Removing leaves no entry with the id; the result is a subsequence of the selection that keeps every other entry with its multiplicity |
| `Tags.RemoveAbsent` | components/ui/tag-picker.tsx:53 | Removing an id that is not selected changes nothing |
| `Tags.RemoveKeepsUniqueIds` | components/ui/tag-picker.tsx:53 | Removing preserves "no two selected entries share an id" |
| `Tags.RemoveUndoesSelect` | components/ui/tag-picker.tsx:44-54 | Removing a tag just selected with a fresh id restores the earlier selection |
| `Tags.OnlyJavaScriptMatchesJa` | components/ui/tag-picker.tsx:15-23 | Of the initial pool, exactly the first tag matches the query "ja" |
| `Highlight.NextDown` | components/ui/tag-picker.tsx:60-65 | ArrowDown goes from null to 0; from null or a position in a non-empty list it lands in [0, length); from a stale index at or past the end, and from a negative index, it adds exactly one |
| `Highlight.DownIsSuccessorMod` | components/ui/tag-picker.tsx:60-65 | From a position in the list, ArrowDown moves to the successor modulo the length, so the last position wraps to 0 |
| `Highlight.NextUp` | components/ui/tag-picker.tsx:68-73 | ArrowUp goes from null to length - 1; from null or a position in a non-empty list it lands in [0, length); above 0 and below 0 it steps back by one |
| `Highlight.UpIsPredecessorMod` | components/ui/tag-picker.tsx:68-73 | From a position in the list, ArrowUp moves to the predecessor modulo the length, so position 0 wraps to the last |
| `Highlight.DownUpInverse` | components/ui/tag-picker.tsx:58-73 | Within a non-empty list, ArrowUp undoes ArrowDown and ArrowDown undoes ArrowUp |
| `Highlight.UpOnEmptyList` | components/ui/tag-picker.tsx:69-70 | ArrowUp from null or 0 on an empty list gives -1 |
| `Highlight.DownPressesMod` | components/ui/tag-picker.tsx:60-65 | From a position in the list, any number n of ArrowDown presses lands on (position + n) modulo the length |
| `Highlight.StaleDownNeverRecovers` | components/ui/tag-picker.tsx:60-65 | From an index at or past the end, n presses of ArrowDown give exactly the index plus n: it never re-enters the list |
| `Highlight.StaleUpRecovers` | components/ui/tag-picker.tsx:68-73 | From an index at or past the end, ArrowUp steps back by one per press until it reaches the last position |
| `Highlight.StaleUpNeverRecovers` | components/ui/tag-picker.tsx:68-73 | From a negative index (such as the -1 ArrowUp gives on an empty list), n presses of ArrowUp give the index minus n, so it never returns into the list |
| `Highlight.NegativeDownRecovers` | components/ui/tag-picker.tsx:60-65 | From a negative index, ArrowDown climbs by one per press until it reaches position 0 |
| `Highlight.EnterLookup` | components/ui/tag-picker.tsx:74-76 | Enter finds nothing exactly when the highlight is null; it finds the highlighted tag exactly when the index is in range; otherwise it reads `undefined` |
| `Grouping.FirstIndex` | components/ui/tag-picker.tsx:82-88 | The first position of a group name is in range, holds that name, and no earlier position does |
| `Grouping.AddTag` | components/ui/tag-picker.tsx:83-87 | The reducer step pushes the tag onto its group's existing list, or onto a fresh empty list whose key `tag.group` is appended to the keys; the keys are otherwise unchanged, and every other group's list is unchanged |
| `Grouping.Entries` | components/ui/tag-picker.tsx:138 | `Object.entries` gives one pair per key in key insertion order, each name paired with the list stored under it, with no name twice |
| `Grouping.GroupTagsKeys` | components/ui/tag-picker.tsx:82-88 | `GroupTags`, the reduce, builds an object whose keys are distinct and are exactly the group names of the filtered tags |
| `Grouping.GroupTagsMembers` | components/ui/tag-picker.tsx:82-88 | The list under each group name is the filtered tags of that group in their original order |
| `Grouping.GroupTagsOrder` | components/ui/tag-picker.tsx:82-88 | Every key of the object names a group of the list, and the keys are ordered by where each group name first occurs |
| `Grouping.GroupedEntries` | components/ui/tag-picker.tsx:82-88 | The entries have distinct names; each entry is non-empty and holds its group's tags in original order; every tag's group has an entry |
| `Grouping.EntriesInFirstOccurrenceOrder` | components/ui/tag-picker.tsx:82-88 | The entries come in the order in which their group names first occur in the filtered list |
| `Grouping.GroupingLossless` | components/ui/tag-picker.tsx:82-88 | Concatenating the entries gives a permutation of the filtered list |
| `Grouping.FlattenIsClustered` | components/ui/tag-picker.tsx:82-88 | Entries with distinct names whose lists hold only their own group concatenate to a list clustered by group |
| `Grouping.ClusteredReproduces` | components/ui/tag-picker.tsx:82-88 | For a list clustered by group, concatenating the entries reproduces it exactly, and the last key is the last tag's group |
| `Grouping.GroupingReproducesIffClustered` | components/ui/tag-picker.tsx:82-88 | Concatenating the entries reproduces the filtered list exactly when that list is clustered by group |
| `Grouping.MockTagsNotReproduced` | components/ui/tag-picker.tsx:15-23 | For the initial pool, the grouped entries do not concatenate back to the pool |
| `Picker.TagPicker.constructor` | components/ui/tag-picker.tsx:27-32 | Mounting gives an empty selection, the whole pool listed, an empty search term, a closed dropdown and no highlight, and establishes the invariant |
| `Picker.TagPicker.HandleSearch` | components/ui/tag-picker.tsx:36-41 | The search term becomes the lower-cased input, the list becomes the pool filtered by it, and the dropdown opens; the selection and the highlight are untouched |
| `Picker.TagPicker.HandleTagSelect` | components/ui/tag-picker.tsx:44-49 | The tag is appended only if its id is absent; the dropdown closes in both cases; the invariant (distinct ids, pool tags only) is kept |
| `Picker.TagPicker.HandleTagRemove` | components/ui/tag-picker.tsx:52-54 | Every selected entry with the id is removed and nothing else changes |
| `Picker.TagPicker.HandleKeyDown` | components/ui/tag-picker.tsx:57-79 | ArrowDown and ArrowUp set the highlight to `NextDown` and `NextUp` of the old one. Enter with an in-range highlight acts exactly as selecting that tag. Enter with a null highlight, and any other key, changes nothing. An out-of-range highlight is reported as reading `undefined` |
| `Picker.TagPicker.HandleFocus` | components/ui/tag-picker.tsx:115 | Focusing opens the dropdown and changes nothing else |
| `Picker.TagPicker.HandleClickOutside` | components/ui/tag-picker.tsx:92-96 | The dropdown closes exactly when the input exists and the click landed outside it; nothing else changes |
| `Picker.TagPicker.GroupedTags` | components/ui/tag-picker.tsx:82-88 | The accumulator loop returns the entries of the fold `GroupTags` over the current filtered list |

## Left out

- Picker.TagPicker.HandleKeyDown: when Enter reads `undefined`, the model leaves the state unchanged. That matches the code when the selection is non-empty: the `some` callback throws a TypeError on `undefined.id`. It does not match when the selection is empty. There the code appends `undefined`, closes the dropdown, and the next render fails on `tag.id`. The model cannot hold a non-tag in the selection.
- Picker.TagPicker.HandleTagSelect: requires the tag to be in the filtered list. Its two callers, the item click (line 150) and Enter (line 76), only pass listed tags. That precondition is what keeps "selected tags belong to the pool" an invariant.
- Rendering (lines 105-162) is not modelled, including the per-group `index` used to show the highlight (lines 142-143). That `index` does not match the flat `highlightedIndex`.
- The `useRef`/DOM `contains` test and the `addEventListener`/`removeEventListener` registration (lines 91-103) are browser plumbing. They become the two boolean parameters of `HandleClickOutside`.
- React's batching of state setters is not modelled. Each handler is one atomic transition.
- `Object.entries` lists integer-like keys first, in numeric order. The model uses insertion order for every key.
- Group names that match an `Object.prototype` member are not modelled. For names such as "constructor" or "toString", `groups[tag.group]` finds the inherited value and `push` fails. The model treats every name as absent until the reduce creates it.
- `toLowerCase` is modelled on ASCII letters only, without full Unicode case mapping.
- Tag ids are JavaScript numbers and are modelled as unbounded integers (no NaN, no fractions).
- Event objects are reduced to their inputs: `e.target.value` becomes a string parameter and `e.key` a string parameter.
- `setTags` is never called, so the pool is a constant field.
- `app/mail/components/mail-list.tsx` and `app/mail/page.tsx` are not part of this model. They are presentation and cookie/layout glue with no state logic.
