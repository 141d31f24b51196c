# InteractionSection state core, in Dafny

This project models the state-management core of the `InteractionSection`
panel of a Thing Description editor. One panel handles one kind of
interaction affordance: `properties`, `actions` or `events`. The panel
keeps a parsed snapshot of the editor's document text, `td`. It falls back
to the last good snapshot when the text does not parse. It lists the kind's
members whose name matches a search text. It reorders the kind on each sort
click, alternating between ascending and descending. It adds or overwrites
a member with the result of a creation dialog. Sort and add both write the
whole document back to the editor.

Layout, one module per concern:

- `wrappers.dfy` (`Wrappers`): `Option`, which stands for JavaScript's
  `undefined`-or-value.
- `text.dfy` (`Text`): ASCII `toLowerCase`, `indexOf` with its
  first-occurrence contract, and the key order `LexLe` that stands for
  `localeCompare`. The order is proved total, transitive and antisymmetric.
- `affordances.dfy` (`Affordances`): a kind's object as a sequence of
  `Entry(name, def)` pairs in insertion order, with distinct names. It holds
  property lookup, the assignment `obj[name] = def` (`Upsert`) and the name
  filter.
- `sorting.dfy` (`Sorting`): the sort key "title if truthy, else name" and
  `SortByKey`, the stable sort that stands for `Array.prototype.sort`. It
  proves the order, the permutation, stability, the descending order and
  what repeated clicks give.
- `documents.dfy` (`Documents`): the document, with three optional kinds and
  the other top-level members kept opaque. It also holds the
  parse-recovery step and what a run of renders leaves in `td`.
- `panel.dfy` (`Panel`): the class `InteractionSection`. Its fields are
  `td`, `oldTd`, `sortOrder`, `filter` and a ghost log `commits`, which holds
  every document passed to `updateOfflineTD`. Its methods are the recovery
  block, the filter handler, `applyFilter`, `sortKeysInObject`,
  `addSubfieldToExistingTD` and `onClickAddInteraction`. `OrderEntries` is
  the `forEach` loop that rebuilds the kind's object in sorted order.

Behaviour the model follows from the code:

- The descending click reverses the stable ascending order. Members whose
  keys tie therefore appear in reverse input order when descending
  (`Sorting.DescendingTies`). A later ascending click keeps them reversed,
  for every kind and every key, so it does not bring back the first
  ascending order (`Sorting.ThirdClickKeepsTiesReversed`).
- The recovery block sets `oldTd := td` before parsing. After a failed
  parse, `td` and `oldTd` are therefore both the previous `td`.

## Model

| member | source | states |
|---|---|---|
| `Text.IndexOf` | src/components/TDViewer/InteractionSection.jsx:62 | `indexOf` finds something (result > -1) exactly when the pattern is a substring, and then the result is the first position where it occurs |
| `Text.LexLeTotal` | src/components/TDViewer/InteractionSection.jsx:85-88 | any two sort keys are comparable under the comparator |
| `Text.LexLeTransitive` | src/components/TDViewer/InteractionSection.jsx:85-88 | the comparator's order is transitive, so sorting by it is well defined |
| `Text.LexLeAntisymmetric` | src/components/TDViewer/InteractionSection.jsx:85-88 | two keys that compare equal are the same string, so ties are equal keys |
| `Affordances.Lookup` | src/components/TDViewer/InteractionSection.jsx:90 | for the keys read at lines 90 and 99, which come from `Object.keys`: `obj[key]` is undefined exactly when no own member has that name; otherwise it is the definition of a member with that name |
| `Affordances.LookupMember` | src/components/TDViewer/InteractionSection.jsx:90 | in an object, looking up a member's own name gives back that member's definition |
| `Affordances.UpsertReplaces` | src/components/TDViewer/InteractionSection.jsx:123 | `obj[name] = def` with an existing `name`: the member is replaced in its position, the length is unchanged and every other member stays where it was |
| `Affordances.UpsertAppends` | src/components/TDViewer/InteractionSection.jsx:123 | `obj[name] = def` with a new `name`: the member is appended after all existing members, which are unchanged |
| `Affordances.UpsertDistinct` | src/components/TDViewer/InteractionSection.jsx:123 | the assignment keeps the object's member names distinct |
| `Affordances.UpsertLookup` | src/components/TDViewer/InteractionSection.jsx:119-124 | after the assignment, `name` maps to `def` and every other name maps to what it mapped to before |
| `Affordances.FilterByName` | src/components/TDViewer/InteractionSection.jsx:60-70 | a member is in the result iff it is in the kind and its lower-cased name contains the lower-cased filter; the result is a subsequence of the kind, in order |
| `Affordances.FilterEmptyKeepsAll` | src/components/TDViewer/InteractionSection.jsx:62 | an empty filter keeps every member, in order |
| `Affordances.FilterKeepsDistinct` | src/components/TDViewer/InteractionSection.jsx:60-70 | the filtered object still has distinct names |
| `Sorting.Reverse` | src/components/TDViewer/InteractionSection.jsx:98 | `reverse()` puts element `i` at position `n-1-i` |
| `Sorting.SortByKeyPermutation` | src/components/TDViewer/InteractionSection.jsx:81-91 | the sorted members are a permutation of the kind's members, each with its own definition |
| `Sorting.SortByKeySorted` | src/components/TDViewer/InteractionSection.jsx:84-92 | the ascending result is non-decreasing by "title if truthy, else name" |
| `Sorting.SortByKeyStable` | src/components/TDViewer/InteractionSection.jsx:85-91 | for every key, the members with that key keep their relative order from the input |
| `Sorting.SortByKeyDistinct` | src/components/TDViewer/InteractionSection.jsx:80-91 | sorting keeps member names distinct |
| `Sorting.SortByKeyOfSorted` | src/components/TDViewer/InteractionSection.jsx:84-92 | sorting an already ascending kind leaves it unchanged |
| `Sorting.DescendingSorted` | src/components/TDViewer/InteractionSection.jsx:93-101 | the descending result, the reversed ascending order, is non-increasing by key |
| `Sorting.DescendingTies` | src/components/TDViewer/InteractionSection.jsx:94-100 | in the descending result, members that tie on their key are in the reverse of their input order |
| `Sorting.SecondClickReversesFirst` | src/components/TDViewer/InteractionSection.jsx:84-101 | from the ascending state, the second click gives exactly the reverse of the first click's order; the second clause is only a fact about `Reverse` (undoing that reversal gives the first order back), since the third click re-sorts instead (`Sorting.ThirdClickKeepsTiesReversed`) |
| `Sorting.ThirdClickKeepsTiesReversed` | src/components/TDViewer/InteractionSection.jsx:84-101 | for every kind and every key: after asc, desc, asc clicks the members with that key stay in the order the descending click gave them, which is the reverse of their input order |
| `Documents.With` | src/components/TDViewer/InteractionSection.jsx:103 | `td[kind] = es` sets that kind and leaves the other kinds and top-level members as they were |
| `Documents.WithWellFormed` | src/components/TDViewer/InteractionSection.jsx:103 | replacing a kind by an object keeps every kind's names distinct |
| `Documents.AddMember` | src/components/TDViewer/InteractionSection.jsx:119-124 | after `td[type]` is created when absent and `td[type][name] = def`: `name` maps to `def`, every other name keeps its definition, other kinds and members are unchanged, names stay distinct |
| `Documents.ReplayIsLastSuccess` | src/components/TDViewer/InteractionSection.jsx:41-47 | after a run of renders in which parse `j` succeeded and every later parse failed, `td` is the document parse `j` gave |
| `Documents.ReplayWithoutSuccess` | src/components/TDViewer/InteractionSection.jsx:41-47 | failed parses never replace `td`: after a run of renders in which no parse succeeded, it is still the initial document, whatever that is |
| `Documents.RollbackAfterBadText` | src/components/TDViewer/InteractionSection.jsx:41-47 | a valid text then an invalid one leaves `td` equal to the valid text's document |
| `Panel.Reordered` | src/components/TDViewer/InteractionSection.jsx:84-101 | the order a click leaves (ascending, or exactly its reverse when descending) holds the same members with distinct names |
| `Panel.ReorderedSorted` | src/components/TDViewer/InteractionSection.jsx:84-101 | a click in the ascending state leaves the kind non-decreasing by key; one in the descending state leaves it non-increasing |
| `Panel.OrderEntries` | src/components/TDViewer/InteractionSection.jsx:89-100 | the `forEach` that reads each sorted key's definition back from the kind and assigns it into a fresh object builds exactly `Reordered` |
| `Panel.InteractionSection.constructor` | src/components/TDViewer/InteractionSection.jsx:22-36 | a mounted panel starts with `td` and `oldTd` equal to `{}`, ascending order, an empty filter and no commits |
| `Panel.InteractionSection.Reparse` | src/components/TDViewer/InteractionSection.jsx:41-47 | `oldTd` becomes the previous `td`; on success `td` is the parsed document; on failure `td` is unchanged and equals `oldTd`; nothing is committed |
| `Panel.InteractionSection.UpdateFilter` | src/components/TDViewer/InteractionSection.jsx:49 | the filter text becomes the search bar's value |
| `Panel.InteractionSection.ApplyFilter` | src/components/TDViewer/InteractionSection.jsx:55-73 | nothing when the panel's kind is absent; otherwise exactly the members whose name contains the filter, ignoring case, each with its definition, as an ordered subsequence; `td` is only read |
| `Panel.InteractionSection.SortKeysInObject` | src/components/TDViewer/InteractionSection.jsx:75-105 | kind absent: no change, no commit, same direction. Otherwise only that kind changes, to `Reordered` for the current direction; the direction flips; exactly one commit of the whole document is logged |
| `Panel.InteractionSection.AddSubfieldToExistingTD` | src/components/TDViewer/InteractionSection.jsx:119-125 | `td` becomes `AddMember` of the old `td`; the model's `oldTd`, direction and filter are unchanged (`oldTd` can share `td`'s object in the code, see Left out); exactly one commit |
| `Panel.InteractionSection.OnClickAddInteraction` | src/components/TDViewer/InteractionSection.jsx:127-133 | a cancelled dialog changes nothing and commits nothing; a created definition is added under its title as `AddSubfieldToExistingTD` does, with one commit |

## Left out

- Rendering is not modelled: the JSX markup, the sort icons (`sortedIcon`), `buildChildren`, the search bar, the tooltips and the per-kind row components. It is presentation only.
- `JSON.parse` is not modelled. Its result is a parameter of `Reparse`, `None` when parsing throws. `JSON.stringify` is not modelled either: a commit is logged as the document itself, not its text.
- `localeCompare` is modelled as code-point lexicographic order (`Text.LexLe`). Locale collation is library behaviour outside this code. Under the model, only equal keys tie.
- `toLowerCase` is modelled for ASCII letters only. Unicode case mapping is library behaviour outside this code.
- `Sorting.SortByKey` is an insertion sort. It stands for the engine's `Array.prototype.sort`, whose algorithm is not modelled. Because that sort must be stable, its result is the same.
- The creation dialogs `addProperty`, `addAction` and `addEvent` are not modelled. Neither is the race between a pending add and other commits. The awaited result is the `Option` parameter of `OnClickAddInteraction`.
- React's `useState` and `useContext` re-render semantics are not modelled. `sortOrder` and `filter` are plain fields.
- `td` and `oldTd` are module-level variables, shared by every mounted panel. The model gives each `InteractionSection` object its own, so aliasing between panels is not captured.
- JavaScript puts integer-like property names (array indices) before other keys regardless of insertion order. The model assumes plain insertion order.
- The member name `__proto__` is treated as an ordinary name. In the code, `JSON.parse` makes it an own key, but assigning it on an object without an own `__proto__` member (lines 69, 90, 99 and 123) runs `Object.prototype`'s setter and creates no property. Filtering and sorting write into a fresh `{}` and therefore drop such a member in the code. Adding drops it only when the kind has no own `__proto__` member yet, including a kind just created at line 121: the setter then replaces that kind object's prototype with the definition. When the kind has one, line 123 overwrites it in place, as `Affordances.Upsert` does. `Affordances.FilterByName`, `Panel.Reordered` and `Panel.OrderEntries` keep such a member, and `Affordances.Upsert` appends a new one.
- Panel.InteractionSection.SortKeysInObject and Panel.InteractionSection.AddSubfieldToExistingTD: after a failed parse, line 46 makes `td` and `oldTd` the same object, so in the code the writes at lines 103, 121 and 123 also change `oldTd`. The model keeps `oldTd` unchanged. This is harmless: line 42 reassigns `oldTd` before line 46 reads it, so no caller sees the difference.
- Panel.InteractionSection.OnClickAddInteraction: requires a created definition to carry a string `title`, which the creation dialogs supply. With a missing title the code stores the definition under the name `"undefined"`, and with a non-string title under its string conversion. The model does not cover these.
- Affordances.Lookup: sees own members only. Names inherited from `Object.prototype` (`toString`, `constructor`, `hasOwnProperty`) read as defined in the code even when the object has no such member; the code only reads keys taken from `Object.keys`, where the two agree.
- Kind members that are not objects, and titles that are not strings, are not modelled: a definition's title is either absent or a string. In the code a `null` member throws at line 82; a number, string, boolean or array member has no `title` and sorts by its name. A falsy non-string title falls back to the name, and a truthy non-string title can throw at line 88 or 97 when it is the left-hand key.
- A kind is either absent or an object. Other falsy values (`null`, `0`, `""`) under a kind name are not modelled.
- Definitions other than their `title` are opaque `fields`, a map of strings. Nested JSON values are not modelled.
