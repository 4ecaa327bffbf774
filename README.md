# Habit tracker: the habit-list state manager

This project models the state manager of a small habit-tracking app. The manager lives in the
`useHabit` hook, and the home screen `HomeScreen` holds a line-for-line copy of it.

It holds five state cells:

- the list of habits (id, title, completed);
- the "show completed" flag;
- the search text;
- the edit-mode flag;
- the list of ids selected for deletion.

It derives four views from them:

- the visible list, which keeps a habit when it passes the completion filter and the
  case-insensitive title search;
- the "all visible completed" flag;
- the completed count;
- the progress ratio.

Its handlers change the state and write the whole list back to the device store under the key
`"habits"`:

- toggle one habit;
- toggle all visible habits;
- a tap, which toggles a habit outside edit mode and a selection inside it;
- delete the selection.

Loading reads the key back, and a missing value becomes the empty list.

Layout:

- `text.dfy` (module `Text`): ASCII lower-casing and a substring test with the meaning of
  JavaScript's `includes`.
- `sequences.dfy` (module `Sequences`): order-preserving subsequences.
- `habits.dfy` (module `Habits`): the `Habit` datatype, the derived views and the list
  transformations behind each handler, as functions with contracts, plus the lemmas about them.
- `storage.dfy` (module `Storage`): the device key-value store as a class whose values are habit
  lists.
- `store.dfy` (module `UseHabit`): class `HabitStore`. Its fields are the state cells, and it
  holds a reference to the store. Its methods are the handlers. Each method's `ensures` ties the
  new list to the function in `Habits` and states the new store contents and the unchanged cells.
  The methods keep the object invariant `Valid()`: outside edit mode nothing is selected, and no
  id is selected twice. `Persisted()` says that loading now would return the in-memory list; every
  handler that writes establishes it, and loading preserves the list when it holds.
- `scenario.dfy` (module `Scenario`): the worked example with two habits, "Run" open and "Read"
  done, both as lemmas and as a session driven through the handlers (`Scenario.RunReadSession`,
  a client of the handlers' contracts that carries no contract of its own).

The two core files hold the same logic, so it is modelled once. The table cites whichever copy is
clearer; `app/index.tsx:14-106` mirrors `hooks/useHabit.ts:8-98` line for line.

Three points where the code does something a reader might not expect, all of which the model follows:

- The selection is a list with append and remove, not a set. Removal drops every occurrence of the
  id.
- The bulk toggle acts on the set of visible ids. So a hidden habit that shares an id with a
  visible one is changed too. "Hidden habits are untouched" is therefore proved under unique ids
  (`ToggleAllLeavesHiddenAlone`). The unconditional form is about habits whose id is not visible
  (`ToggleAll`), which also states that every habit sharing a visible id gets the new value.
- Titles are not required to be non-empty, and ids are not assumed unique, so a list may hold the
  same record twice. The filters and the deletion keep every occurrence. `RemoveSelected`'s
  contract states the multiplicity of each record in the result, and so do the lemmas
  `FilterByCompletionCounts`, `FilterBySearchCounts` and `FilteredHabitsCounts`. Every property
  that needs unique ids says so, in its `requires` or as the premise of its `ensures`.

## Model

| member | source | states |
|---|---|---|
| `Text.Lower` | hooks/useHabit.ts:23 | the lower-cased string has the same length, maps each character through the ASCII lower-casing, and holds no upper-case letter |
| `Text.LowerIdempotent` | hooks/useHabit.ts:23 | lower-casing twice is the same as lower-casing once |
| `Text.Includes` | hooks/useHabit.ts:23 | `includes` is true exactly when the text occurs at some position of the string |
| `Text.IncludesEmpty` | hooks/useHabit.ts:23 | every string includes the empty string |
| `Text.MatchesSearch` | hooks/useHabit.ts:23 | an empty search text matches every title |
| `Text.MatchesSearchCaseInsensitive` | hooks/useHabit.ts:23 | the match ignores the case of both the search text and the title |
| `Habits.FilterByCompletion` | hooks/useHabit.ts:22 | the result is an order-preserving subsequence holding exactly the habits that are uncompleted or allowed by "show completed" |
| `Habits.FilterByCompletionCounts` | hooks/useHabit.ts:22 | the completion filter keeps every occurrence of each habit it lets through and none of the others |
| `Habits.FilterBySearch` | hooks/useHabit.ts:23 | the result is an order-preserving subsequence holding exactly the habits whose lower-cased title includes the lower-cased search |
| `Habits.FilterBySearchCounts` | hooks/useHabit.ts:23 | the search filter keeps every occurrence of each matching habit and none of the others |
| `Habits.FilteredHabits` | hooks/useHabit.ts:21-23 | the visible list is an order-preserving subsequence of the habits and holds exactly the habits passing both filters; with "show completed" off it holds no completed habit and every uncompleted matching one |
| `Habits.FilteredHabitsCounts` | hooks/useHabit.ts:21-23 | the visible list holds each visible habit exactly as often as the whole list, and no other habit |
| `Habits.FilterByCompletionShowAll` | hooks/useHabit.ts:22 | with "show completed" on, the completion filter keeps the whole list |
| `Habits.FilterBySearchEmpty` | hooks/useHabit.ts:23 | an empty search text filters nothing out |
| `Habits.FilteredHabitsInitial` | hooks/useHabit.ts:10-23 | in the initial filter state the visible list is the whole list |
| `Habits.FilteredHabitsUniqueIds` | hooks/useHabit.ts:21-23 | the visible list of a list with unique ids has unique ids |
| `Habits.EveryCompleted` | hooks/useHabit.ts:26 | `every` is true exactly when every element is completed, so also on the empty list |
| `Habits.AllCompleted` | hooks/useHabit.ts:26 | true exactly when the visible list is non-empty and all of it is completed; false for an empty visible list |
| `Habits.CompletedCount` | hooks/useHabit.ts:29 | the count is at most the length; it equals the length exactly when all are completed, and is 0 exactly when none is |
| `Habits.Progress` | hooks/useHabit.ts:32 | 0 for an empty list; otherwise the ratio of the completed count to the length; it lies in [0,1], is 1 exactly when the list is non-empty and fully completed, and is 0 exactly when nothing is completed |
| `Habits.Ratio` | hooks/useHabit.ts:32 | the quotient of a part by a positive whole it does not exceed: multiplied by the whole it gives the part, it lies in [0,1], is 1 exactly when part equals whole and 0 exactly when the part is 0 |
| `Habits.ToggleById` | hooks/useHabit.ts:78 | same length, ids and titles in the same order; `completed` flips exactly at the positions carrying the id |
| `Habits.ToggleUnknownId` | hooks/useHabit.ts:78 | toggling an id absent from the list leaves the list unchanged |
| `Habits.ToggleTwice` | app/index.tsx:85-89 | toggling the same id twice restores the list |
| `Habits.ToggleFlipsExactlyOne` | hooks/useHabit.ts:78 | with unique ids, toggling a habit's id flips that habit only, and every other habit is unchanged |
| `Habits.ToggleUniqueIds` | hooks/useHabit.ts:78 | toggling preserves unique ids |
| `Habits.ToggleCompletedCount` | hooks/useHabit.ts:77-81 | with unique ids, a toggle moves the completed count by exactly one, down if the habit was completed and up otherwise |
| `Habits.SetCompletedIn` | hooks/useHabit.ts:42 | same length; habits whose id is a target get `completed := value`, all others are unchanged |
| `Habits.ToggleAll` | hooks/useHabit.ts:38-45 | same length, ids and titles; every habit whose id is among the visible ids (visible or not) becomes itself with `completed := !allCompleted`; every habit whose id is not among the visible ids is unchanged |
| `Habits.ToggleAllLeavesHiddenAlone` | hooks/useHabit.ts:40-42 | with unique ids, the bulk toggle leaves every habit that is not visible unchanged |
| `Habits.ToggleAllStaysVisible` | hooks/useHabit.ts:38-45 | with completed habits shown, a habit is visible after the bulk toggle exactly when it was visible before, and then carries the new completion value |
| `Habits.ToggleAllNothingVisible` | app/index.tsx:113-118 | when the visible list is empty (button disabled), `allCompleted` is false and the bulk toggle would change nothing |
| `Habits.ToggleAllFlipsAllCompleted` | app/index.tsx:113-118 | with completed habits shown and something visible, the bulk toggle negates `allCompleted`, so the button label alternates |
| `Habits.RemoveSelected` | hooks/useHabit.ts:91 | the new list is an order-preserving subsequence holding exactly the habits whose id is not selected, each as often as in the old list |
| `Habits.RemoveSelectedUniqueIds` | app/index.tsx:95-106 | deletion preserves unique ids |
| `Habits.RemoveSelectedLength` | hooks/useHabit.ts:91 | with unique ids, the new length is the old length minus the number of selected ids present in the list |
| `Habits.RemoveId` | hooks/useHabit.ts:58 | the result is a subsequence holding every value except the id, each as often as before, and no occurrence of the id |
| `Habits.RemoveIdAbsent` | hooks/useHabit.ts:58 | removing an absent id changes nothing |
| `Habits.ToggleSelection` | hooks/useHabit.ts:58 | the id is selected afterwards exactly when it was not before; other ids keep their membership; an unselected id is appended at the end |
| `Habits.ToggleSelectionTwice` | hooks/useHabit.ts:58 | selecting an unselected id and tapping it again restores the selection |
| `Habits.ToggleSelectionNoDuplicates` | hooks/useHabit.ts:58 | the selection never lists an id twice |
| `Storage.KeyValueStore.GetItem` | hooks/useHabit.ts:66 | returns the stored value exactly when the key is present |
| `Storage.KeyValueStore.SetItem` | hooks/useHabit.ts:44 | the key now maps to the value; every other key is unchanged |
| `UseHabit.HabitStore.constructor` | hooks/useHabit.ts:8-16 | the initial state: empty list, completed shown, empty search, not in edit mode, empty selection |
| `UseHabit.HabitStore.Visible` | app/index.tsx:29-31 | the screen's list is an order-preserving subsequence of the habits holding exactly those that pass both filters, each as often as in the habits |
| `UseHabit.HabitStore.ToggleAllEnabled` | app/index.tsx:113-118 | the toggle-all button is enabled exactly when some habit is visible; when disabled, `allCompleted` is false |
| `UseHabit.HabitStore.LoadHabits` | hooks/useHabit.ts:65-70 | the list becomes the stored list, or `[]` when nothing is stored; reloading after a write gives back the in-memory list; no other cell changes |
| `UseHabit.HabitStore.ToggleHabit` | hooks/useHabit.ts:77-81 | the list becomes `ToggleById` of the old list, the store holds it under `"habits"`, unique ids are kept, and no other cell changes |
| `UseHabit.HabitStore.ToggleAllHabits` | hooks/useHabit.ts:38-45 | the list becomes `ToggleAll` of the old list; with unique ids hidden habits are untouched; the store holds the new list; no other cell changes |
| `UseHabit.HabitStore.HandlePressHabit` | hooks/useHabit.ts:52-59 | outside edit mode it acts as `ToggleHabit`; in edit mode it toggles the id's selection and leaves the list and the store alone |
| `UseHabit.HabitStore.DeleteSelectedHabits` | hooks/useHabit.ts:87-98 | with an empty selection nothing changes, store included; otherwise the list is `RemoveSelected` of the old list (exactly the unselected habits, in order and with their multiplicities), the selection is cleared, edit mode ends, the store holds the new list, and unique ids are kept |
| `UseHabit.HabitStore.EnterEditMode` | app/index.tsx:129 | edit mode starts, with an empty selection when it starts from browsing |
| `UseHabit.HabitStore.CancelEditMode` | app/index.tsx:133-138 | edit mode ends and the selection is cleared together, and the list is untouched |
| `UseHabit.HabitStore.ToggleShowCompleted` | app/index.tsx:122 | "show completed" is negated and nothing else changes |
| `UseHabit.HabitStore.SetSearchText` | app/index.tsx:144 | the search text is replaced and nothing else changes |
| `Scenario.SearchForEa` | hooks/useHabit.ts:23 | the search "ea" matches "Read" and not "Run" |
| `Scenario.RunReadProgress` | hooks/useHabit.ts:29-32 | one completed habit of two gives progress 0.5 |
| `Scenario.RunReadExample` | hooks/useHabit.ts:21-45 | with completed habits hidden only "Run" is visible; toggling all completes "Run" and leaves "Read"; with all shown, the search "ea" shows only "Read" |

## Left out

- Storage I/O and JSON: the store keeps habit lists directly, so serialising and parsing are
  assumed to round-trip. A malformed stored value, which the source does not guard against, is
  not modelled. A stored empty string, the other falsy value `if (data)` rejects, cannot arise
  from these writes and is not modelled.
- React runtime behaviour: `setState` batching, stale closures, the timing of `useFocusEffect`,
  and races between a load and a write still in flight. Each handler is one atomic step, and the
  caller invokes `LoadHabits` on every focus.
- Unicode `toLowerCase`: lower-casing is ASCII only.
- Floating point: progress is a `real` ratio, with no claim about IEEE behaviour.
- Numeric ids are unbounded `int`, not JavaScript numbers.
- The raw setters `setIsEditMode`, `setSelectedIds`, `setShowCompleted` and `setSearchText` that
  the hook exports are modelled only as the screen uses them: the delete, cancel, filter and
  search controls.
- The JSX and styled components, `components/HabitItem.tsx`, `components/ProgressBar.tsx`, the
  layouts and `styled.d.ts`: they are presentation only.
- The add screen and `router.push("/add")`: that screen is not part of this model. Its effect on
  the store is a `SetItem` under the same key, which the next load picks up.
