/** The habit list and everything the home screen computes from it: the visible
    (filtered) list, the "all visible completed" flag, the completed count and the
    progress ratio, together with the list transformations behind the handlers
    (toggle one, toggle all visible, delete selected, toggle a selection). */
module Habits {
  import opened Text
  import opened Sequences

  /** One tracked habit, as the stored JSON records it. */
  datatype Habit = Habit(id: int, title: string, completed: bool)

  // ---------------------------------------------------------------------------
  // Identifiers

  /** The set of ids occurring in a list of habits. */
  function IdSet(hs: seq<Habit>): set<int> {
    set h | h in hs :: h.id
  }

  /** No id occurs twice in the list. */
  ghost predicate UniqueIds(hs: seq<Habit>) {
    forall i, j :: 0 <= i < |hs| && 0 <= j < |hs| && hs[i].id == hs[j].id ==> i == j
  }

  /** The ids of a non-empty list are its head's id and the ids of its tail. */
  lemma IdSetCons(hs: seq<Habit>)
    requires hs != []
    ensures IdSet(hs) == {hs[0].id} + IdSet(hs[1..])
  {
    assert forall h :: h in hs <==> h == hs[0] || h in hs[1..];
  }

  /** With unique ids, the tail keeps unique ids and does not contain the head's id. */
  lemma UniqueIdsTail(hs: seq<Habit>)
    requires hs != [] && UniqueIds(hs)
    ensures UniqueIds(hs[1..])
    ensures forall h :: h in hs[1..] ==> h.id != hs[0].id
    ensures hs[0].id !in IdSet(hs[1..])
  {
    var t := hs[1..];
    forall i, j | 0 <= i < |t| && 0 <= j < |t| && t[i].id == t[j].id ensures i == j {
      assert hs[i + 1].id == hs[j + 1].id;
    }
    forall h | h in t ensures h.id != hs[0].id {
      var k :| 0 <= k < |t| && t[k] == h;
      assert hs[k + 1] == h;
    }
  }

  /** With unique ids, dropping habits from a list keeps the ids unique. */
  lemma {:induction false} SubsequenceUniqueIds(a: seq<Habit>, b: seq<Habit>)
    requires IsSubsequence(a, b) && UniqueIds(b)
    ensures UniqueIds(a)
    decreases |b|
  {
    if a != [] {
      UniqueIdsTail(b);
      if a[0] == b[0] && IsSubsequence(a[1..], b[1..]) {
        SubsequenceUniqueIds(a[1..], b[1..]);
        SubsequenceMembers(a[1..], b[1..]);
        forall j | 0 < j < |a| ensures a[j].id != a[0].id {
          assert a[j] == a[1..][j - 1];
        }
        forall i, j | 0 < i < |a| && 0 < j < |a| && a[i].id == a[j].id ensures i == j {
          assert a[1..][i - 1].id == a[1..][j - 1].id;
        }
      } else {
        SubsequenceUniqueIds(a, b[1..]);
      }
    }
  }

  /** With unique ids, a habit of the list that is not in `visible` has an id outside `visible`'s ids,
      provided every habit of `visible` comes from the list. */
  lemma IdOutside(hs: seq<Habit>, visible: seq<Habit>, i: int)
    requires UniqueIds(hs) && 0 <= i < |hs|
    requires forall h :: h in visible ==> h in hs
    requires hs[i] !in visible
    ensures hs[i].id !in IdSet(visible)
  {
    forall h | h in visible ensures h.id != hs[i].id {
      var j :| 0 <= j < |hs| && hs[j] == h;
      assert j != i;
    }
  }

  // ---------------------------------------------------------------------------
  // The visible list (hooks/useHabit.ts:21-23)

  /** First filter: completed habits are dropped unless `showCompleted` is set. */
  function FilterByCompletion(hs: seq<Habit>, showCompleted: bool): (r: seq<Habit>)
    ensures IsSubsequence(r, hs)
    ensures forall h :: h in r <==> h in hs && (showCompleted || !h.completed)
    decreases |hs|
  {
    if hs == [] then []
    else
      var rest := FilterByCompletion(hs[1..], showCompleted);
      assert forall h :: h in hs <==> h == hs[0] || h in hs[1..];
      if showCompleted || !hs[0].completed then [hs[0]] + rest else rest
  }

  /** Second filter: keeps the habits whose lower-cased title includes the lower-cased search text. */
  function FilterBySearch(hs: seq<Habit>, searchText: string): (r: seq<Habit>)
    ensures IsSubsequence(r, hs)
    ensures forall h :: h in r <==> h in hs && MatchesSearch(h.title, searchText)
    decreases |hs|
  {
    if hs == [] then []
    else
      var rest := FilterBySearch(hs[1..], searchText);
      assert forall h :: h in hs <==> h == hs[0] || h in hs[1..];
      if MatchesSearch(hs[0].title, searchText) then [hs[0]] + rest else rest
  }

  /** A habit passes both filters of the home screen. */
  predicate IsVisible(h: Habit, showCompleted: bool, searchText: string) {
    (showCompleted || !h.completed) && MatchesSearch(h.title, searchText)
  }

  /** The list the screen shows: the two filters chained, in the source's order. */
  function FilteredHabits(hs: seq<Habit>, showCompleted: bool, searchText: string): (r: seq<Habit>)
    ensures IsSubsequence(r, hs)
    ensures forall h :: h in r <==> h in hs && IsVisible(h, showCompleted, searchText)
  {
    var byCompletion := FilterByCompletion(hs, showCompleted);
    var r := FilterBySearch(byCompletion, searchText);
    SubsequenceTransitive(r, byCompletion, hs);
    r
  }

  /** The completion filter keeps every occurrence of a habit it lets through: a list may hold the
      same record twice, and `filter` drops neither copy. */
  lemma {:induction false} FilterByCompletionCounts(hs: seq<Habit>, showCompleted: bool)
    ensures forall h :: multiset(FilterByCompletion(hs, showCompleted))[h] ==
              if showCompleted || !h.completed then multiset(hs)[h] else 0
    decreases |hs|
  {
    if hs != [] {
      FilterByCompletionCounts(hs[1..], showCompleted);
      assert hs == [hs[0]] + hs[1..];
    }
  }

  /** The search filter keeps every occurrence of a matching habit. */
  lemma {:induction false} FilterBySearchCounts(hs: seq<Habit>, searchText: string)
    ensures forall h :: multiset(FilterBySearch(hs, searchText))[h] ==
              if MatchesSearch(h.title, searchText) then multiset(hs)[h] else 0
    decreases |hs|
  {
    if hs != [] {
      FilterBySearchCounts(hs[1..], searchText);
      assert hs == [hs[0]] + hs[1..];
    }
  }

  /** The visible list holds each visible habit exactly as often as the whole list does. */
  lemma FilteredHabitsCounts(hs: seq<Habit>, showCompleted: bool, searchText: string)
    ensures forall h :: multiset(FilteredHabits(hs, showCompleted, searchText))[h] ==
              if IsVisible(h, showCompleted, searchText) then multiset(hs)[h] else 0
  {
    FilterByCompletionCounts(hs, showCompleted);
    FilterBySearchCounts(FilterByCompletion(hs, showCompleted), searchText);
  }

  /** With the completion filter off, the first filter keeps the whole list. */
  lemma {:induction false} FilterByCompletionShowAll(hs: seq<Habit>)
    ensures FilterByCompletion(hs, true) == hs
    decreases |hs|
  {
    if hs != [] {
      FilterByCompletionShowAll(hs[1..]);
    }
  }

  /** An empty search text filters nothing out. */
  lemma {:induction false} FilterBySearchEmpty(hs: seq<Habit>)
    ensures FilterBySearch(hs, "") == hs
    decreases |hs|
  {
    if hs != [] {
      FilterBySearchEmpty(hs[1..]);
    }
  }

  /** The initial screen state (show completed, empty search) shows every habit. */
  lemma FilteredHabitsInitial(hs: seq<Habit>)
    ensures FilteredHabits(hs, true, "") == hs
  {
    FilterByCompletionShowAll(hs);
    FilterBySearchEmpty(hs);
  }

  /** The visible list keeps the ids of the full list unique. */
  lemma FilteredHabitsUniqueIds(hs: seq<Habit>, showCompleted: bool, searchText: string)
    requires UniqueIds(hs)
    ensures UniqueIds(FilteredHabits(hs, showCompleted, searchText))
  {
    SubsequenceUniqueIds(FilteredHabits(hs, showCompleted, searchText), hs);
  }

  // ---------------------------------------------------------------------------
  // Derived flags and counts (hooks/useHabit.ts:26-32)

  /** Every habit of the list is completed (JavaScript's `every`, true on the empty list). */
  function EveryCompleted(hs: seq<Habit>): (r: bool)
    ensures r <==> forall i :: 0 <= i < |hs| ==> hs[i].completed
    decreases |hs|
  {
    hs == [] || (hs[0].completed && EveryCompleted(hs[1..]))
  }

  /** The visible habits are all completed; an empty visible list does not count as all completed. */
  function AllCompleted(visible: seq<Habit>): (r: bool)
    ensures r <==> visible != [] && forall h :: h in visible ==> h.completed
  {
    |visible| > 0 && EveryCompleted(visible)
  }

  /** Number of completed habits in the whole list. */
  function CompletedCount(hs: seq<Habit>): (r: nat)
    ensures r <= |hs|
    ensures r == |hs| <==> forall i :: 0 <= i < |hs| ==> hs[i].completed
    ensures r == 0 <==> forall i :: 0 <= i < |hs| ==> !hs[i].completed
    decreases |hs|
  {
    if hs == [] then 0
    else (if hs[0].completed then 1 else 0) + CompletedCount(hs[1..])
  }

  /** Share of completed habits over the whole (unfiltered) list; 0 for an empty list. */
  function Progress(hs: seq<Habit>): (r: real)
    ensures 0.0 <= r <= 1.0
    ensures hs == [] ==> r == 0.0
    ensures hs != [] ==> r == Ratio(CompletedCount(hs), |hs|)
    ensures r == 1.0 <==> hs != [] && forall i :: 0 <= i < |hs| ==> hs[i].completed
    ensures r == 0.0 <==> forall i :: 0 <= i < |hs| ==> !hs[i].completed
  {
    if hs == [] then 0.0
    else
      var count := CompletedCount(hs);
      var q := Ratio(count, |hs|);
      assert q == 1.0 <==> count == |hs|;
      assert q == 0.0 <==> count == 0;
      q
  }

  /** The share `part / whole` of a positive whole: between 0 and 1, 1 exactly when the part is
      the whole, and 0 exactly when the part is 0. */
  function Ratio(part: nat, whole: nat): (q: real)
    requires part <= whole && 0 < whole
    ensures q * whole as real == part as real
    ensures 0.0 <= q <= 1.0
    ensures q == 1.0 <==> part == whole
    ensures q == 0.0 <==> part == 0
  {
    var p, w := part as real, whole as real;
    var q := p / w;
    assert q * w == p;
    assert (1.0 - q) * w == w - q * w;
    assert (1.0 - q) * w == w - p;
    assert q == 1.0 ==> q * w == w;
    assert p == w ==> q == w / w == 1.0;
    assert q == 0.0 ==> q * w == 0.0;
    assert p == 0.0 ==> q == 0.0 / w == 0.0;
    q
  }

  // ---------------------------------------------------------------------------
  // Toggling one habit (hooks/useHabit.ts:78)

  /** Flips `completed` of every habit whose id is `id`; the rest of the list is as it was. */
  function ToggleById(hs: seq<Habit>, id: int): (r: seq<Habit>)
    ensures |r| == |hs|
    ensures forall i :: 0 <= i < |hs| ==> r[i].id == hs[i].id && r[i].title == hs[i].title
    ensures forall i :: 0 <= i < |hs| ==> r[i].completed == (hs[i].completed != (hs[i].id == id))
    decreases |hs|
  {
    if hs == [] then []
    else
      var h := hs[0];
      [if h.id == id then h.(completed := !h.completed) else h] + ToggleById(hs[1..], id)
  }

  /** Toggling an id that is not in the list changes nothing. */
  lemma ToggleUnknownId(hs: seq<Habit>, id: int)
    requires id !in IdSet(hs)
    ensures ToggleById(hs, id) == hs
  {
    var r := ToggleById(hs, id);
    forall i | 0 <= i < |hs| ensures r[i] == hs[i] {
      assert hs[i] in hs;
    }
  }

  /** Toggling the same id twice restores the list. */
  lemma ToggleTwice(hs: seq<Habit>, id: int)
    ensures ToggleById(ToggleById(hs, id), id) == hs
  {
    var r := ToggleById(ToggleById(hs, id), id);
    assert forall i :: 0 <= i < |hs| ==> r[i] == hs[i];
  }

  /** With unique ids, toggling the id at position `k` flips exactly that habit and no other. */
  lemma ToggleFlipsExactlyOne(hs: seq<Habit>, k: int)
    requires UniqueIds(hs) && 0 <= k < |hs|
    ensures ToggleById(hs, hs[k].id)[k] == hs[k].(completed := !hs[k].completed)
    ensures forall i :: 0 <= i < |hs| && i != k ==> ToggleById(hs, hs[k].id)[i] == hs[i]
  {
  }

  /** Toggling keeps ids unique. */
  lemma ToggleUniqueIds(hs: seq<Habit>, id: int)
    requires UniqueIds(hs)
    ensures UniqueIds(ToggleById(hs, id))
  {
  }

  /** With unique ids, toggling the id at position `k` moves the completed count by exactly one. */
  lemma {:induction false} ToggleCompletedCount(hs: seq<Habit>, k: int)
    requires UniqueIds(hs) && 0 <= k < |hs|
    ensures CompletedCount(ToggleById(hs, hs[k].id))
         == if hs[k].completed then CompletedCount(hs) - 1 else CompletedCount(hs) + 1
    decreases |hs|
  {
    var id := hs[k].id;
    var r := ToggleById(hs, id);
    assert r[1..] == ToggleById(hs[1..], id);
    UniqueIdsTail(hs);
    if k == 0 {
      ToggleUnknownId(hs[1..], id);
    } else {
      assert hs[1..][k - 1] == hs[k];
      ToggleCompletedCount(hs[1..], k - 1);
      assert hs[0].id != id;
    }
  }

  // ---------------------------------------------------------------------------
  // Toggling all visible habits (hooks/useHabit.ts:40-42)

  /** Sets `completed` to `value` on every habit whose id is in `targets`. */
  function SetCompletedIn(hs: seq<Habit>, targets: set<int>, value: bool): (r: seq<Habit>)
    ensures |r| == |hs|
    ensures forall i :: 0 <= i < |hs| && hs[i].id in targets ==> r[i] == hs[i].(completed := value)
    ensures forall i :: 0 <= i < |hs| && hs[i].id !in targets ==> r[i] == hs[i]
    decreases |hs|
  {
    if hs == [] then []
    else
      var h := hs[0];
      [if h.id in targets then h.(completed := value) else h] + SetCompletedIn(hs[1..], targets, value)
  }

  /** The bulk action: every habit whose id is among the visible ids gets `completed := !AllCompleted(visible)`. */
  function ToggleAll(hs: seq<Habit>, showCompleted: bool, searchText: string): (r: seq<Habit>)
    ensures |r| == |hs|
    ensures forall i :: 0 <= i < |hs| ==> r[i].id == hs[i].id && r[i].title == hs[i].title
    ensures forall i :: 0 <= i < |hs| && hs[i].id in IdSet(FilteredHabits(hs, showCompleted, searchText)) ==>
              r[i] == hs[i].(completed := !AllCompleted(FilteredHabits(hs, showCompleted, searchText)))
    ensures forall i :: 0 <= i < |hs| && hs[i] in FilteredHabits(hs, showCompleted, searchText) ==>
              r[i].completed == !AllCompleted(FilteredHabits(hs, showCompleted, searchText))
    ensures forall i :: 0 <= i < |hs| && hs[i].id !in IdSet(FilteredHabits(hs, showCompleted, searchText)) ==>
              r[i] == hs[i]
  {
    var visible := FilteredHabits(hs, showCompleted, searchText);
    SetCompletedIn(hs, IdSet(visible), !AllCompleted(visible))
  }

  /** With unique ids, the bulk action never touches a habit that is not visible. (Stated as an
      implication, so a caller need not first test for unique ids.) */
  lemma ToggleAllLeavesHiddenAlone(hs: seq<Habit>, showCompleted: bool, searchText: string)
    ensures UniqueIds(hs) ==>
              forall i :: 0 <= i < |hs| && !IsVisible(hs[i], showCompleted, searchText) ==>
                ToggleAll(hs, showCompleted, searchText)[i] == hs[i]
  {
    if UniqueIds(hs) {
      var visible := FilteredHabits(hs, showCompleted, searchText);
      forall i | 0 <= i < |hs| && !IsVisible(hs[i], showCompleted, searchText)
        ensures ToggleAll(hs, showCompleted, searchText)[i] == hs[i]
      {
        IdOutside(hs, visible, i);
      }
    }
  }

  /** When nothing is visible the toggle-all button is disabled, and the action would be a no-op anyway. */
  lemma ToggleAllNothingVisible(hs: seq<Habit>, showCompleted: bool, searchText: string)
    requires FilteredHabits(hs, showCompleted, searchText) == []
    ensures !AllCompleted(FilteredHabits(hs, showCompleted, searchText))
    ensures ToggleAll(hs, showCompleted, searchText) == hs
  {
    assert IdSet(FilteredHabits(hs, showCompleted, searchText)) == {};
  }

  /** While completed habits are shown, the bulk action flips the "all visible completed" flag
      (so the button's label alternates), as long as something is visible. */
  lemma ToggleAllFlipsAllCompleted(hs: seq<Habit>, searchText: string)
    requires FilteredHabits(hs, true, searchText) != []
    ensures AllCompleted(FilteredHabits(ToggleAll(hs, true, searchText), true, searchText))
         == !AllCompleted(FilteredHabits(hs, true, searchText))
  {
    var visible := FilteredHabits(hs, true, searchText);
    var r := ToggleAll(hs, true, searchText);
    var after := FilteredHabits(r, true, searchText);
    var target := !AllCompleted(visible);
    forall h | h in after ensures h.completed == target {
      var i :| 0 <= i < |r| && r[i] == h;
      ToggleAllStaysVisible(hs, searchText, i);
    }
    var i :| 0 <= i < |hs| && hs[i] == visible[0];
    ToggleAllStaysVisible(hs, searchText, i);
    assert after != [];
  }

  /** While completed habits are shown, a habit is visible after the bulk action exactly when it
      was visible before, and then it carries the new completion value. */
  lemma ToggleAllStaysVisible(hs: seq<Habit>, searchText: string, i: int)
    requires 0 <= i < |hs|
    ensures hs[i] in FilteredHabits(hs, true, searchText) <==>
            ToggleAll(hs, true, searchText)[i] in FilteredHabits(ToggleAll(hs, true, searchText), true, searchText)
    ensures hs[i] in FilteredHabits(hs, true, searchText) ==>
            ToggleAll(hs, true, searchText)[i].completed == !AllCompleted(FilteredHabits(hs, true, searchText))
  {
    var r := ToggleAll(hs, true, searchText);
    assert r[i].title == hs[i].title;
    assert hs[i] in hs && r[i] in r;
  }

  // ---------------------------------------------------------------------------
  // Deleting the selection (hooks/useHabit.ts:91)

  /** Keeps the habits whose id is not selected, in their original order. */
  function RemoveSelected(hs: seq<Habit>, selectedIds: seq<int>): (r: seq<Habit>)
    ensures IsSubsequence(r, hs)
    ensures forall h :: h in r <==> h in hs && h.id !in selectedIds
    ensures forall h :: multiset(r)[h] == if h.id !in selectedIds then multiset(hs)[h] else 0
    decreases |hs|
  {
    if hs == [] then []
    else
      var rest := RemoveSelected(hs[1..], selectedIds);
      assert forall h :: h in hs <==> h == hs[0] || h in hs[1..];
      assert hs == [hs[0]] + hs[1..];
      if hs[0].id in selectedIds then rest else [hs[0]] + rest
  }

  /** Deleting keeps ids unique. */
  lemma RemoveSelectedUniqueIds(hs: seq<Habit>, selectedIds: seq<int>)
    requires UniqueIds(hs)
    ensures UniqueIds(RemoveSelected(hs, selectedIds))
  {
    SubsequenceUniqueIds(RemoveSelected(hs, selectedIds), hs);
  }

  /** With unique ids, deleting removes exactly one habit per selected id that is present. */
  lemma {:induction false} RemoveSelectedLength(hs: seq<Habit>, selectedIds: seq<int>)
    requires UniqueIds(hs)
    ensures |RemoveSelected(hs, selectedIds)| == |hs| - |IdSet(hs) * (set v | v in selectedIds)|
    decreases |hs|
  {
    var sel := set v | v in selectedIds;
    if hs == [] {
      assert IdSet(hs) == {};
    } else {
      var t := hs[1..];
      UniqueIdsTail(hs);
      IdSetCons(hs);
      RemoveSelectedLength(t, selectedIds);
      var x := hs[0].id;
      var rest := IdSet(t) * sel;
      assert x !in rest;
      if x in selectedIds {
        assert IdSet(hs) * sel == {x} + rest;
      } else {
        assert IdSet(hs) * sel == rest;
      }
    }
  }

  // ---------------------------------------------------------------------------
  // The selection in edit mode (hooks/useHabit.ts:58)

  /** Drops every occurrence of `id`, keeping the order of the rest. */
  function RemoveId(s: seq<int>, id: int): (r: seq<int>)
    ensures IsSubsequence(r, s)
    ensures forall v :: v in r <==> v in s && v != id
    ensures forall v :: multiset(r)[v] == if v != id then multiset(s)[v] else 0
    decreases |s|
  {
    if s == [] then []
    else
      var rest := RemoveId(s[1..], id);
      assert forall v :: v in s <==> v == s[0] || v in s[1..];
      assert s == [s[0]] + s[1..];
      if s[0] == id then rest else [s[0]] + rest
  }

  /** Removing a value that is absent changes nothing. */
  lemma {:induction false} RemoveIdAbsent(s: seq<int>, id: int)
    requires id !in s
    ensures RemoveId(s, id) == s
    decreases |s|
  {
    if s != [] {
      RemoveIdAbsent(s[1..], id);
    }
  }

  /** Pressing a habit in edit mode: a selected id is deselected, an unselected one is appended. */
  function ToggleSelection(selectedIds: seq<int>, id: int): (r: seq<int>)
    ensures id in r <==> id !in selectedIds
    ensures forall v :: v != id ==> (v in r <==> v in selectedIds)
    ensures id !in selectedIds ==> |r| == |selectedIds| + 1 && r[..|selectedIds|] == selectedIds
  {
    if id in selectedIds then RemoveId(selectedIds, id) else selectedIds + [id]
  }

  /** Selecting an unselected habit and pressing it again restores the selection. */
  lemma ToggleSelectionTwice(selectedIds: seq<int>, id: int)
    requires id !in selectedIds
    ensures ToggleSelection(ToggleSelection(selectedIds, id), id) == selectedIds
  {
    var s := selectedIds + [id];
    var rest := RemoveId(selectedIds, id);
    RemoveIdAbsent(selectedIds, id);
    RemoveIdAppend(selectedIds, id);
  }

  /** Removing `id` from a list that ends in `id` drops that last element too. */
  lemma {:induction false} RemoveIdAppend(s: seq<int>, id: int)
    ensures RemoveId(s + [id], id) == RemoveId(s, id)
    decreases |s|
  {
    if s == [] {
      assert RemoveId([id], id) == RemoveId([], id);
    } else {
      assert (s + [id])[1..] == s[1..] + [id];
      RemoveIdAppend(s[1..], id);
    }
  }

  /** The selection never holds an id twice. */
  lemma {:induction false} ToggleSelectionNoDuplicates(selectedIds: seq<int>, id: int)
    requires NoDuplicates(selectedIds)
    ensures NoDuplicates(ToggleSelection(selectedIds, id))
  {
    var r := ToggleSelection(selectedIds, id);
    if id in selectedIds {
      SubsequenceNoDuplicates(r, selectedIds);
    } else {
      forall j | 0 <= j < |selectedIds| ensures r[j] != id {
        assert selectedIds[j] in selectedIds;
      }
    }
  }
}
