/** The habit-list state manager behind the home screen: the state cells of the
    `useHabit` hook (and of `HomeScreen`, which holds the same code), the views
    derived from them, and the handlers that change them and write the whole list
    back to the store under one key. Each handler is one atomic step. */
module UseHabit {
  import opened Habits
  import opened Storage
  import opened Sequences

  /** The key under which the whole habit list is stored. */
  const HabitsKey: string := "habits"

  /** What loading makes of the stored value: the stored list, or the empty list when there is none. */
  function Loaded(data: Option<seq<Habit>>): seq<Habit> {
    match data
    case Some(stored) => stored
    case None => []
  }

  class HabitStore {
    /** All habits, in display order. */
    var habits: seq<Habit>
    /** Whether completed habits are listed. */
    var showCompleted: bool
    /** The search box's text. */
    var searchText: string
    /** Whether taps select habits for deletion instead of toggling them. */
    var isEditMode: bool
    /** The ids selected for deletion, in the order they were tapped. */
    var selectedIds: seq<int>
    /** The device store the list is read from and written to. */
    const storage: KeyValueStore

    /** The selection only exists in edit mode and never lists an id twice. */
    ghost predicate Valid()
      reads this
    {
      (!isEditMode ==> selectedIds == []) && NoDuplicates(selectedIds)
    }

    /** Loading now would give back the list held in memory. */
    ghost predicate Persisted()
      reads this, storage
    {
      habits == Loaded(storage.Get(HabitsKey))
    }

    /** The initial state cells of the screen, before the first load. */
    constructor (storage: KeyValueStore)
      ensures this.storage == storage
      ensures habits == [] && showCompleted && searchText == "" && !isEditMode && selectedIds == []
      ensures Valid()
    {
      this.storage := storage;
      habits := [];
      showCompleted := true;
      searchText := "";
      isEditMode := false;
      selectedIds := [];
    }

    // -------------------------------------------------------------------------
    // Views

    /** The habits the list shows. */
    function Visible(): (r: seq<Habit>)
      reads this
      ensures IsSubsequence(r, habits)
      ensures forall h :: h in r <==> h in habits && IsVisible(h, showCompleted, searchText)
      ensures forall h :: multiset(r)[h] == if IsVisible(h, showCompleted, searchText) then multiset(habits)[h] else 0
    {
      FilteredHabitsCounts(habits, showCompleted, searchText);
      FilteredHabits(habits, showCompleted, searchText)
    }

    /** The toggle-all button is enabled exactly when something is visible; when it is disabled
        the visible habits do not count as all completed. */
    function ToggleAllEnabled(): (r: bool)
      reads this
      ensures r <==> exists h :: h in habits && IsVisible(h, showCompleted, searchText)
      ensures !r ==> !AllCompleted(Visible())
    {
      assert Visible() != [] ==> Visible()[0] in Visible();
      Visible() != []
    }

    // -------------------------------------------------------------------------
    // Handlers

    /** Replaces the list with the stored one, or with the empty list when nothing is stored. */
    method LoadHabits()
      requires Valid()
      modifies this
      ensures habits == Loaded(storage.Get(HabitsKey))
      ensures old(Persisted()) ==> habits == old(habits)
      ensures Persisted() && Valid()
      ensures showCompleted == old(showCompleted) && searchText == old(searchText)
      ensures isEditMode == old(isEditMode) && selectedIds == old(selectedIds)
    {
      var data := storage.GetItem(HabitsKey);
      if data.Some? {
        habits := data.value;
      } else {
        habits := [];
      }
    }

    /** Flips the completion of the habit with id `id` and writes the list. */
    method ToggleHabit(id: int)
      requires Valid()
      modifies this, storage
      ensures habits == ToggleById(old(habits), id)
      ensures storage.items == old(storage.items)[HabitsKey := habits]
      ensures Persisted() && Valid()
      ensures UniqueIds(old(habits)) ==> UniqueIds(habits)
      ensures showCompleted == old(showCompleted) && searchText == old(searchText)
      ensures isEditMode == old(isEditMode) && selectedIds == old(selectedIds)
    {
      var updated := ToggleById(habits, id);
      habits := updated;
      storage.SetItem(HabitsKey, updated);
    }

    /** Completes every visible habit, or un-completes them all when they are all completed, and
        writes the list. */
    method ToggleAllHabits()
      requires Valid()
      modifies this, storage
      ensures habits == ToggleAll(old(habits), showCompleted, searchText)
      ensures UniqueIds(old(habits)) ==>
                forall i :: 0 <= i < |habits| && !IsVisible(old(habits)[i], showCompleted, searchText) ==>
                  habits[i] == old(habits)[i]
      ensures storage.items == old(storage.items)[HabitsKey := habits]
      ensures Persisted() && Valid()
      ensures showCompleted == old(showCompleted) && searchText == old(searchText)
      ensures isEditMode == old(isEditMode) && selectedIds == old(selectedIds)
    {
      var updated := ToggleAll(habits, showCompleted, searchText);
      ToggleAllLeavesHiddenAlone(habits, showCompleted, searchText);
      habits := updated;
      storage.SetItem(HabitsKey, updated);
    }

    /** A tap on a habit: outside edit mode it toggles the habit, in edit mode it toggles the
        habit's selection and leaves the list and the store alone. */
    method HandlePressHabit(id: int)
      requires Valid()
      modifies this, storage
      ensures !old(isEditMode) ==> habits == ToggleById(old(habits), id)
      ensures !old(isEditMode) ==> storage.items == old(storage.items)[HabitsKey := habits]
      ensures !old(isEditMode) ==> selectedIds == old(selectedIds)
      ensures old(isEditMode) ==> habits == old(habits) && storage.items == old(storage.items)
      ensures old(isEditMode) ==> selectedIds == ToggleSelection(old(selectedIds), id)
      ensures old(isEditMode) ==> (id in selectedIds <==> id !in old(selectedIds))
      ensures Valid()
      ensures old(Persisted()) ==> Persisted()
      ensures showCompleted == old(showCompleted) && searchText == old(searchText)
      ensures isEditMode == old(isEditMode)
    {
      if !isEditMode {
        ToggleHabit(id);
        return;
      }
      ToggleSelectionNoDuplicates(selectedIds, id);
      selectedIds := ToggleSelection(selectedIds, id);
    }

    /** Deletes the selected habits, leaves edit mode and writes the list; with nothing selected
        it does nothing at all. */
    method DeleteSelectedHabits()
      requires Valid()
      modifies this, storage
      ensures old(selectedIds) == [] ==>
                habits == old(habits) && storage.items == old(storage.items) && isEditMode == old(isEditMode)
      ensures old(selectedIds) != [] ==> habits == RemoveSelected(old(habits), old(selectedIds))
      ensures old(selectedIds) != [] ==> storage.items == old(storage.items)[HabitsKey := habits]
      ensures old(selectedIds) != [] ==> Persisted() && !isEditMode
      ensures forall h :: h in habits <==> h in old(habits) && h.id !in old(selectedIds)
      ensures UniqueIds(old(habits)) ==> UniqueIds(habits)
      ensures selectedIds == [] && Valid()
      ensures old(Persisted()) ==> Persisted()
      ensures showCompleted == old(showCompleted) && searchText == old(searchText)
    {
      if |selectedIds| == 0 {
        return;
      }
      var updated := RemoveSelected(habits, selectedIds);
      if UniqueIds(habits) {
        RemoveSelectedUniqueIds(habits, selectedIds);
      }
      habits := updated;
      selectedIds := [];
      isEditMode := false;
      storage.SetItem(HabitsKey, updated);
    }

    /** The delete button: enters edit mode with an empty selection. */
    method EnterEditMode()
      requires Valid()
      modifies this
      ensures isEditMode && Valid()
      ensures !old(isEditMode) ==> selectedIds == []
      ensures selectedIds == old(selectedIds)
      ensures habits == old(habits) && showCompleted == old(showCompleted) && searchText == old(searchText)
    {
      isEditMode := true;
    }

    /** The cancel button: leaves edit mode and clears the selection together. */
    method CancelEditMode()
      requires Valid()
      modifies this
      ensures !isEditMode && selectedIds == [] && Valid()
      ensures habits == old(habits) && showCompleted == old(showCompleted) && searchText == old(searchText)
    {
      isEditMode := false;
      selectedIds := [];
    }

    /** The filter button: switches between all habits and uncompleted habits only. */
    method ToggleShowCompleted()
      requires Valid()
      modifies this
      ensures showCompleted == !old(showCompleted) && Valid()
      ensures habits == old(habits) && searchText == old(searchText)
      ensures isEditMode == old(isEditMode) && selectedIds == old(selectedIds)
    {
      showCompleted := !showCompleted;
    }

    /** The search box: replaces the search text; nothing is written to the store. */
    method SetSearchText(text: string)
      requires Valid()
      modifies this
      ensures searchText == text && Valid()
      ensures habits == old(habits) && showCompleted == old(showCompleted)
      ensures isEditMode == old(isEditMode) && selectedIds == old(selectedIds)
    {
      searchText := text;
    }
  }
}
