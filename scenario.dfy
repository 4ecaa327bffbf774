/** The worked example of the home screen: "Run" still open, "Read" already done. */
module Scenario {
  import opened Text
  import opened Habits
  import opened Storage
  import opened UseHabit

  /** Initial list of the example. */
  function RunRead(): seq<Habit> {
    [Habit(1, "Run", false), Habit(2, "Read", true)]
  }

  /** Searching for "ea" matches "Read" but not "Run". */
  lemma SearchForEa()
    ensures !MatchesSearch("Run", "ea")
    ensures MatchesSearch("Read", "ea")
  {
    assert Lower("Run") == "run" by {
      assert Lower("n") == "n";
      assert Lower("un") == "u" + Lower("n");
    }
    assert Lower("ea") == "ea" by {
      assert Lower("a") == "a";
    }
    assert Lower("Read") == "read" by {
      assert Lower("d") == "d";
      assert Lower("ad") == "a" + Lower("d");
      assert Lower("ead") == "e" + Lower("ad");
    }
    assert !Includes("", "ea");
    assert !Includes("n", "ea");
    assert !Includes("un", "ea");
    assert "read"[1..] == "ead";
    assert Includes("ead", "ea");
  }

  /** Half the habits are done. */
  lemma RunReadProgress()
    ensures Progress(RunRead()) == 0.5
  {
    assert CompletedCount(RunRead()) == 1 by {
      assert RunRead()[1..] == [Habit(2, "Read", true)];
      assert CompletedCount([Habit(2, "Read", true)]) == 1;
    }
  }

  /** Hiding completed habits shows only "Run"; toggling all then completes "Run" and leaves
      "Read" alone; searching for "ea" shows only "Read". */
  lemma RunReadExample()
    ensures FilteredHabits(RunRead(), false, "") == [Habit(1, "Run", false)]
    ensures ToggleAll(RunRead(), false, "") == [Habit(1, "Run", true), Habit(2, "Read", true)]
    ensures FilteredHabits(RunRead(), true, "ea") == [Habit(2, "Read", true)]
  {
    var l := RunRead();
    assert l[1..] == [Habit(2, "Read", true)];
    assert FilterByCompletion(l, false) == [Habit(1, "Run", false)];
    FilterBySearchEmpty([Habit(1, "Run", false)]);
    var visible := FilteredHabits(l, false, "");
    assert IdSet(visible) == {1};
    assert !AllCompleted(visible);
    FilterByCompletionShowAll(l);
    SearchForEa();
  }

  /** The same example driven through the screen's handlers and the device store. */
  method RunReadSession() {
    var device := new KeyValueStore();
    device.SetItem(HabitsKey, RunRead());
    var screen := new HabitStore(device);
    screen.LoadHabits();
    assert screen.habits == RunRead();
    RunReadExample();
    screen.ToggleShowCompleted();
    screen.ToggleAllHabits();
    assert device.items[HabitsKey] == [Habit(1, "Run", true), Habit(2, "Read", true)];
    screen.LoadHabits();
    assert screen.habits == [Habit(1, "Run", true), Habit(2, "Read", true)];
  }
}
