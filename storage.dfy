/** The device's key-value store as the habit screens use it. A value is kept as the
    habit list it serialises: writing a list and reading it back gives the same list. */
module Storage {
  import opened Habits

  datatype Option<T> = None | Some(value: T)

  class KeyValueStore {
    /** What is stored under each key. */
    var items: map<string, seq<Habit>>

    /** An empty store. */
    constructor ()
      ensures items == map[]
    {
      items := map[];
    }

    /** The value under `key`, or `None` when nothing is stored there. */
    function Get(key: string): Option<seq<Habit>>
      reads this
    {
      if key in items then Some(items[key]) else None
    }

    /** Reads the value under `key`. */
    method GetItem(key: string) returns (data: Option<seq<Habit>>)
      ensures data.Some? <==> key in items
      ensures data.Some? ==> data.value == items[key]
    {
      data := Get(key);
    }

    /** Overwrites the value under `key`; every other key keeps its value. */
    method SetItem(key: string, value: seq<Habit>)
      modifies this
      ensures items == old(items)[key := value]
      ensures Get(key) == Some(value)
    {
      items := items[key := value];
    }
  }
}
