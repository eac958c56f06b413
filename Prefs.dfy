/** Persistence of the two task lists (`SharedPrefManager.java`) in the private preferences file
    "task_manager_pref", under the keys "tasks" and "completed_tasks". The file itself is
    modelled as a map from key to the list its JSON text reads back as. */
module Prefs {
  import opened Nullable
  import opened Tasks

  const PrefName: string := "task_manager_pref"
  const KeyTasks: string := "tasks"
  const KeyCompletedTasks: string := "completed_tasks"

  /** A stored list as JSON deserialisation returns it: `Some(list)`, or `None` for a JSON text
      that reads back as null. A key that is absent is one `getString` answers null for. */
  type Stored = Option<seq<TaskRecord>>

  /** The preferences file: what each key holds. */
  class Preferences {
    var values: map<string, Stored>

    constructor (initial: map<string, Stored>)
      ensures values == initial
    {
      values := initial;
    }

    /** `edit().putString(key, toJson(ts)).apply()`. */
    method PutList(key: string, ts: seq<TaskRecord>)
      modifies this
      ensures values == old(values)[key := Some(ts)]
    {
      values := values[key := Some(ts)];
    }

    /** `edit().clear().apply()`. */
    method ClearValues()
      modifies this
      ensures values == map[]
    {
      values := map[];
    }
  }

  /** The list after the normalisation loop: each task's `imageUri` in normal form, nothing
      else touched. */
  function NormalizeAll(ts: seq<TaskRecord>): (r: seq<TaskRecord>)
    ensures |r| == |ts|
    ensures forall k :: 0 <= k < |r| ==> IsNormalUri(r[k].imageUri)
    ensures forall k :: 0 <= k < |r| ==> r[k].(imageUri := ts[k].imageUri) == ts[k]
    ensures forall k :: 0 <= k < |r| && IsNormalUri(ts[k].imageUri) ==> r[k] == ts[k]
  {
    seq(|ts|, k requires 0 <= k < |ts| => Normalize(ts[k]))
  }

  /** Every task of the list has its `imageUri` in normal form. */
  predicate AllNormal(ts: seq<TaskRecord>) {
    forall k :: 0 <= k < |ts| ==> IsNormalUri(ts[k].imageUri)
  }

  /** A list already in normal form is left as it is. */
  lemma {:induction false} NormalizeAllFixed(ts: seq<TaskRecord>)
    requires AllNormal(ts)
    ensures NormalizeAll(ts) == ts
  {
    var r := NormalizeAll(ts);
    forall k | 0 <= k < |ts| ensures r[k] == ts[k] {
      assert IsNormalUri(ts[k].imageUri);
    }
  }

  /** Normalising twice is normalising once. */
  lemma NormalizeAllIdempotent(ts: seq<TaskRecord>)
    ensures NormalizeAll(NormalizeAll(ts)) == NormalizeAll(ts)
  {
    NormalizeAllFixed(NormalizeAll(ts));
  }

  /** One of the sample tasks shown on first start; its constructor reads the clock twice. */
  function DefaultTask(title: string, description: string, idMillis: int, createdMillis: int): (r: TaskRecord)
    ensures r.title == Some(title) && r.description == Some(description)
    ensures !r.completed && r.imageUri.None? && r.createdAt == createdMillis
  {
    NewRecord(idMillis, createdMillis).(title := Some(title), description := Some(description))
  }

  /** The three sample tasks `getTasks` returns when nothing was ever saved; `clock(i)` is the
      i-th clock reading. */
  function DefaultTasks(clock: nat -> int): (r: seq<TaskRecord>)
    ensures |r| == 3 && AllNormal(r)
    ensures forall k :: 0 <= k < 3 ==> !r[k].completed && !HasImageUri(r[k].imageUri)
  {
    [ DefaultTask("Купить продукты", "Молоко, хлеб, яйца, фрукты", clock(0), clock(1)),
      DefaultTask("Сделать домашку", "Математика и физика", clock(2), clock(3)),
      DefaultTask("Позвонить маме", "Обсудить планы на выходные", clock(4), clock(5)) ]
  }

  /** A stored list as a getter returns it: a null reading becomes the empty list, any other
      list comes back normalised. */
  function LoadStored(v: Stored): (r: seq<TaskRecord>)
    ensures AllNormal(r)
    ensures v.None? ==> r == []
    ensures v.Some? ==> |r| == |v.value|
  {
    match v
    case None => []
    case Some(ts) => NormalizeAll(ts)
  }

  /** What `getTasks()` returns for the file contents `values`. */
  function LoadTasks(values: map<string, Stored>, clock: nat -> int): (r: seq<TaskRecord>)
    ensures AllNormal(r)
    ensures KeyTasks !in values ==> r == DefaultTasks(clock)
    ensures KeyTasks in values ==> r == LoadStored(values[KeyTasks])
  {
    if KeyTasks !in values then DefaultTasks(clock) else LoadStored(values[KeyTasks])
  }

  /** What `getCompletedTasks()` returns for the file contents `values`. */
  function LoadCompleted(values: map<string, Stored>): (r: seq<TaskRecord>)
    ensures AllNormal(r)
    ensures KeyCompletedTasks !in values ==> r == []
    ensures KeyCompletedTasks in values ==> r == LoadStored(values[KeyCompletedTasks])
  {
    if KeyCompletedTasks !in values then [] else LoadStored(values[KeyCompletedTasks])
  }

  /** After `saveTasks(ts)`, `getTasks()` returns `ts` normalised, and `getCompletedTasks()` what
      it returned before. */
  lemma SaveTasksThenLoad(values: map<string, Stored>, ts: seq<TaskRecord>, clock: nat -> int)
    ensures LoadTasks(values[KeyTasks := Some(ts)], clock) == NormalizeAll(ts)
    ensures LoadCompleted(values[KeyTasks := Some(ts)]) == LoadCompleted(values)
  {
    assert KeyTasks != KeyCompletedTasks;
  }

  /** After `saveCompletedTasks(ts)`, the completed list reads back as `ts` normalised, and the
      active list is read as before. */
  lemma SaveCompletedThenLoad(values: map<string, Stored>, ts: seq<TaskRecord>, clock: nat -> int)
    ensures LoadCompleted(values[KeyCompletedTasks := Some(ts)]) == NormalizeAll(ts)
    ensures LoadTasks(values[KeyCompletedTasks := Some(ts)], clock) == LoadTasks(values, clock)
  {
    assert KeyTasks != KeyCompletedTasks;
  }

  /** Saving a list that was loaded, and loading it again, gives the same list. */
  lemma {:induction false} ReloadIsStable(values: map<string, Stored>, clock: nat -> int, later: nat -> int)
    ensures LoadTasks(values[KeyTasks := Some(LoadTasks(values, clock))], later) == LoadTasks(values, clock)
  {
    var ts := LoadTasks(values, clock);
    SaveTasksThenLoad(values, ts, later);
    NormalizeAllFixed(ts);
  }

  /** After `clearAll()` the sample tasks come back (with fresh clock readings) and the completed
      list is empty. */
  lemma ClearedLoad(clock: nat -> int)
    ensures LoadTasks(map[], clock) == DefaultTasks(clock)
    ensures LoadCompleted(map[]) == []
  {
  }

  /** Java's loop over the deserialised list, `setImageUri(null)` on each task whose `imageUri`
      is "null" or empty. */
  method NormalizeUris(ts: seq<TaskRecord>) returns (r: seq<TaskRecord>)
    ensures r == NormalizeAll(ts)
  {
    r := ts;
    var i := 0;
    while i < |r|
      invariant 0 <= i <= |r| == |ts|
      invariant forall k :: 0 <= k < i ==> r[k] == Normalize(ts[k])
      invariant forall k :: i <= k < |r| ==> r[k] == ts[k]
    {
      var u := r[i].imageUri;
      if u.Some? && (u.value == NullText || u.value == "") {
        r := r[i := r[i].(imageUri := NormalizedUri(None))];
      }
      i := i + 1;
    }
  }

  /** The store object over one preferences file. */
  class SharedPrefManager {
    const prefs: Preferences

    constructor (prefs: Preferences)
      ensures this.prefs == prefs
    {
      this.prefs := prefs;
    }

    method SaveTasks(ts: seq<TaskRecord>)
      modifies prefs
      ensures prefs.values == old(prefs.values)[KeyTasks := Some(ts)]
    {
      prefs.PutList(KeyTasks, ts);
    }

    method SaveCompletedTasks(ts: seq<TaskRecord>)
      modifies prefs
      ensures prefs.values == old(prefs.values)[KeyCompletedTasks := Some(ts)]
    {
      prefs.PutList(KeyCompletedTasks, ts);
    }

    /** `getTasks()`; `clock` supplies the readings used by the sample tasks' constructors. */
    method GetTasks(clock: nat -> int) returns (r: seq<TaskRecord>)
      ensures r == LoadTasks(prefs.values, clock)
    {
      if KeyTasks !in prefs.values {
        return DefaultTasks(clock);
      }
      var stored := prefs.values[KeyTasks];
      if stored.None? {
        return [];
      }
      r := NormalizeUris(stored.value);
    }

    method GetCompletedTasks() returns (r: seq<TaskRecord>)
      ensures r == LoadCompleted(prefs.values)
    {
      if KeyCompletedTasks !in prefs.values {
        return [];
      }
      var stored := prefs.values[KeyCompletedTasks];
      if stored.None? {
        return [];
      }
      r := NormalizeUris(stored.value);
    }

    method ClearAll()
      modifies prefs
      ensures prefs.values == map[]
    {
      prefs.ClearValues();
    }
  }
}
