/** The in-memory habit store (internal/database/dynamodb.go).

    The store holds two tables: `habits`, from habit id to habit, and `logs`,
    from habit id to that habit's completion records in insertion order.
    Every `time.Now()` of the Go code is a clock reading passed in by the
    caller; the ghost field `clock` remembers the latest reading, and the
    mutators ask for readings that do not go backwards (a monotonic clock). */
module Database {
  import opened Models

  /** The only failure of the store: "habit not found". */
  datatype Error = HabitNotFound

  datatype Result<T> = Success(value: T) | Failure(error: Error)

  datatype Option<T> = None | Some(value: T)

  // ---------------------------------------------------------------------------
  // Partial update of a habit
  // ---------------------------------------------------------------------------

  /** The habit after `UpdateHabit` applied `u` at clock reading `now`. */
  function ApplyUpdate(h: Habit, u: UpdateHabitRequest, now: nat): (r: Habit)
    // only the name, the description and the update time can differ
    ensures r.(name := h.name, description := h.description, updatedAt := h.updatedAt) == h
    ensures r.updatedAt == now
    // a field changes only to a non-empty requested value, and a non-empty request always lands
    ensures r.name != h.name ==> u.name != "" && r.name == u.name
    ensures u.name != "" ==> r.name == u.name
    ensures r.description != h.description ==> u.description != "" && r.description == u.description
    ensures u.description != "" ==> r.description == u.description
    // an update never clears a name
    ensures h.name != "" ==> r.name != ""
  {
    h.(name := if u.name != "" then u.name else h.name,
       description := if u.description != "" then u.description else h.description,
       updatedAt := now)
  }

  /** The request whose effect is that of `first` followed by `second`:
      the later non-empty field wins. */
  function Merge(first: UpdateHabitRequest, second: UpdateHabitRequest): UpdateHabitRequest {
    UpdateHabitRequest(
      if second.name != "" then second.name else first.name,
      if second.description != "" then second.description else first.description)
  }

  /** Two successive updates are one update with the merged request,
      stamped with the later reading. */
  lemma UpdateTwice(h: Habit, u1: UpdateHabitRequest, t1: nat, u2: UpdateHabitRequest, t2: nat)
    ensures ApplyUpdate(ApplyUpdate(h, u1, t1), u2, t2) == ApplyUpdate(h, Merge(u1, u2), t2)
  {
  }

  /** Repeating an update at the same reading changes nothing more. */
  lemma UpdateIdempotent(h: Habit, u: UpdateHabitRequest, now: nat)
    ensures ApplyUpdate(ApplyUpdate(h, u, now), u, now) == ApplyUpdate(h, u, now)
  {
    UpdateTwice(h, u, now, u, now);
  }

  /** An update with both fields empty only refreshes the update time. */
  lemma EmptyUpdateOnlyRefreshes(h: Habit, now: nat)
    ensures ApplyUpdate(h, UpdateHabitRequest("", ""), now) == h.(updatedAt := now)
  {
  }

  // ---------------------------------------------------------------------------
  // Per-habit log lists: upsert by date
  // ---------------------------------------------------------------------------

  /** The log list stored for `id`, or the empty list when there is none. */
  function Entries(logs: map<string, seq<HabitLog>>, id: string): seq<HabitLog> {
    if id in logs then logs[id] else []
  }

  /** No two entries of `l` share a date. */
  predicate DistinctDates(l: seq<HabitLog>) {
    forall i, j :: 0 <= i < j < |l| ==> l[i].date != l[j].date
  }

  /** The index of the first entry of `l` dated `date`, if any. */
  function FindDate(l: seq<HabitLog>, date: string): (r: Option<nat>)
    ensures r.None? <==> forall j :: 0 <= j < |l| ==> l[j].date != date
    ensures r.Some? ==> r.value < |l| && l[r.value].date == date
    ensures r.Some? ==> forall j :: 0 <= j < r.value ==> l[j].date != date
  {
    if l == [] then None
    else if l[0].date == date then Some(0)
    else match FindDate(l[1..], date)
      case None => None
      case Some(i) => Some(i + 1)
  }

  /** The list after `LogHabit` recorded `x`: the first entry with the same
      date is overwritten in place, otherwise `x` is appended. */
  function Upsert(l: seq<HabitLog>, x: HabitLog): (r: seq<HabitLog>)
    ensures |l| <= |r| <= |l| + 1
    ensures x in r
  {
    match FindDate(l, x.date)
    case Some(i) => assert l[i := x][i] == x; l[i := x]
    case None => assert (l + [x])[|l|] == x; l + [x]
  }

  /** The upsert rule: an existing date keeps the length and replaces the
      first entry with that date; a new date is appended at the end. */
  lemma UpsertByDate(l: seq<HabitLog>, x: HabitLog)
    ensures (exists j :: 0 <= j < |l| && l[j].date == x.date) ==>
      exists i :: 0 <= i < |l| && l[i].date == x.date
        && (forall j :: 0 <= j < i ==> l[j].date != x.date)
        && Upsert(l, x) == l[i := x]
    ensures (forall j :: 0 <= j < |l| ==> l[j].date != x.date) ==> Upsert(l, x) == l + [x]
  {
    match FindDate(l, x.date)
    case Some(i) =>
      assert l[i].date == x.date;
    case None =>
  }

  /** Entries with another date keep their value and their position, and
      the list never shrinks. */
  lemma UpsertKeepsOtherDates(l: seq<HabitLog>, x: HabitLog)
    ensures |l| <= |Upsert(l, x)| <= |l| + 1
    ensures forall j :: 0 <= j < |l| && l[j].date != x.date ==> Upsert(l, x)[j] == l[j]
  {
  }

  /** Every entry of the new list is `x` or an entry of the old list. */
  lemma UpsertElements(l: seq<HabitLog>, x: HabitLog)
    ensures x in Upsert(l, x)
    ensures forall e :: e in Upsert(l, x) ==> e == x || e in l
  {
    match FindDate(l, x.date)
    case Some(i) =>
      var r := l[i := x];
      assert r[i] == x;
      forall e | e in r ensures e == x || e in l {
        var k :| 0 <= k < |r| && r[k] == e;
        if k != i { assert l[k] == e; }
      }
    case None =>
  }

  /** Upserting keeps the dates of a list pairwise distinct, and afterwards
      `x` is the one entry for its date. */
  lemma UpsertKeepsDistinct(l: seq<HabitLog>, x: HabitLog)
    requires DistinctDates(l)
    ensures DistinctDates(Upsert(l, x))
    ensures forall j :: 0 <= j < |Upsert(l, x)| && Upsert(l, x)[j].date == x.date ==> Upsert(l, x)[j] == x
  {
    match FindDate(l, x.date)
    case Some(i) =>
      var r := l[i := x];
      forall p, q | 0 <= p < q < |r| ensures r[p].date != r[q].date {
        if p == i { assert r[q] == l[q]; assert l[i].date != l[q].date; }
        else if q == i { assert r[p] == l[p]; assert l[p].date != l[i].date; }
        else { assert r[p] == l[p] && r[q] == l[q]; }
      }
      forall j | 0 <= j < |r| && j != i ensures r[j].date != x.date {
        assert r[j] == l[j];
        if j < i { assert l[j].date != l[i].date; } else { assert l[i].date != l[j].date; }
      }
    case None =>
      var r := l + [x];
      forall p, q | 0 <= p < q < |r| ensures r[p].date != r[q].date {
        if q == |l| { assert r[p] == l[p]; } else { assert r[p] == l[p] && r[q] == l[q]; }
      }
  }

  /** Logging twice for the same date leaves what the second call alone
      would have left: the later record wins and nothing is duplicated. */
  lemma UpsertLastWriteWins(l: seq<HabitLog>, a: HabitLog, b: HabitLog)
    requires a.date == b.date
    ensures Upsert(Upsert(l, a), b) == Upsert(l, b)
  {
    var d := a.date;
    match FindDate(l, d)
    case Some(i) =>
      var m := l[i := a];
      assert forall j :: 0 <= j < i ==> m[j] == l[j];
      assert m[i].date == d;
      assert FindDate(m, d) == Some(i);
    case None =>
      var m := l + [a];
      assert forall j :: 0 <= j < |l| ==> m[j] == l[j];
      assert m[|l|].date == d;
      assert FindDate(m, d) == Some(|l|);
      assert m[|l| := b] == l + [b];
  }

  // ---------------------------------------------------------------------------
  // The store invariant
  // ---------------------------------------------------------------------------

  /** Every entry of `l` belongs to habit `id` and was stamped no later than `clock`. */
  predicate LogsBelongTo(l: seq<HabitLog>, id: string, clock: nat) {
    forall i :: 0 <= i < |l| ==> l[i].habitId == id && l[i].createdAt <= clock
  }

  /** What every operation of the store keeps:
      - each habit is filed under its own id, created no later than updated,
        and both no later than the latest clock reading;
      - every key of `logs` is a key of `habits`;
      - each stored log list is non-empty, has pairwise-distinct dates and
        holds only records of its own habit. */
  predicate StoreInvariant(habits: map<string, Habit>, logs: map<string, seq<HabitLog>>, clock: nat) {
    && (forall k :: k in habits ==> habits[k].id == k && habits[k].createdAt <= habits[k].updatedAt <= clock)
    && logs.Keys <= habits.Keys
    && (forall k :: k in logs ==> logs[k] != [] && DistinctDates(logs[k]) && LogsBelongTo(logs[k], k, clock))
  }

  /** A later clock reading keeps the invariant. */
  lemma InvariantLaterClock(habits: map<string, Habit>, logs: map<string, seq<HabitLog>>, clock: nat, now: nat)
    requires StoreInvariant(habits, logs, clock) && clock <= now
    ensures StoreInvariant(habits, logs, now)
  {
    forall k | k in logs ensures LogsBelongTo(logs[k], k, now) {
      assert LogsBelongTo(logs[k], k, clock);
    }
  }

  /** Recording a log for an existing habit keeps the invariant. */
  lemma LogPreservesInvariant(habits: map<string, Habit>, logs: map<string, seq<HabitLog>>, clock: nat,
                              log: HabitLog, now: nat)
    requires StoreInvariant(habits, logs, clock) && log.habitId in habits && clock <= now
    ensures StoreInvariant(habits, logs[log.habitId := Upsert(Entries(logs, log.habitId), log.(createdAt := now))], now)
  {
    var id := log.habitId;
    var x := log.(createdAt := now);
    var l := Entries(logs, id);
    var r := Upsert(l, x);
    InvariantLaterClock(habits, logs, clock, now);
    assert DistinctDates(l) && LogsBelongTo(l, id, now);
    UpsertKeepsDistinct(l, x);
    UpsertElements(l, x);
    forall i | 0 <= i < |r| ensures r[i].habitId == id && r[i].createdAt <= now {
      assert r[i] in r;
      if r[i] != x {
        var k :| 0 <= k < |l| && l[k] == r[i];
      }
    }
  }

  // ---------------------------------------------------------------------------
  // The store
  // ---------------------------------------------------------------------------

  class HabitsStorage {
    var habits: map<string, Habit>
    var logs: map<string, seq<HabitLog>>
    /** The latest clock reading the store has used. */
    ghost var clock: nat

    ghost predicate Valid()
      reads this
    {
      StoreInvariant(habits, logs, clock)
    }

    /** The empty store that `GetStorage` creates. */
    constructor ()
      ensures Valid()
      ensures habits == map[] && logs == map[] && clock == 0
    {
      habits := map[];
      logs := map[];
      clock := 0;
    }

    /** Files `habit` under its id, overwriting any habit with that id, after
        stamping it with the two readings `t1` and `t2`. Never fails; the
        stamped habit is what the caller's record holds afterwards. */
    method CreateHabit(habit: Habit, t1: nat, t2: nat) returns (r: Result<Habit>)
      requires Valid() && clock <= t1 <= t2
      modifies this
      ensures Valid()
      ensures r == Success(habit.(createdAt := t1, updatedAt := t2))
      ensures r.value.createdAt <= r.value.updatedAt
      ensures habits == old(habits)[habit.id := r.value]
      ensures logs == old(logs)
      ensures clock == t2
    {
      var stamped := habit.(createdAt := t1);
      stamped := stamped.(updatedAt := t2);
      InvariantLaterClock(habits, logs, clock, t2);
      clock := t2;
      habits := habits[habit.id := stamped];
      r := Success(stamped);
    }

    /** The habits owned by `userId`, each stored one exactly once, in an
        unspecified order. Never fails. */
    method GetHabitsByUserID(userId: string) returns (r: Result<seq<Habit>>)
      requires Valid()
      ensures r.Success?
      ensures forall i :: 0 <= i < |r.value| ==>
        r.value[i].id in habits && habits[r.value[i].id] == r.value[i] && r.value[i].userId == userId
      ensures forall k :: k in habits && habits[k].userId == userId ==>
        exists i :: 0 <= i < |r.value| && r.value[i] == habits[k]
      ensures forall i, j :: 0 <= i < j < |r.value| ==> r.value[i].id != r.value[j].id
    {
      var found: seq<Habit> := [];
      var remaining := habits.Keys;
      while remaining != {}
        invariant remaining <= habits.Keys
        invariant forall i :: 0 <= i < |found| ==>
          found[i].id in habits && habits[found[i].id] == found[i]
          && found[i].userId == userId && found[i].id !in remaining
        invariant forall k :: k in habits && k !in remaining && habits[k].userId == userId ==>
          exists i :: 0 <= i < |found| && found[i] == habits[k]
        invariant forall i, j :: 0 <= i < j < |found| ==> found[i].id != found[j].id
        decreases remaining
      {
        var k :| k in remaining;
        ghost var before := found;
        if habits[k].userId == userId {
          found := found + [habits[k]];
          assert found[|found| - 1] == habits[k];
        }
        remaining := remaining - {k};
        forall k' | k' in habits && k' !in remaining && habits[k'].userId == userId
          ensures exists i :: 0 <= i < |found| && found[i] == habits[k']
        {
          if k' == k {
            assert found[|found| - 1] == habits[k'];
          } else {
            var i :| 0 <= i < |before| && before[i] == habits[k'];
            assert found[i] == habits[k'];
          }
        }
      }
      r := Success(found);
    }

    /** The habit filed under `id`, or "habit not found". */
    method GetHabitByID(id: string) returns (r: Result<Habit>)
      requires Valid()
      ensures id in habits ==> r == Success(habits[id])
      ensures id !in habits ==> r == Failure(HabitNotFound)
      ensures r.Success? ==> r.value.id == id
    {
      if id !in habits {
        return Failure(HabitNotFound);
      }
      r := Success(habits[id]);
    }

    /** Applies the non-empty fields of `updates` to the habit filed under
        `id` and refreshes its update time, or reports "habit not found"
        and changes nothing. */
    method UpdateHabit(id: string, updates: UpdateHabitRequest, now: nat) returns (r: Result<()>)
      requires Valid() && clock <= now
      modifies this
      ensures Valid()
      ensures id !in old(habits) ==>
        r == Failure(HabitNotFound) && habits == old(habits) && logs == old(logs) && clock == old(clock)
      ensures id in old(habits) ==>
        r == Success(()) && habits == old(habits)[id := ApplyUpdate(old(habits)[id], updates, now)]
        && logs == old(logs) && clock == now
    {
      if id !in habits {
        return Failure(HabitNotFound);
      }
      var habit := habits[id];
      if updates.name != "" {
        habit := habit.(name := updates.name);
      }
      if updates.description != "" {
        habit := habit.(description := updates.description);
      }
      habit := habit.(updatedAt := now);
      InvariantLaterClock(habits, logs, clock, now);
      clock := now;
      habits := habits[id := habit];
      r := Success(());
    }

    /** Removes the habit filed under `id` together with all its logs, or
        reports "habit not found" and changes nothing. */
    method DeleteHabit(id: string) returns (r: Result<()>)
      requires Valid()
      modifies this
      ensures Valid()
      ensures clock == old(clock)
      ensures id !in old(habits) ==> r == Failure(HabitNotFound) && habits == old(habits) && logs == old(logs)
      ensures id in old(habits) ==> r == Success(()) && habits == old(habits) - {id} && logs == old(logs) - {id}
    {
      if id !in habits {
        return Failure(HabitNotFound);
      }
      habits := habits - {id};
      logs := logs - {id};
      r := Success(());
    }

    /** Records `log` for its habit, stamped with reading `now`: the first
        entry with the same date is overwritten in place, otherwise the log
        is appended. Reports "habit not found" and changes nothing when the
        habit does not exist. The habits table is never changed. */
    method LogHabit(log: HabitLog, now: nat) returns (r: Result<HabitLog>)
      requires Valid() && clock <= now
      modifies this
      ensures Valid()
      ensures habits == old(habits)
      ensures log.habitId !in habits ==>
        r == Failure(HabitNotFound) && logs == old(logs) && clock == old(clock)
      ensures log.habitId in habits ==>
        r == Success(log.(createdAt := now)) && clock == now
        && logs == old(logs)[log.habitId := Upsert(Entries(old(logs), log.habitId), r.value)]
    {
      if log.habitId !in habits {
        return Failure(HabitNotFound);
      }
      var id := log.habitId;
      var stamped := log.(createdAt := now);
      LogPreservesInvariant(habits, logs, clock, log, now);
      clock := now;
      var list := if id in logs then logs[id] else [];
      var i := 0;
      while i < |list|
        invariant 0 <= i <= |list|
        invariant forall j :: 0 <= j < i ==> list[j].date != log.date
      {
        if list[i].date == log.date {
          logs := logs[id := list[i := stamped]];
          return Success(stamped);
        }
        i := i + 1;
      }
      logs := logs[id := list + [stamped]];
      r := Success(stamped);
    }

    /** The logs of habit `id` in insertion order, or the empty list when it
        has none. Never fails. */
    method GetHabitLogs(id: string) returns (r: Result<seq<HabitLog>>)
      requires Valid()
      ensures r.Success?
      ensures id in logs ==> r.value == logs[id]
      ensures id !in logs ==> r.value == []
      ensures id !in habits ==> r.value == []
      ensures DistinctDates(r.value)
      ensures forall i :: 0 <= i < |r.value| ==> r.value[i].habitId == id
    {
      if id !in logs {
        return Success([]);
      }
      r := Success(logs[id]);
    }
  }

  // ---------------------------------------------------------------------------
  // A client run through the store
  // ---------------------------------------------------------------------------

  /** Create a habit, log it twice for one date, then delete it:
      the second log replaces the first, and the delete empties the logs. */
  method LogTwiceThenDelete() returns (afterFirst: seq<HabitLog>, afterSecond: seq<HabitLog>,
                                       fetched: Result<Habit>, afterDelete: seq<HabitLog>)
    ensures afterFirst == [HabitLog("h1", "user123", "2025-01-15", true, "", 2)]
    ensures afterSecond == [HabitLog("h1", "user123", "2025-01-15", false, "skipped", 3)]
    ensures fetched == Failure(HabitNotFound)
    ensures afterDelete == []
  {
    var store := new HabitsStorage();
    var created := store.CreateHabit(Habit("h1", "user123", "Exercise", "", 0, 0), 1, 1);
    var got := store.GetHabitByID("h1");
    assert got == Success(Habit("h1", "user123", "Exercise", "", 1, 1));
    var first := HabitLog("h1", "user123", "2025-01-15", true, "", 2);
    var logged := store.LogHabit(first.(createdAt := 0), 2);
    assert FindDate([], first.date) == None;
    assert store.logs["h1"] == [first];
    var logs := store.GetHabitLogs("h1");
    afterFirst := logs.value;
    var second := HabitLog("h1", "user123", "2025-01-15", false, "skipped", 3);
    logged := store.LogHabit(second.(createdAt := 0), 3);
    assert FindDate([first], second.date) == Some(0);
    assert store.logs["h1"] == [second];
    logs := store.GetHabitLogs("h1");
    afterSecond := logs.value;
    var deleted := store.DeleteHabit("h1");
    fetched := store.GetHabitByID("h1");
    logs := store.GetHabitLogs("h1");
    afterDelete := logs.value;
  }
}
