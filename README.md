# Habit tracker storage, modelled in Dafny

This project models the in-memory habit store `HabitsStorage` of the habit
tracker (`habit-tracker/internal/database/dynamodb.go`). Despite the file
name, the store does not use DynamoDB. It keeps two tables:

- `habits`: habit id to habit;
- `logs`: habit id to that habit's completion records, in insertion order.

It offers seven operations:

- create a habit (an unconditional insert);
- list a user's habits;
- get a habit by id;
- partially update a habit (empty fields are left alone);
- delete a habit together with its logs;
- record a completion log (overwrite the entry for the same date, otherwise append);
- fetch a habit's logs.

The record shapes come from `habit-tracker/internal/models/habit.go`.

Files:

- `models.dfy` (module `Models`): the datatypes `Habit`, `HabitLog` and `UpdateHabitRequest`.
- `database.dfy` (module `Database`): the store.
  - `HabitsStorage` is a class with the two map fields and a ghost `clock`.
  - Each Go method becomes a Dafny method. Mutators have `modifies this`; each one states the whole new state and keeps `Valid()`.
  - The partial update is specified by the function `ApplyUpdate`.
  - The log upsert is specified by `FindDate` (the first entry with a given date) and `Upsert`.
  - Lemmas prove the upsert rule: it keeps dates distinct, the last write wins, and other dates are untouched.
  - They also prove that the store invariant is preserved.

The store invariant (`StoreInvariant`, which is `HabitsStorage.Valid()`) has three parts:

- Each habit is filed under its own id, and `CreatedAt <= UpdatedAt <= clock`.
- Every key of `logs` is a key of `habits`.
- Each stored log list is non-empty and has pairwise-distinct dates. It holds only logs whose `HabitID` is its key and whose `CreatedAt` is at most `clock`.

It holds for the empty store that `GetStorage` builds, and every operation keeps it.

Clock: every `time.Now()` of the Go code is a natural-number clock reading that the caller passes in. `CreateHabit` calls `time.Now()` twice, so it takes two readings `t1 <= t2`. The ghost field `clock` is the latest reading the store has used. Mutators require a reading at least `clock`, which is what Go's monotonic clock provides.

`GetHabitsByUserID` ranges over a Go map, whose order is unspecified. The model picks the next key with `:|` from the keys not yet visited, so its contract holds whatever the order.

`CreateHabit` reads the clock twice (`dynamodb.go:37-38`). So the model promises `CreatedAt <= UpdatedAt`, not equality. `LogTwiceThenDelete` passes one reading twice, so there the two are equal.

## Model

| member | source | states |
|---|---|---|
| `Database.HabitsStorage.constructor` | habit-tracker/internal/database/dynamodb.go:22-30 | the initial store has empty `habits` and `logs` tables and satisfies the store invariant |
| `Database.HabitsStorage.CreateHabit` | habit-tracker/internal/database/dynamodb.go:33-41 | always succeeds; files the habit, stamped `CreatedAt = t1 <= UpdatedAt = t2`, under its id, overwriting any earlier entry; the logs and all other habits are unchanged; the invariant is kept |
| `Database.HabitsStorage.GetHabitsByUserID` | habit-tracker/internal/database/dynamodb.go:44-55 | never fails; every returned habit is a stored habit of that user; every stored habit of that user is returned; no habit is returned twice; the store is not changed |
| `Database.HabitsStorage.GetHabitByID` | habit-tracker/internal/database/dynamodb.go:58-67 | a present id gives the stored habit, whose ID is that id; an absent id gives "habit not found"; the store is not changed |
| `Database.HabitsStorage.UpdateHabit` | habit-tracker/internal/database/dynamodb.go:70-89 | an absent id gives "habit not found" and changes nothing; a present id replaces only that habit, by `ApplyUpdate`, leaves the logs alone, and keeps the invariant |
| `Database.ApplyUpdate` | habit-tracker/internal/database/dynamodb.go:79-85 | ID, UserID and CreatedAt are kept; UpdatedAt becomes the new reading; a field changes only to a non-empty requested value, and a non-empty requested value always lands; a non-empty name is never cleared |
| `Database.UpdateTwice` | habit-tracker/internal/database/dynamodb.go:79-85 | two successive updates equal one update whose request takes the later non-empty field of each, at the later reading |
| `Database.UpdateIdempotent` | habit-tracker/internal/database/dynamodb.go:79-85 | repeating an update at the same reading gives the same habit |
| `Database.EmptyUpdateOnlyRefreshes` | habit-tracker/internal/database/dynamodb.go:79-85 | an update with an empty name and an empty description changes only UpdatedAt |
| `Database.HabitsStorage.DeleteHabit` | habit-tracker/internal/database/dynamodb.go:92-103 | an absent id gives "habit not found" and changes nothing; a present id is removed from both `habits` and `logs`, and every other key is untouched |
| `Database.HabitsStorage.LogHabit` | habit-tracker/internal/database/dynamodb.go:106-131 | an unknown habit gives "habit not found" and changes nothing; otherwise the log, stamped with the new reading, is upserted into its habit's list by `Upsert`; other lists and the `habits` table are unchanged; the invariant is kept |
| `Database.FindDate` | habit-tracker/internal/database/dynamodb.go:118-126 | gives the index of the first entry with the date, or nothing exactly when no entry has that date |
| `Database.Upsert` | habit-tracker/internal/database/dynamodb.go:117-129 | the list after recording `x`: the first same-date entry is overwritten, otherwise `x` is appended; `x` is in the result, and the length grows by at most one and never shrinks. Its other properties are `UpsertByDate`, `UpsertKeepsOtherDates`, `UpsertElements`, `UpsertKeepsDistinct` and `UpsertLastWriteWins` |
| `Database.UpsertByDate` | habit-tracker/internal/database/dynamodb.go:117-129 | when some entry has the log's date, the first such entry is replaced at its index and the length is kept; otherwise the log is appended at the end |
| `Database.UpsertKeepsOtherDates` | habit-tracker/internal/database/dynamodb.go:119-129 | entries with a different date keep their value and position; the list grows by at most one and never shrinks |
| `Database.UpsertElements` | habit-tracker/internal/database/dynamodb.go:119-129 | the new log is in the result, and every other entry of the result was already in the list |
| `Database.UpsertKeepsDistinct` | habit-tracker/internal/database/dynamodb.go:117-129 | if the dates of a list are distinct, they stay distinct, and the new log is the only entry for its date |
| `Database.UpsertLastWriteWins` | habit-tracker/internal/database/dynamodb.go:117-129 | logging twice for the same date leaves exactly what the second log alone would leave |
| `Database.InvariantLaterClock` | habit-tracker/internal/database/dynamodb.go:37-38 | the store invariant survives a later clock reading, because stored timestamps are never in the future |
| `Database.LogPreservesInvariant` | habit-tracker/internal/database/dynamodb.go:111-129 | recording a log for an existing habit keeps the store invariant: logs keys stay within habit keys, and dates stay distinct |
| `Database.HabitsStorage.GetHabitLogs` | habit-tracker/internal/database/dynamodb.go:134-143 | never fails; gives the stored list in insertion order, or the empty list when there is none (in particular for an unknown habit); the returned logs all belong to that habit and have distinct dates |
| `Database.LogTwiceThenDelete` | habit-tracker/internal/database/dynamodb.go:106-143 | a run through the store: create `h1`, log 2025-01-15 as completed, then log it again as skipped. One log remains, holding the second call's values. After the delete, the habit is not found and its log list is empty |

## Left out

- Locking: the `sync.RWMutex` and the `sync.Once` singleton (`dynamodb.go:15-30`) serve concurrency. The model is one store used sequentially; its constructor is the empty store that `GetStorage` builds once.
- Wall-clock time: `time.Now()` and `time.Time` are replaced by natural-number readings passed in by the caller.
- Pointer aliasing: the Go store keeps `*Habit` and `*HabitLog` pointers, hands them out, and updates habits through them. The model stores values, so it does not capture that a caller holding a pointer sees later updates. The same holds for the log slice. `GetHabitLogs` returns the stored slice itself (`dynamodb.go:142`), and `LogHabit`'s `logs[i] = log` (`dynamodb.go:122`) writes into that same backing array. A caller who fetched the logs earlier therefore sees the overwrite, which the model's value sequences do not capture. The stamp that `CreateHabit` and `LogHabit` write into the caller's record is returned as the success value instead.
- Error results that are always nil: `GetHabitsByUserID` and `GetHabitLogs` return a Go `error` that is always nil. The model returns `Success` and states that it always does.
- Nil versus empty slice: Go returns a nil slice when no habit matches. The difference appears only in JSON serialisation, which is not modelled.
- The HTTP handlers (`internal/handlers/habit.go`), route registration and CORS in `cmd/api/main.go`, and `internal/config/config.go` are not part of this model. They are request parsing, id generation and HTTP plumbing around the store.
- JSON and `dynamodbav` struct tags, and the request types `CreateHabitRequest` and `LogHabitRequest` in `internal/models/habit.go`, are not modelled. Only handlers use them.
