/** Record shapes of the habit tracker (internal/models/habit.go).
    Timestamps are readings of a natural-number clock instead of time.Time. */
module Models {

  /** A tracked behaviour owned by a user. */
  datatype Habit = Habit(
    id: string,
    userId: string,
    name: string,
    description: string,
    createdAt: nat,
    updatedAt: nat
  )

  /** One completion record of a habit on a calendar date ("2025-01-15"). */
  datatype HabitLog = HabitLog(
    habitId: string,
    userId: string,
    date: string,
    completed: bool,
    notes: string,
    createdAt: nat
  )

  /** A partial update: an empty field means "leave unchanged". */
  datatype UpdateHabitRequest = UpdateHabitRequest(name: string, description: string)
}
