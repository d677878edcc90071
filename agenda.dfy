/**
 The entities of the scheduling core (agenda/models.py): a doctor with a
 working day, and an appointment with the doctor on a date at a time of day.

 Times of day are whole minutes since midnight. A date is an abstract day
 number: the core only ever compares two dates for equality.
 */
module Agenda {

  /** Minutes in a day; a `TimeField` value is a time of day below this. */
  const MinutesPerDay: int := 1440

  /** A time of day (`TimeField`), in minutes since midnight. */
  type TimeOfDay = t: int | 0 <= t < MinutesPerDay

  /** A calendar date (`DateField`), as a day number. */
  type Date = int

  type DoctorId = nat
  type PatientId = nat

  datatype Option<T> = None | Some(value: T)

  /** The four `STATUS_CHOICES` of an appointment. */
  datatype Status =
    | Agendada    // scheduled
    | Confirmada  // confirmed
    | Cancelada   // cancelled
    | Realizada   // completed

  /** Default of `status`. */
  const DefaultStatus: Status := Agendada

  /** Default of `appointment_duration`, and of the slot length of a schedule. */
  const DefaultDuration: nat := 30

  /** A doctor's profile, reduced to what the core reads: its key and working day. */
  datatype Doctor = Doctor(id: DoctorId, startTime: TimeOfDay, endTime: TimeOfDay)

  /**
   An appointment row. `pk` is `None` until the row is first saved.
   `duration` is a `PositiveIntegerField`, which admits 0, so it is a `nat`.
   */
  datatype Appointment = Appointment(
    pk: Option<nat>,
    doctor: DoctorId,
    patient: PatientId,
    date: Date,
    time: TimeOfDay,
    duration: nat,
    status: Status,
    details: string)
}
