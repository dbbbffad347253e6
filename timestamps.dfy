/** Timestamps as pandas holds them after parsing: a calendar day and a time of day. */
module Timestamps {

  /** Nanoseconds in one day, the resolution of a pandas timestamp. */
  const NanosPerDay: nat := 86_400_000_000_000

  type TimeOfDay = n: nat | n < NanosPerDay

  /** `day` counts days from an arbitrary epoch; `sinceMidnight` is the time of day. */
  datatype Timestamp = Timestamp(day: int, sinceMidnight: TimeOfDay)

  /** Strict chronological order. */
  predicate Before(a: Timestamp, b: Timestamp) {
    a.day < b.day || (a.day == b.day && a.sinceMidnight < b.sinceMidnight)
  }

  /** `.dt.normalize()`: the timestamp truncated to midnight of its day. */
  function Normalize(t: Timestamp): Timestamp {
    Timestamp(t.day, 0)
  }

  /** Normalizing removes the time of day: two timestamps on the same day become equal,
      and timestamps on different days stay apart. */
  lemma NormalizeSameDay(a: Timestamp, b: Timestamp)
    ensures Normalize(a) == Normalize(b) <==> a.day == b.day
    ensures Normalize(a).sinceMidnight == 0
  {
  }

  /** Normalizing twice is normalizing once. */
  lemma NormalizeIdempotent(t: Timestamp)
    ensures Normalize(Normalize(t)) == Normalize(t)
  {
  }

  /** Normalizing never moves a timestamp later and never reverses the order of two timestamps. */
  lemma NormalizeMonotone(a: Timestamp, b: Timestamp)
    ensures !Before(a, Normalize(a))
    ensures Before(a, b) ==> !Before(Normalize(b), Normalize(a))
  {
  }

  /** Before is a strict total order on timestamps: irreflexive, asymmetric, transitive and
      total. */
  lemma BeforeTotal(a: Timestamp, b: Timestamp, c: Timestamp)
    ensures !Before(a, a)
    ensures a != b ==> Before(a, b) || Before(b, a)
    ensures Before(a, b) ==> !Before(b, a)
    ensures Before(a, b) && Before(b, c) ==> Before(a, c)
  {
  }
}
