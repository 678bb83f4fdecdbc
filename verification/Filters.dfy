/** The list filter and its time arithmetic: seconds by floor, ages by saturation to int64. */
module Filters {
  import opened Values

  const SECOND := 1_000_000_000

  /** olderThan is the exact length of the duration message in nanoseconds. */
  datatype ListRequest = ListRequest(createdSince: Option<Time>, olderThan: Option<int>, status: Int32,
                                     pageSize: Int32, pageToken: string)

  datatype ListFilter = ListFilter(createdSince: Option<int>, olderThan: Option<int>, status: Option<Int32>,
                                   pageSize: Int32, pageToken: string)

  /** The two readings of the clock that one age comparison makes. */
  datatype Readings = Readings(first: Time, second: Time)

  /** Whole seconds since the epoch, rounded down also before it */
  function Unix(t: Time): int {
    t / SECOND
  }

  function FromUnix(seconds: int): Time {
    seconds * SECOND
  }

  function Saturate(d: int): int {
    if d < MIN_INT64 then MIN_INT64 else if d > MAX_INT64 then MAX_INT64 else d
  }

  /** The age of t at a reading of the clock */
  function Since(read: Time, t: Time): int {
    Saturate(read - t)
  }

  /** The cutoff for older_than: the duration saturates, and negating the least int64 wraps back to itself. */
  function Cutoff(now: Time, olderThan: int): int {
    Unix(now + Wrap64(-Saturate(olderThan)))
  }

  function FilterOf(req: ListRequest, now: Time): ListFilter {
    ListFilter(
      match req.createdSince case None => None case Some(t) => Some(Unix(t)),
      match req.olderThan case None => None case Some(d) => Some(Cutoff(now, d)),
      if req.status != INACTIVE then Some(req.status) else None,
      req.pageSize, req.pageToken)
  }

  /** The tests of the in-memory listing, in its order */
  predicate Passes(u: User, f: ListFilter, clock: Readings) {
    && (f.createdSince.Some? ==> !(AsTime(u.createDate) < FromUnix(f.createdSince.value)))
    && (f.olderThan.Some? ==>
          !(Since(clock.first, AsTime(u.createDate)) <= Since(clock.second, FromUnix(f.olderThan.value))))
    && (f.status.Some? ==> u.status == f.status.value)
  }

  lemma UnixBounds(t: Time)
    ensures FromUnix(Unix(t)) <= t < FromUnix(Unix(t)) + SECOND
  {
  }

  /** Seconds count from the epoch and are rounded down on both sides of it. */
  lemma UnixIsFloor(t: Time, seconds: int)
    ensures Unix(t) == seconds <==> seconds * 1_000_000_000 <= t < (seconds + 1) * 1_000_000_000
  {
  }

  /** A duration beyond the greatest int64 is cut down to it. */
  lemma CutoffOfLong(now: Time, olderThan: int, seconds: int)
    requires olderThan > MAX_INT64 && now == MAX_INT64 + FromUnix(seconds)
    ensures FromUnix(Cutoff(now, olderThan)) == FromUnix(seconds)
  {
    assert Unix(FromUnix(seconds)) == seconds;
  }

  /** The least int64 cannot be negated: the cutoff lies in the past where it should lie in the future. */
  lemma CutoffOfLeast(now: Time, olderThan: int)
    requires olderThan <= MIN_INT64
    ensures FromUnix(Cutoff(now, olderThan)) <= now + MIN_INT64
  {
    UnixBounds(now + MIN_INT64);
  }

  /** The filter in closed form: the drift between the two readings moves the cutoff earlier, and nothing
      passes once the age of the cutoff, or that of the user, has saturated. Who has no create date counts as
      created at the epoch. */
  lemma PassesExactly(u: User, f: ListFilter, clock: Readings)
    ensures var created := if u.createDate.Some? then u.createDate.value else 0;
            Passes(u, f, clock) <==>
              && (f.createdSince.Some? ==> FromUnix(f.createdSince.value) <= created)
              && (f.olderThan.Some? ==>
                    && created < FromUnix(f.olderThan.value) - (clock.second - clock.first)
                    && clock.second - FromUnix(f.olderThan.value) < MAX_INT64
                    && MIN_INT64 < clock.first - created)
              && (f.status.Some? ==> u.status == f.status.value)
  {
  }

  /** Created strictly before now - older_than, after created_since minus one second, and in the status */
  predicate WithinBounds(created: Time, status: Int32, req: ListRequest, now: Time) {
    && (req.createdSince.Some? ==> req.createdSince.value - SECOND < created)
    && (req.olderThan.Some? ==> created < now - req.olderThan.value)
    && (req.status != INACTIVE ==> status == req.status)
  }

  predicate UserWithinBounds(u: User, req: ListRequest, now: Time) {
    WithinBounds(AsTime(u.createDate), u.status, req, now)
  }

  /** Created at or after created_since and at least one second and the drift before now - older_than, in the
      status, with no age that saturates and a duration that can be negated */
  predicate ClearOfBounds(u: User, req: ListRequest, now: Time, clock: Readings) {
    && (req.createdSince.Some? ==> req.createdSince.value <= AsTime(u.createDate))
    && (req.olderThan.Some? ==>
          && MIN_INT64 < req.olderThan.value <= MAX_INT64
          && AsTime(u.createDate) + SECOND + (clock.second - clock.first) <= now - req.olderThan.value
          && FitsInt64(clock.first - AsTime(u.createDate))
          && FitsInt64(clock.second - FromUnix(Cutoff(now, req.olderThan.value))))
    && (req.status == INACTIVE || u.status == req.status)
  }

  /** Whoever is listed is within the bounds, for every duration message, however long, and every clock
      that does not run backwards. */
  lemma ListedWithinBounds(u: User, req: ListRequest, now: Time, clock: Readings)
    requires now <= clock.first <= clock.second
    requires Passes(u, FilterOf(req, now), clock)
    ensures UserWithinBounds(u, req, now)
  {
    PassesExactly(u, FilterOf(req, now), clock);
    if req.createdSince.Some? {
      UnixBounds(req.createdSince.value);
    }
    if req.olderThan.Some? {
      UnixBounds(now + Wrap64(-Saturate(req.olderThan.value)));
    }
  }

  /** The other side: whoever is clear of the bounds is listed. */
  lemma ClearOfBoundsIsListed(u: User, req: ListRequest, now: Time, clock: Readings)
    requires clock.first <= clock.second && ClearOfBounds(u, req, now, clock)
    ensures Passes(u, FilterOf(req, now), clock)
  {
    if req.createdSince.Some? {
      UnixBounds(req.createdSince.value);
    }
    if req.olderThan.Some? {
      UnixBounds(now - req.olderThan.value);
    }
  }
}
