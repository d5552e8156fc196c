/** Shapes of the server state around a user's session list that the
    eviction results of `SessionEviction` are stated over. */
module SessionStates {
  import opened Uuids
  import opened Clock
  import opened SessionModel
  import opened KeyValue
  import opened SessionService

  /** A listed id that the scan reads as older than `now`: a canonical id
      whose record is a hash or gone, with a last-activity stamp at least a
      whole second before `now`, or none (which reads as the zero time). */
  predicate Stale(sp: Space, x: string, now: Instant) {
    && IsUuid(x)
    && sp.HashAt(SessionKey(x), now).Some?
    && ("last_activity" in sp.HashAt(SessionKey(x), now).value ==>
          && sp.HashAt(SessionKey(x), now).value["last_activity"].Stamp?
          && UnixSeconds(sp.HashAt(SessionKey(x), now).value["last_activity"].at) < UnixSeconds(now))
  }

  /** Every id in `xs` is stale. */
  predicate AllStale(sp: Space, xs: seq<string>, now: Instant)
    decreases |xs|
  {
    xs == [] || (Stale(sp, xs[0], now) && AllStale(sp, xs[1..], now))
  }

  lemma {:induction false} AllStaleIndex(sp: Space, xs: seq<string>, now: Instant)
    ensures AllStale(sp, xs, now) <==> forall i | 0 <= i < |xs| :: Stale(sp, xs[i], now)
    decreases |xs|
  {
    if xs != [] {
      AllStaleIndex(sp, xs[1..], now);
      assert forall i | 0 <= i < |xs| - 1 :: xs[1..][i] == xs[i + 1];
      if forall i | 0 <= i < |xs| :: Stale(sp, xs[i], now) {
        assert Stale(sp, xs[0], now);
        assert forall i | 0 <= i < |xs| - 1 :: Stale(sp, xs[1..][i], now);
      }
      if AllStale(sp, xs, now) {
        forall i | 0 <= i < |xs|
          ensures Stale(sp, xs[i], now)
        {
          if i > 0 {
            assert xs[i] == xs[1..][i - 1];
          }
        }
      }
    }
  }

  /** A healthy server on which the user's key holds a list (or nothing)
      whose every id is stale. */
  predicate StaleList(st: StoreState, userId: Uuid, now: Instant) {
    && st.Healthy() && UnixSeconds(ZeroTime) < UnixSeconds(now)
    && st.space.ListAt(SessionsKey(userId), now).Some?
    && AllStale(st.space, st.space.ListAt(SessionsKey(userId), now).value, now)
  }
}
