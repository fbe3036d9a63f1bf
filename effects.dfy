/** Timed power-up effects: each active effect kind is mapped to the clock
    value (in milliseconds) at which it was last activated. */
module Effects {

  datatype EffectKind = Speed | Invincibility | DoublePoints

  /** An effect is removed once strictly more than this many milliseconds
      have passed since its activation. */
  const EffectDuration := 5000

  type EffectTimes = map<EffectKind, int>

  predicate Expired(effects: EffectTimes, k: EffectKind, now: int)
    requires k in effects
  {
    now - effects[k] > EffectDuration
  }

  /** The effects still active at clock value `now`. */
  function Expire(effects: EffectTimes, now: int): EffectTimes {
    map k | k in effects && !Expired(effects, k, now) :: effects[k]
  }

  /** No effect in the map is older than `EffectDuration` at `now`. */
  predicate AllCurrent(effects: EffectTimes, now: int) {
    forall k :: k in effects ==> now - effects[k] <= EffectDuration
  }

  /** After expiry at `now` every remaining effect is current, and it stays
      so when an effect is (re-)activated at `now`; expiry removes only
      effects that were not current. */
  lemma ExpireLeavesCurrent(effects: EffectTimes, now: int, k: EffectKind)
    ensures AllCurrent(Expire(effects, now), now)
    ensures AllCurrent(Expire(effects, now)[k := now], now)
    ensures AllCurrent(effects, now) ==> Expire(effects, now) == effects
  {
  }

  /** Expiring at an earlier time and then at a later one removes exactly what
      expiring once at the later time removes: ticks compose. */
  lemma ExpireLaterSubsumes(effects: EffectTimes, earlier: int, later: int)
    requires earlier <= later
    ensures Expire(Expire(effects, earlier), later) == Expire(effects, later)
  {
    var once := Expire(effects, later);
    var twice := Expire(Expire(effects, earlier), later);
    forall k | k in effects
      ensures k in twice <==> k in once
    {
    }
    assert twice.Keys == once.Keys;
  }

  /** Re-activating an effect restarts its timer: after activation at time
      `t`, the effect survives expiry at `now` exactly when at most
      `EffectDuration` milliseconds have passed, whatever its earlier
      activation time was. */
  lemma ReactivationRestartsTimer(effects: EffectTimes, k: EffectKind, t: int, now: int)
    ensures k in Expire(effects[k := t], now) <==> now - t <= EffectDuration
    ensures k in Expire(effects[k := t], now) ==> Expire(effects[k := t], now)[k] == t
  {
  }
}
