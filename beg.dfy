/** `!beg`: one in five begs is ignored; the others earn a random amount
    between the configured bounds. */
module Beg {
  import opened Strings
  import opened Numbers
  import opened Wallet

  const Key: string := "beg_cooldown"

  /** What `Random.Next(minBeg, maxBeg + 1)` may return, with the upper bound
      an unchecked Int32 sum; None when it throws because its lower bound
      exceeds its upper bound. */
  function EarnedRange(minBeg: int, maxBeg: int): (range: Option<(int, int)>)
    requires InInt32(minBeg) && InInt32(maxBeg)
    ensures range.None? <==> if maxBeg == Int32Max then minBeg > Int32Min else minBeg > maxBeg + 1
    ensures range.Some? && maxBeg < Int32Max ==>
      range.value == (minBeg, if minBeg <= maxBeg then maxBeg else minBeg)
    // maxBeg + 1 wraps to Int32Min
    ensures range.Some? && maxBeg == Int32Max ==> range.value == (Int32Min, Int32Min)
  {
    var upper := Wrap32(maxBeg + 1);
    if minBeg > upper then None
    else if minBeg == upper then Some((minBeg, minBeg))
    else Some((minBeg, upper - 1))
  }

  /** The draw `earned` is one `Random.Next(minBeg, maxBeg + 1)` can return. */
  predicate Drawable(minBeg: int, maxBeg: int, earned: int)
    requires InInt32(minBeg) && InInt32(maxBeg)
  {
    match EarnedRange(minBeg, maxBeg)
    case None => true
    case Some((lo, hi)) => lo <= earned <= hi
  }

  /** A successful beg earns between `minBeg` and `maxBeg`, both included (or
      exactly `minBeg` when the bounds are one apart the wrong way round), and
      with a non-negative `minBeg` never takes anything. */
  lemma EarnedBounds(minBeg: int, maxBeg: int, earned: int)
    requires InInt32(minBeg) && InInt32(maxBeg) && EarnedRange(minBeg, maxBeg).Some?
    requires Drawable(minBeg, maxBeg, earned)
    ensures minBeg <= maxBeg ==> minBeg <= earned <= maxBeg
    ensures minBeg > maxBeg ==> earned == minBeg
    ensures minBeg >= 0 ==> earned >= 0
  {
  }

  /** One `!beg` command. `roll` is the draw of `Random.Next(1, 101)` and
      `earned` that of `Random.Next(minBeg, maxBeg + 1)`, made only when the
      roll is above 20. */
  method Play(store: Store, userId: UserId, minBeg: int, maxBeg: int, cooldownMinutes: int,
              now: int, roll: int, earned: int)
    returns (r: Outcome)
    requires store.Valid()
    requires InInt32(minBeg) && InInt32(maxBeg)
    requires 1 <= roll <= 100 && Drawable(minBeg, maxBeg, earned)
    modifies store
    ensures store.Valid()
    ensures
      var gate := ElapsedGate(old(store.StampOf(userId, Key)), cooldownMinutes, TicksPerMinute, now);
      var balance := old(store.BalanceOf(userId));
      if gate == Active then r == Rejected(Cooldown) && unchanged(store)
      else if roll <= 20 then
        r == Played(false, 0)
        && store.balances == old(store.balances)
        && store.stamps == old(store.stamps)[(userId, Key) := At(now)]
      else if EarnedRange(minBeg, maxBeg).None? then r == Fault && unchanged(store)
      else
        r == Played(true, earned)
        && store.balances == old(store.balances)[userId := Wrap32(balance + earned)]
        && store.stamps == old(store.stamps)[(userId, Key) := At(now)]
  {
    var gate := ElapsedGate(store.StampOf(userId, Key), cooldownMinutes, TicksPerMinute, now);
    if gate == Active {
      return Rejected(Cooldown);
    }
    if roll <= 20 {
      store.SetStamp(userId, Key, At(now));
      return Played(false, 0);
    }
    if EarnedRange(minBeg, maxBeg).None? {
      return Fault;
    }
    var balance := store.BalanceOf(userId);
    balance := Wrap32(balance + earned);
    store.SetBalance(userId, balance);
    store.SetStamp(userId, Key, At(now));
    r := Played(true, earned);
  }

  /** Begging never lowers a balance when `minBeg` is not negative and the sum
      stays inside Int32. */
  lemma NeverLoses(balance: int, minBeg: int, maxBeg: int, earned: int)
    requires InInt32(minBeg) && InInt32(maxBeg) && EarnedRange(minBeg, maxBeg).Some?
    requires Drawable(minBeg, maxBeg, earned) && minBeg >= 0
    requires InInt32(balance + earned)
    ensures Wrap32(balance + earned) >= balance
  {
    EarnedBounds(minBeg, maxBeg, earned);
  }
}
