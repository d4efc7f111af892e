/** `!boss`: a fight on an hours cooldown that is won on three rolls in ten
    and then pays a random reward. */
module Boss {
  import opened Strings
  import opened Numbers
  import opened Wallet

  const Key: string := "boss_cooldown"

  /** The fight is won when the roll of `Random.Next(1, 101)` is at most 30;
      the configured success rate plays no part. */
  predicate Wins(roll: int)
  {
    roll <= 30
  }

  /** The winning rolls among 1..n. */
  function WinningRolls(n: nat): (w: set<int>)
    ensures forall roll :: roll in w <==> 1 <= roll <= n && Wins(roll)
  {
    if n == 0 then {} else WinningRolls(n - 1) + (if Wins(n) then {n} else {})
  }

  /** Exactly 30 of the 100 possible rolls win the fight. */
  lemma WinOdds()
    ensures |WinningRolls(100)| == 30
  {
    WinningCount(100);
  }

  lemma {:induction false} WinningCount(n: nat)
    ensures |WinningRolls(n)| == if n <= 30 then n else 30
  {
    if n > 0 {
      WinningCount(n - 1);
      assert n !in WinningRolls(n - 1);
    }
  }

  /** While the cooldown is active the message needs
      `TimeSpan.FromHours(cooldownHours) - timeSinceBoss`, which throws an
      OverflowException when the hours lie beyond `TimeSpan.MaxValue` or
      `MinValue` (256,204,779 hours or more, either way), or when the
      difference of the tick counts leaves Int64. */
  function RemainingOverflows(stamp: Option<Stamp>, cooldownHours: int, now: int): (overflows: bool)
    ensures 0 <= cooldownHours < 256_204_779 && 0 <= now - LastOrMinValue(stamp) < cooldownHours * TicksPerHour
            ==> !overflows
    ensures cooldownHours >= 256_204_779 ==> overflows
  {
    var elapsed := now - LastOrMinValue(stamp);
    assert 0 <= cooldownHours < 256_204_779 ==> cooldownHours * TicksPerHour <= 256_204_778 * TicksPerHour;
    cooldownHours >= 256_204_779 || cooldownHours <= -256_204_779
    || !(Int64Min <= cooldownHours * TicksPerHour - elapsed <= Int64Max)
  }

  /** One `!boss` command. `roll` is the draw deciding the fight and `reward`
      that of `Random.Next(300, 601)`, made only on a win. The configured bets,
      success rate and win multiplier play no part. */
  method Play(store: Store, userId: UserId, cooldownHours: int, now: int, roll: int, reward: int)
    returns (r: Outcome)
    requires store.Valid()
    requires 1 <= roll <= 100 && 300 <= reward <= 600
    modifies store
    ensures store.Valid()
    ensures
      var gate := ElapsedGate(old(store.StampOf(userId, Key)), cooldownHours, TicksPerHour, now);
      var balance := old(store.BalanceOf(userId));
      if gate == Active && RemainingOverflows(old(store.StampOf(userId, Key)), cooldownHours, now) then
        r == Fault && unchanged(store)
      else if gate == Active then r == Rejected(Cooldown) && unchanged(store)
      else if Wins(roll) then
        r == Played(true, reward)
        && store.balances == old(store.balances)[userId := Wrap32(balance + reward)]
        && store.stamps == old(store.stamps)[(userId, Key) := At(now)]
      else
        r == Played(false, 0)
        && store.balances == old(store.balances)
        && store.stamps == old(store.stamps)[(userId, Key) := At(now)]
  {
    var gate := ElapsedGate(store.StampOf(userId, Key), cooldownHours, TicksPerHour, now);
    if gate == Active {
      if RemainingOverflows(store.StampOf(userId, Key), cooldownHours, now) {
        return Fault;
      }
      return Rejected(Cooldown);
    }
    var won := roll <= 30;
    if won {
      var balance := store.BalanceOf(userId);
      balance := Wrap32(balance + reward);
      store.SetBalance(userId, balance);
      r := Played(true, reward);
    } else {
      r := Played(false, 0);
    }
    store.SetStamp(userId, Key, At(now));
  }
}
