/** `!keno <bet>`: between 0 and 5 numbers match, and the bet is paid back
    times a multiplier that grows with the matches. */
module Keno {
  import opened Strings
  import opened Numbers
  import opened Wallet

  const Key: string := "keno_last_played"

  /** The multiplier of `matches`, in halves: 10, 5, 2.5, 1.5, 0.5 and 0 for
      5 down to 0 matches. */
  function HalfMultiplier(matches: int): (h: nat)
    requires 0 <= matches <= 5
    ensures h == 0 <==> matches == 0
    ensures matches >= 2 ==> h >= 3
    ensures matches < 2 ==> h <= 1
    ensures h <= 20
  {
    match matches
    case 5 => 20
    case 4 => 10
    case 3 => 5
    case 2 => 3
    case 1 => 1
    case _ => 0
  }

  /** `(int)(bet * multiplier)`, truncated toward zero. */
  function Winnings(bet: int, matches: int): (w: int)
    requires 0 <= matches <= 5
    ensures bet >= 0 ==> w == bet * HalfMultiplier(matches) / 2
    ensures matches == 5 ==> w == 10 * bet
    ensures matches == 4 ==> w == 5 * bet
    ensures matches == 0 ==> w == 0
  {
    TruncDiv(bet * HalfMultiplier(matches), 2)
  }

  /** More matches never pay less on a non-negative bet. */
  lemma WinningsMonotone(bet: int, matches: int, more: int)
    requires bet >= 0 && 0 <= matches <= more <= 5
    ensures Winnings(bet, matches) <= Winnings(bet, more)
  {
    assert HalfMultiplier(matches) <= HalfMultiplier(more);
    assert bet * HalfMultiplier(matches) <= bet * HalfMultiplier(more) by {
      assert bet * (HalfMultiplier(more) - HalfMultiplier(matches)) >= 0;
    }
  }

  /** A positive bet is at least won back exactly when two or more numbers
      match, and lost in part or in full with fewer. */
  lemma BreakEven(bet: int, matches: int)
    requires bet > 0 && 0 <= matches <= 5
    ensures Winnings(bet, matches) >= bet <==> matches >= 2
  {
    var h := HalfMultiplier(matches);
    if matches >= 2 {
      assert h >= 3;
      assert bet * h >= 3 * bet;
    } else {
      assert h <= 1;
      assert bet * h <= bet;
    }
  }

  /** The `(int)` conversion of the winnings is exact while ten times the bet
      fits in an Int32. */
  lemma WinningsFit(bet: int, matches: int)
    requires 0 <= bet && 10 * bet <= Int32Max && 0 <= matches <= 5
    ensures DoubleToInt32(Winnings(bet, matches)) == Winnings(bet, matches)
  {
    assert bet * HalfMultiplier(matches) <= 20 * bet;
  }

  /** Beyond that it is not: five matches on a bet of 214,748,365 are worth
      2,147,483,650, and the conversion answers `int.MinValue`. */
  lemma JackpotOverflow()
    ensures Winnings(214_748_365, 5) == 2_147_483_650
    ensures DoubleToInt32(Winnings(214_748_365, 5)) == Int32Min
  {
  }

  /** The bet check: a missing argument, text `int.TryParse` rejects, or a
      value outside `[minBet, maxBet]`. */
  function CheckBet(input0: Option<string>, minBet: int, maxBet: int): (bet: Option<int>)
    ensures bet.Some? <==>
      input0.Some? && ParseInt32(input0.value).Some? && minBet <= ParseInt32(input0.value).value <= maxBet
    ensures bet.Some? ==> bet == ParseInt32(input0.value)
  {
    if input0.None? then None
    else match ParseInt32(input0.value)
      case None => None
      case Some(b) => if b < minBet || b > maxBet then None else Some(b)
  }

  /** One `!keno` command; `matches` is the draw of `Random.Next(0, 6)`. */
  method Play(store: Store, userId: UserId, minBet: int, maxBet: int, cooldownSeconds: int,
              input0: Option<string>, now: int, matches: int)
    returns (r: Outcome)
    requires store.Valid()
    requires 0 <= matches <= 5
    modifies store
    ensures store.Valid()
    ensures
      var gate := SecondsGate(old(store.StampOf(userId, Key)), cooldownSeconds, now);
      var bet := CheckBet(input0, minBet, maxBet);
      var balance := old(store.BalanceOf(userId));
      if gate == Throws then r == Fault && unchanged(store)
      else if gate == Active then r == Rejected(Cooldown) && unchanged(store)
      else if bet.None? then r == Rejected(InvalidBet) && unchanged(store)
      else if balance < bet.value then r == Rejected(InsufficientFunds) && unchanged(store)
      else
        var winnings := DoubleToInt32(Winnings(bet.value, matches));
        r == Played(winnings > 0, winnings)
        && store.balances == old(store.balances)[userId := Wrap32(Wrap32(balance - bet.value) + winnings)]
        && store.stamps == old(store.stamps)[(userId, Key) := At(now)]
  {
    var gate := SecondsGate(store.StampOf(userId, Key), cooldownSeconds, now);
    if gate == Throws {
      return Fault;
    }
    if gate == Active {
      return Rejected(Cooldown);
    }
    var bet := CheckBet(input0, minBet, maxBet);
    if bet.None? {
      return Rejected(InvalidBet);
    }
    var betAmount := bet.value;
    var balance := store.BalanceOf(userId);
    if balance < betAmount {
      return Rejected(InsufficientFunds);
    }
    r := Round(store, userId, balance, betAmount, now, matches);
  }

  /** The round itself, once the bet is covered: the bet is taken, the
      winnings for `matches` are paid, and the time is stamped. */
  method Round(store: Store, userId: UserId, balance: int, betAmount: int, now: int, matches: int)
    returns (r: Outcome)
    requires store.Valid() && balance == store.BalanceOf(userId)
    requires InInt32(betAmount) && 0 <= matches <= 5
    modifies store
    ensures store.Valid()
    ensures
      var winnings := DoubleToInt32(Winnings(betAmount, matches));
      r == Played(winnings > 0, winnings)
      && store.balances == old(store.balances)[userId := Wrap32(Wrap32(balance - betAmount) + winnings)]
      && store.stamps == old(store.stamps)[(userId, Key) := At(now)]
  {
    var deducted := Wrap32(balance - betAmount);
    var winnings := DoubleToInt32(Winnings(betAmount, matches));
    store.SetBalance(userId, Wrap32(deducted + winnings));
    store.SetStamp(userId, Key, At(now));
    r := Played(winnings > 0, winnings);
  }
}
