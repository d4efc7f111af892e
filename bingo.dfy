/** `!bingo <bet>`: between 0 and 5 lines are drawn and each line pays 0.8
    times the bet. */
module Bingo {
  import opened Strings
  import opened Numbers
  import opened Wallet

  const Key: string := "bingo_last_played"

  /** `(int)(bet * (lines * 0.8))`: 4/5 of the bet per line, truncated toward
      zero. */
  function Winnings(bet: int, lines: int): (w: int)
    requires 0 <= lines <= 5
    ensures bet >= 0 ==> 5 * w <= 4 * bet * lines < 5 * w + 5
    ensures bet >= 0 ==> 0 <= w <= 4 * bet
    ensures lines == 0 ==> w == 0
    ensures lines == 5 ==> w == 4 * bet
  {
    TruncDiv(bet * lines * 4, 5)
  }

  /** More lines never pay less. */
  lemma {:induction false} WinningsMonotone(bet: int, lines: int, more: int)
    requires bet >= 0 && 0 <= lines <= more <= 5
    ensures Winnings(bet, lines) <= Winnings(bet, more)
  {
    var w := Winnings(bet, lines);
    var v := Winnings(bet, more);
    ScaleMonotone(4 * bet, lines, more);
    assert 5 * w <= 4 * bet * lines;
    assert 4 * bet * more < 5 * v + 5;
  }

  lemma ScaleMonotone(k: int, x: int, y: int)
    requires k >= 0 && x <= y
    ensures k * x <= k * y
  {
    assert k * y - k * x == k * (y - x);
  }

  /** A positive bet is at least won back exactly when two or more lines come
      up. */
  lemma {:induction false} BreakEven(bet: int, lines: int)
    requires bet > 0 && 0 <= lines <= 5
    ensures Winnings(bet, lines) >= bet <==> lines >= 2
  {
    var w := Winnings(bet, lines);
    if lines >= 2 {
      assert 4 * bet * lines >= 8 * bet;
      assert 5 * w + 5 > 8 * bet;
      assert w >= bet;
    } else if lines == 1 {
      assert 5 * w <= 4 * bet;
    }
  }

  /** The `(int)` conversion of the winnings is exact while four times the bet
      fits in an Int32. */
  lemma WinningsFit(bet: int, lines: int)
    requires 0 <= bet && 4 * bet <= Int32Max && 0 <= lines <= 5
    ensures DoubleToInt32(Winnings(bet, lines)) == Winnings(bet, lines)
  {
  }

  /** Beyond that it is not: a full house on a bet of 600,000,000 is worth
      2,400,000,000, and the conversion answers `int.MinValue`. */
  lemma FullHouseOverflow()
    ensures Winnings(600_000_000, 5) == 2_400_000_000
    ensures DoubleToInt32(Winnings(600_000_000, 5)) == Int32Min
  {
  }

  /** How the round is announced: five lines are a full house. */
  datatype Result = FullHouse | Win | Loss

  function Classify(lines: int): (c: Result)
    requires 0 <= lines <= 5
    ensures c == FullHouse <==> lines == 5
    ensures c == Loss <==> lines == 0
  {
    if lines == 5 then FullHouse else if lines > 0 then Win else Loss
  }

  /** A losing round pays nothing, so the whole bet is lost. */
  lemma LossPaysNothing(bet: int, lines: int)
    requires 0 <= lines <= 5 && Classify(lines) == Loss
    ensures Winnings(bet, lines) == 0
  {
  }

  /** The bet check: one condition covering a missing, empty, non-numeric or
      out-of-range argument. */
  function CheckBet(input0: Option<string>, minBet: int, maxBet: int): (bet: Option<int>)
    ensures bet.Some? <==>
      input0.Some? && ParseInt32(input0.value).Some? && minBet <= ParseInt32(input0.value).value <= maxBet
    ensures bet.Some? ==> bet == ParseInt32(input0.value) && input0.value != ""
  {
    if input0.None? || input0.value == "" then None
    else match ParseInt32(input0.value)
      case None => None
      case Some(b) => if b < minBet || b > maxBet then None else Some(b)
  }

  /** One `!bingo` command; `lines` is the draw of `Random.Next(0, 6)`. */
  method Play(store: Store, userId: UserId, minBet: int, maxBet: int, cooldownSeconds: int,
              input0: Option<string>, now: int, lines: int)
    returns (r: Outcome)
    requires store.Valid()
    requires 0 <= lines <= 5
    modifies store
    ensures store.Valid()
    ensures
      var gate := SecondsGate(old(store.StampOf(userId, Key)), cooldownSeconds, now);
      var bet := CheckBet(input0, minBet, maxBet);
      var balance := old(store.BalanceOf(userId));
      if gate == Throws then r == Fault && unchanged(store)
      else if gate == Active then r == Rejected(Cooldown) && unchanged(store)
      else if bet.None? then r == Rejected(InvalidBet) && unchanged(store)
      else if balance < bet.value then r == Rejected(InsufficientFunds) && unchanged(store)
      else
        var winnings := DoubleToInt32(Winnings(bet.value, lines));
        r == Played(lines > 0, winnings)
        && store.balances == old(store.balances)[userId := Wrap32(Wrap32(balance - bet.value) + winnings)]
        && store.stamps == old(store.stamps)[(userId, Key) := At(now)]
  {
    var gate := SecondsGate(store.StampOf(userId, Key), cooldownSeconds, now);
    if gate == Throws {
      return Fault;
    }
    if gate == Active {
      return Rejected(Cooldown);
    }
    var bet := CheckBet(input0, minBet, maxBet);
    if bet.None? {
      return Rejected(InvalidBet);
    }
    var betAmount := bet.value;
    var balance := store.BalanceOf(userId);
    if balance < betAmount {
      return Rejected(InsufficientFunds);
    }
    r := Round(store, userId, balance, betAmount, now, lines);
  }

  /** The round itself, once the bet is covered: the bet is taken, the
      winnings for `lines` are paid, and the time is stamped. */
  method Round(store: Store, userId: UserId, balance: int, betAmount: int, now: int, lines: int)
    returns (r: Outcome)
    requires store.Valid() && balance == store.BalanceOf(userId)
    requires InInt32(betAmount) && 0 <= lines <= 5
    modifies store
    ensures store.Valid()
    ensures
      var winnings := DoubleToInt32(Winnings(betAmount, lines));
      r == Played(lines > 0, winnings)
      && store.balances == old(store.balances)[userId := Wrap32(Wrap32(balance - betAmount) + winnings)]
      && store.stamps == old(store.stamps)[(userId, Key) := At(now)]
  {
    var deducted := Wrap32(balance - betAmount);
    var winnings := DoubleToInt32(Winnings(betAmount, lines));
    store.SetBalance(userId, Wrap32(deducted + winnings));
    store.SetStamp(userId, Key, At(now));
    r := Played(lines > 0, winnings);
  }
}
