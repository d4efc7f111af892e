/** `!lottery`: a ticket of fixed price and a roll from 1 to 100 against a
    table of prize tiers. */
module Lottery {
  import opened Strings
  import opened Numbers
  import opened Wallet

  const Key: string := "lottery_last_played"
  const TicketCost: int := 10

  /** The prize tier of a roll. */
  function Prize(roll: int): (p: int)
    requires 1 <= roll <= 100
    ensures p in {5000, 1000, 300, 150, 0}
    ensures p == 5000 <==> roll == 1
    ensures p == 1000 <==> 2 <= roll <= 5
    ensures p == 300 <==> 6 <= roll <= 15
    ensures p == 150 <==> 16 <= roll <= 35
    ensures p == 0 <==> roll >= 36
  {
    if roll == 1 then 5000
    else if roll <= 5 then 1000
    else if roll <= 15 then 300
    else if roll <= 35 then 150
    else 0
  }

  /** A lower roll never wins less. */
  lemma PrizeNonIncreasing(roll: int, later: int)
    requires 1 <= roll <= later <= 100
    ensures Prize(later) <= Prize(roll)
  {
  }

  /** One `!lottery` command; `roll` is the draw of `Random.Next(1, 101)`. The
      configured bets and jackpot multiplier are read but play no part. */
  method Play(store: Store, userId: UserId, cooldownSeconds: int, now: int, roll: int)
    returns (r: Outcome)
    requires store.Valid()
    requires 1 <= roll <= 100
    modifies store
    ensures store.Valid()
    ensures
      var gate := SecondsGate(old(store.StampOf(userId, Key)), cooldownSeconds, now);
      var balance := old(store.BalanceOf(userId));
      if gate == Throws then r == Fault && unchanged(store)
      else if gate == Active then r == Rejected(Cooldown) && unchanged(store)
      else if balance < TicketCost then r == Rejected(InsufficientFunds) && unchanged(store)
      else
        r == Played(Prize(roll) > 0, Prize(roll))
        && store.balances == old(store.balances)[userId := Wrap32(Wrap32(balance - TicketCost) + Prize(roll))]
        && store.stamps == old(store.stamps)[(userId, Key) := At(now)]
  {
    var gate := SecondsGate(store.StampOf(userId, Key), cooldownSeconds, now);
    if gate == Throws {
      return Fault;
    }
    if gate == Active {
      return Rejected(Cooldown);
    }
    var balance := store.BalanceOf(userId);
    if balance < TicketCost {
      return Rejected(InsufficientFunds);
    }
    balance := Wrap32(balance - TicketCost);
    store.SetBalance(userId, balance);
    store.SetStamp(userId, Key, At(now));
    var winnings := Prize(roll);
    if winnings > 0 {
      balance := Wrap32(balance + winnings);
      store.SetBalance(userId, balance);
    }
    r := Played(winnings > 0, winnings);
  }
}
