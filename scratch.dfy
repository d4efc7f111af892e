/** `!scratch`: a card of fixed price shows three of six symbols; three of a
    kind or a pair pays. */
module Scratch {
  import opened Strings
  import opened Numbers
  import opened Wallet

  const Key: string := "scratch_last_played"
  const CardCost: int := 100

  /** 🍒 ⭐ 💎 7️⃣ 🍋 🔔 */
  datatype Symbol = Cherry | Star | Diamond | Seven | Lemon | Bell

  /** What the three symbols pay. */
  function Payout(s1: Symbol, s2: Symbol, s3: Symbol): (w: int)
    ensures s1 == s2 == s3 ==> w == (match s1 case Diamond => 500 case Seven => 400 case Star => 300 case _ => 200)
    ensures !(s1 == s2 == s3) && (s1 == s2 || s2 == s3 || s1 == s3) ==> w == 75
    ensures s1 != s2 && s2 != s3 && s1 != s3 ==> w == 0
  {
    if s1 == s2 && s2 == s3 then
      if s1 == Diamond then 500
      else if s1 == Seven then 400
      else if s1 == Star then 300
      else 200
    else if s1 == s2 || s2 == s3 || s1 == s3 then 75
    else 0
  }

  /** The order of the symbols on the card does not matter: the payout is
      unchanged by swapping the first two and by swapping the last two, which
      generate every permutation. */
  lemma PayoutSymmetric(s1: Symbol, s2: Symbol, s3: Symbol)
    ensures Payout(s1, s2, s3) == Payout(s2, s1, s3)
    ensures Payout(s1, s2, s3) == Payout(s1, s3, s2)
    ensures Payout(s1, s2, s3) == Payout(s3, s2, s1)
  {
  }

  /** Every payout is one of the listed prizes, and only three of a kind pays
      more than the card cost. */
  lemma PayoutValues(s1: Symbol, s2: Symbol, s3: Symbol)
    ensures Payout(s1, s2, s3) in {0, 75, 200, 300, 400, 500}
    ensures Payout(s1, s2, s3) > CardCost <==> s1 == s2 == s3
  {
  }

  /** One `!scratch` command; the symbols are the three draws of
      `symbols[Random.Next(6)]`. */
  method Play(store: Store, userId: UserId, cooldownSeconds: int, now: int, s1: Symbol, s2: Symbol, s3: Symbol)
    returns (r: Outcome)
    requires store.Valid()
    modifies store
    ensures store.Valid()
    ensures
      var gate := SecondsGate(old(store.StampOf(userId, Key)), cooldownSeconds, now);
      var balance := old(store.BalanceOf(userId));
      if gate == Throws then r == Fault && unchanged(store)
      else if gate == Active then r == Rejected(Cooldown) && unchanged(store)
      else if balance < CardCost then r == Rejected(InsufficientFunds) && unchanged(store)
      else
        var winnings := Payout(s1, s2, s3);
        r == Played(winnings > 0, winnings)
        && store.balances == old(store.balances)[userId := Wrap32(Wrap32(balance - CardCost) + winnings)]
        && store.stamps == old(store.stamps)[(userId, Key) := At(now)]
  {
    var gate := SecondsGate(store.StampOf(userId, Key), cooldownSeconds, now);
    if gate == Throws {
      return Fault;
    }
    if gate == Active {
      return Rejected(Cooldown);
    }
    var balance := store.BalanceOf(userId);
    if balance < CardCost {
      return Rejected(InsufficientFunds);
    }
    balance := Wrap32(balance - CardCost);
    store.SetBalance(userId, balance);
    store.SetStamp(userId, Key, At(now));
    var winnings := 0;
    if s1 == s2 && s2 == s3 {
      if s1 == Diamond { winnings := 500; }
      else if s1 == Seven { winnings := 400; }
      else if s1 == Star { winnings := 300; }
      else { winnings := 200; }
    } else if s1 == s2 || s2 == s3 || s1 == s3 {
      winnings := 75;
    }
    if winnings > 0 {
      balance := Wrap32(balance + winnings);
      store.SetBalance(userId, balance);
    }
    r := Played(winnings > 0, winnings);
  }
}
