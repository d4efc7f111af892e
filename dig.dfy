/** `!dig`: a roll from 1 to 100 against a table of finds, on a minutes
    cooldown; every dig pays something. */
module Dig {
  import opened Strings
  import opened Numbers
  import opened Wallet

  const Key: string := "dig_cooldown"

  /** The reward of a roll: treasure chest 400, ring 200, old coins 100,
      ancient pot 60, bones 30, worm 5. */
  function Reward(roll: int): (reward: int)
    requires 1 <= roll <= 100
    ensures 5 <= reward <= 400
  {
    if roll <= 3 then 400
    else if roll <= 10 then 200
    else if roll <= 25 then 100
    else if roll <= 45 then 60
    else if roll <= 70 then 30
    else 5
  }

  /** A higher roll never finds more. */
  lemma RewardNonIncreasing(roll: int, later: int)
    requires 1 <= roll <= later <= 100
    ensures Reward(later) <= Reward(roll)
  {
  }

  /** The tiers and how many rolls land in each: 3, 7, 15, 20, 25 and 30. */
  lemma RewardTiers(roll: int)
    requires 1 <= roll <= 100
    ensures Reward(roll) == 400 <==> roll <= 3
    ensures Reward(roll) == 200 <==> 4 <= roll <= 10
    ensures Reward(roll) == 100 <==> 11 <= roll <= 25
    ensures Reward(roll) == 60 <==> 26 <= roll <= 45
    ensures Reward(roll) == 30 <==> 46 <= roll <= 70
    ensures Reward(roll) == 5 <==> roll >= 71
  {
  }

  /** One `!dig` command; `roll` is the draw of `Random.Next(1, 101)`. */
  method Play(store: Store, userId: UserId, cooldownMinutes: int, now: int, roll: int)
    returns (r: Outcome)
    requires store.Valid()
    requires 1 <= roll <= 100
    modifies store
    ensures store.Valid()
    ensures
      var gate := ElapsedGate(old(store.StampOf(userId, Key)), cooldownMinutes, TicksPerMinute, now);
      var balance := old(store.BalanceOf(userId));
      if gate == Active then r == Rejected(Cooldown) && unchanged(store)
      else
        r == Played(true, Reward(roll))
        && store.balances == old(store.balances)[userId := Wrap32(balance + Reward(roll))]
        && store.stamps == old(store.stamps)[(userId, Key) := At(now)]
  {
    var gate := ElapsedGate(store.StampOf(userId, Key), cooldownMinutes, TicksPerMinute, now);
    if gate == Active {
      return Rejected(Cooldown);
    }
    var reward: int;
    if roll <= 3 { reward := 400; }
    else if roll <= 10 { reward := 200; }
    else if roll <= 25 { reward := 100; }
    else if roll <= 45 { reward := 60; }
    else if roll <= 70 { reward := 30; }
    else { reward := 5; }
    var balance := store.BalanceOf(userId);
    balance := Wrap32(balance + reward);
    store.SetBalance(userId, balance);
    store.SetStamp(userId, Key, At(now));
    r := Played(true, reward);
  }

  /** Below the Int32 limit a dig raises the balance by exactly its reward, so
      the balance strictly grows. */
  lemma DigGrows(balance: int, roll: int)
    requires 1 <= roll <= 100 && InInt32(balance + Reward(roll))
    ensures Wrap32(balance + Reward(roll)) == balance + Reward(roll) > balance
  {
  }
}
