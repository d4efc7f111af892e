/** `!highlow <high|low> <bet>`: two cards from 1 to 13 are drawn and the
    player bets on whether the second is higher or lower than the first. */
module Highlow {
  import opened Strings
  import opened Numbers
  import opened Wallet

  const Key: string := "highlow_last_played"

  datatype Choice = High | Low

  /** The choice word after `ToLower()`: "high" or "h", "low" or "l". */
  function ParseChoice(input: string): (c: Option<Choice>)
    ensures c.Some? <==> ToLower(input) in {"high", "h", "low", "l"}
    ensures c == Some(High) <==> ToLower(input) in {"high", "h"}
    ensures c.Some? ==> |input| in {1, 3, 4} && LowerChar(input[0]) in {'h', 'l'}
    ensures c == Some(High) ==> LowerChar(input[0]) == 'h'
    ensures c == Some(Low) ==> LowerChar(input[0]) == 'l'
  {
    var choice := ToLower(input);
    if choice == "high" || choice == "h" then Some(High)
    else if choice == "low" || choice == "l" then Some(Low)
    else None
  }

  /** Whatever its letter case, each accepted word names its choice. */
  lemma ChoiceWords(input: string)
    requires ToLower(input) in {"high", "h", "low", "l"}
    ensures ParseChoice(input) == if ToLower(input) in {"high", "h"} then Some(High) else Some(Low)
  {
  }

  /** The argument checks, in the order the command makes them. */
  datatype Checked = Refuse(why: Rejection) | Accept(choice: Choice, bet: int)

  function CheckInputs(input0: Option<string>, input1: Option<string>, minBet: int, maxBet: int): (r: Checked)
    ensures r.Accept? <==>
      input0.Some? && input0.value != "" && input1.Some? && input1.value != ""
      && ParseInt32(input1.value).Some? && ParseChoice(input0.value).Some?
      && minBet <= ParseInt32(input1.value).value <= maxBet
    ensures r.Accept? ==> r.bet == ParseInt32(input1.value).value && Some(r.choice) == ParseChoice(input0.value)
    ensures r.Accept? ==> InInt32(r.bet) && minBet <= r.bet <= maxBet
    ensures r == Refuse(MissingChoice) <==> input0 == None || input0 == Some("")
    ensures r == Refuse(MissingBet) <==>
      input0.Some? && input0.value != "" && (input1 == None || input1 == Some(""))
    ensures r == Refuse(InvalidBet) <==>
      input0.Some? && input0.value != "" && input1.Some? && input1.value != ""
      && ParseInt32(input1.value).None?
    ensures r == Refuse(InvalidChoice) <==>
      input0.Some? && input0.value != "" && input1.Some? && ParseInt32(input1.value).Some?
      && ParseChoice(input0.value).None?
    ensures r == Refuse(BetOutOfRange) <==>
      input0.Some? && ParseChoice(input0.value).Some? && input1.Some? && ParseInt32(input1.value).Some?
      && !(minBet <= ParseInt32(input1.value).value <= maxBet)
    // an unknown choice is only reported once the bet has parsed
    ensures r == Refuse(InvalidChoice) ==> input1.Some? && ParseInt32(input1.value).Some?
    ensures r == Refuse(BetOutOfRange) ==> input0.Some? && ParseChoice(input0.value).Some?
  {
    if input0.None? || input0.value == "" then Refuse(MissingChoice)
    else if input1.None? || input1.value == "" then Refuse(MissingBet)
    else match ParseInt32(input1.value)
      case None => Refuse(InvalidBet)
      case Some(bet) =>
        match ParseChoice(input0.value)
        case None => Refuse(InvalidChoice)
        case Some(choice) =>
          if bet < minBet || bet > maxBet then Refuse(BetOutOfRange) else Accept(choice, bet)
  }

  /** The player wins when the second card goes the chosen way. */
  predicate Wins(choice: Choice, card1: int, card2: int)
  {
    (choice == High && card2 > card1) || (choice == Low && card2 < card1)
  }

  /** A tie loses whichever way the player bet. */
  lemma TiesLose(choice: Choice, card: int)
    ensures !Wins(choice, card, card)
  {
  }

  /** Betting high on (a, b) is betting low on (b, a), and on distinct cards
      exactly one of the two choices wins. */
  lemma ChoicesMirror(card1: int, card2: int)
    ensures Wins(High, card1, card2) == Wins(Low, card2, card1)
    ensures card1 != card2 ==> Wins(High, card1, card2) != Wins(Low, card1, card2)
  {
  }

  /** One `!highlow` command. `card1` and `card2` are the two draws of
      `Random.Next(1, 14)`. */
  method Play(store: Store, userId: UserId, minBet: int, maxBet: int, winMult: int, cooldownSeconds: int,
              input0: Option<string>, input1: Option<string>, now: int, card1: int, card2: int)
    returns (r: Outcome)
    requires store.Valid()
    requires InInt32(winMult)
    requires 1 <= card1 <= 13 && 1 <= card2 <= 13
    modifies store
    ensures store.Valid()
    ensures
      var gate := SecondsGate(old(store.StampOf(userId, Key)), cooldownSeconds, now);
      var checked := CheckInputs(input0, input1, minBet, maxBet);
      var balance := old(store.BalanceOf(userId));
      if gate == Throws then r == Fault && unchanged(store)
      else if gate == Active then r == Rejected(Cooldown) && unchanged(store)
      else if checked.Refuse? then r == Rejected(checked.why) && unchanged(store)
      else if balance < checked.bet then r == Rejected(InsufficientFunds) && unchanged(store)
      else
        var won := Wins(checked.choice, card1, card2);
        var winnings := if won then Wrap32(checked.bet * winMult) else 0;
        r == Played(won, winnings)
        && store.balances == old(store.balances)[userId := Wrap32(Wrap32(balance - checked.bet) + winnings)]
        && store.stamps == old(store.stamps)[(userId, Key) := At(now)]
  {
    var gate := SecondsGate(store.StampOf(userId, Key), cooldownSeconds, now);
    if gate == Throws {
      return Fault;
    }
    if gate == Active {
      return Rejected(Cooldown);
    }
    var checked := CheckInputs(input0, input1, minBet, maxBet);
    if checked.Refuse? {
      return Rejected(checked.why);
    }
    var balance := store.BalanceOf(userId);
    if balance < checked.bet {
      return Rejected(InsufficientFunds);
    }
    r := Round(store, userId, checked.choice, checked.bet, winMult, now, card1, card2);
  }

  /** The round itself, once the bet is covered: the bet is taken, the cards
      are compared, a win pays the bet times `winMult`, and the time is
      stamped. */
  method Round(store: Store, userId: UserId, choice: Choice, betAmount: int, winMult: int,
               now: int, card1: int, card2: int)
    returns (r: Outcome)
    requires store.Valid()
    requires InInt32(betAmount) && InInt32(winMult)
    modifies store
    ensures store.Valid()
    ensures
      var won := Wins(choice, card1, card2);
      var winnings := if won then Wrap32(betAmount * winMult) else 0;
      r == Played(won, winnings)
      && store.balances == old(store.balances)[userId := Wrap32(Wrap32(old(store.BalanceOf(userId)) - betAmount) + winnings)]
      && store.stamps == old(store.stamps)[(userId, Key) := At(now)]
  {
    var balance := store.BalanceOf(userId);
    balance := Wrap32(balance - betAmount);
    store.SetBalance(userId, balance);
    var won := false;
    if choice == High && card2 > card1 { won := true; }
    if choice == Low && card2 < card1 { won := true; }
    if card1 == card2 { won := false; }
    assert won == Wins(choice, card1, card2);
    var winnings := 0;
    if won {
      winnings := Wrap32(betAmount * winMult);
      balance := Wrap32(balance + winnings);
      store.SetBalance(userId, balance);
    }
    store.SetStamp(userId, Key, At(now));
    r := Played(won, winnings);
  }
}
