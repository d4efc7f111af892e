/** The per-user storage the currency minigames share, and their cooldown
    checks. Streamer.bot keeps one Int32 balance per user id under the
    configured currency key, and one timestamp string per user id and game,
    written as `DateTime.UtcNow.ToString("o")`. Time is counted in .NET ticks
    (100 ns) since `DateTime.MinValue`. */
module Wallet {
  import opened Strings
  import opened Numbers

  type UserId = string

  const TicksPerSecond: int := 10_000_000
  const TicksPerMinute: int := 60 * TicksPerSecond
  const TicksPerHour: int := 60 * TicksPerMinute

  /** A stored timestamp: the instant it denotes, in UTC ticks, or text that
      `DateTime.Parse` rejects. A user variable that is null or empty is
      absent from the store. */
  datatype Stamp = Unparsable | At(ticks: int)

  /** Why a game refused to play. */
  datatype Rejection =
    | Cooldown
    | MissingChoice
    | MissingBet
    | InvalidBet
    | InvalidChoice
    | BetOutOfRange
    | InsufficientFunds

  /** The result of one command: refused with no state change, aborted by an
      exception with no state change, or a completed round and what it paid. */
  datatype Outcome = Rejected(why: Rejection) | Fault | Played(won: bool, payout: int)

  class Store {
    /** The currency balance of each user id. */
    var balances: map<UserId, int>
    /** The timestamp user variables, by user id and variable name. */
    var stamps: map<(UserId, string), Stamp>

    /** Every stored balance is an Int32. */
    ghost predicate Valid()
      reads this
    {
      forall u :: u in balances ==> InInt32(balances[u])
    }

    constructor ()
      ensures balances == map[] && stamps == map[]
      ensures Valid()
    {
      balances := map[];
      stamps := map[];
    }

    /** `GetTwitchUserVarById<int>(userId, currencyKey)`: 0 for a user without
        a balance. */
    function BalanceOf(u: UserId): (b: int)
      reads this
      ensures Valid() ==> InInt32(b)
      ensures u !in balances ==> b == 0
    {
      if u in balances then balances[u] else 0
    }

    /** `GetTwitchUserVarById<string>(userId, key)`, None when null or empty. */
    function StampOf(u: UserId, key: string): (s: Option<Stamp>)
      reads this
      ensures s.Some? <==> (u, key) in stamps
    {
      if (u, key) in stamps then Some(stamps[(u, key)]) else None
    }

    /** `SetTwitchUserVarById(userId, currencyKey, b)`. */
    method SetBalance(u: UserId, b: int)
      requires Valid() && InInt32(b)
      modifies this
      ensures balances == old(balances)[u := b] && stamps == old(stamps)
      ensures Valid()
    {
      balances := balances[u := b];
    }

    /** `SetTwitchUserVarById(userId, key, now.ToString("o"))`. */
    method SetStamp(u: UserId, key: string, s: Stamp)
      requires Valid()
      modifies this
      ensures stamps == old(stamps)[(u, key) := s] && balances == old(balances)
      ensures Valid()
    {
      stamps := stamps[(u, key) := s];
    }
  }

  /** The answer of a cooldown check: play, refuse, or the exception thrown
      while reading the stored timestamp. */
  datatype Gate = Open | Active | Throws

  /** A configured cooldown of 0 seconds stands for 20 seconds. */
  function SecondsCooldown(configured: int): (c: int)
    ensures c == if configured == 0 then 20 else configured
  {
    if configured == 0 then 20 else configured
  }

  /** The seconds cooldown of Highlow, Bingo, Lottery, Scratch and Keno as
      written: `DateTime.Parse` of the stored UTC text yields local time, and
      `now < lastPlayed.AddSeconds(cooldown)` compares that local time with
      `DateTime.UtcNow` tick for tick, so the host's UTC offset (in ticks)
      is added to the stored instant. An unparsable stamp throws. */
  function SecondsGateAsWritten(stamp: Option<Stamp>, configured: int, now: int, utcOffset: int): (g: Gate)
    ensures g == Throws <==> stamp == Some(Unparsable)
    ensures g == Active <==>
      stamp.Some? && stamp.value.At? && now < stamp.value.ticks + utcOffset + SecondsCooldown(configured) * TicksPerSecond
  {
    match stamp
    case None => Open
    case Some(Unparsable) => Throws
    case Some(At(t)) =>
      var lastPlayed := t + utcOffset;
      var nextAvailable := lastPlayed + SecondsCooldown(configured) * TicksPerSecond;
      if now < nextAvailable then Active else Open
  }

  /** The same cooldown as evidently intended: a round is refused exactly
      while fewer than the cooldown's seconds have passed since the UTC
      instant of the last round. */
  function SecondsGate(stamp: Option<Stamp>, configured: int, now: int): (g: Gate)
    ensures g == Throws <==> stamp == Some(Unparsable)
    ensures g == Active <==>
      stamp.Some? && stamp.value.At? && now - stamp.value.ticks < SecondsCooldown(configured) * TicksPerSecond
  {
    match stamp
    case None => Open
    case Some(Unparsable) => Throws
    case Some(At(t)) => if now - t < SecondsCooldown(configured) * TicksPerSecond then Active else Open
  }

  /** On a host whose clock runs on UTC the code as written is the intended
      cooldown. */
  lemma SecondsGateOnUtcHost(stamp: Option<Stamp>, configured: int, now: int)
    ensures SecondsGateAsWritten(stamp, configured, now, 0) == SecondsGate(stamp, configured, now)
  {
  }

  /** With the default cooldown a player who has just played is refused, and
      is admitted again once 20 seconds have passed. */
  lemma SecondsGateDefault(t: int)
    ensures SecondsGate(Some(At(t)), 0, t) == Active
    ensures SecondsGate(Some(At(t)), 0, t + 20 * TicksPerSecond - 1) == Active
    ensures SecondsGate(Some(At(t)), 0, t + 20 * TicksPerSecond) == Open
  {
  }

  /** West of UTC (here UTC-1) the stored instant is read an hour early, so a
      player may play again one tick after a round. */
  lemma WestOfUtcSkipsCooldown(t: int)
    ensures SecondsGate(Some(At(t)), 0, t + 1) == Active
    ensures SecondsGateAsWritten(Some(At(t)), 0, t + 1, -TicksPerHour) == Open
  {
  }

  /** East of UTC (here UTC+1) the stored instant is read an hour late, so the
      20-second cooldown lasts an hour and 20 seconds. */
  lemma EastOfUtcLengthensCooldown(t: int)
    ensures SecondsGate(Some(At(t)), 0, t + 21 * TicksPerSecond) == Open
    ensures SecondsGateAsWritten(Some(At(t)), 0, t + 21 * TicksPerSecond, TicksPerHour) == Active
  {
  }

  /** The instant a stored timestamp stands for in Beg, Dig and Boss:
      `DateTime.MinValue` (tick 0) when it is missing or does not parse. */
  function LastOrMinValue(stamp: Option<Stamp>): (t: int)
    ensures stamp.Some? && stamp.value.At? ==> t == stamp.value.ticks
    ensures !(stamp.Some? && stamp.value.At?) ==> t == 0
  {
    match stamp
    case Some(At(t)) => t
    case _ => 0
  }

  /** The cooldown of Beg, Dig (`unitTicks` a minute) and Boss (an hour): the
      command is refused exactly while the time since the last use, in those
      units, is below `cooldown`; it never throws. */
  function ElapsedGate(stamp: Option<Stamp>, cooldown: int, unitTicks: int, now: int): (g: Gate)
    requires unitTicks > 0
    ensures g != Throws
    ensures g == Active <==> now - LastOrMinValue(stamp) < cooldown * unitTicks
  {
    var elapsed := now - LastOrMinValue(stamp);
    if elapsed < cooldown * unitTicks then Active else Open
  }

  /** A missing or unparsable timestamp counts as a use at `DateTime.MinValue`:
      on any date at least `cooldown` units after it, the command is open. */
  lemma ElapsedGateWithoutStamp(stamp: Option<Stamp>, cooldown: int, unitTicks: int, now: int)
    requires unitTicks > 0
    requires stamp == None || stamp == Some(Unparsable)
    requires now >= cooldown * unitTicks
    ensures ElapsedGate(stamp, cooldown, unitTicks, now) == Open
  {
  }

  /** Right after a use the command is refused for any positive cooldown, and it
      opens once `cooldown` whole units have passed. */
  lemma ElapsedGateWindow(t: int, cooldown: int, unitTicks: int, now: int)
    requires unitTicks > 0 && cooldown > 0
    ensures ElapsedGate(Some(At(t)), cooldown, unitTicks, t) == Active
    ensures now >= t + cooldown * unitTicks ==> ElapsedGate(Some(At(t)), cooldown, unitTicks, now) == Open
  {
    assert cooldown * unitTicks > 0;
  }

  /** The balance after an unchecked `balance -= cost; balance += payout`
      equals the exact arithmetic whenever that stays inside Int32. */
  lemma SettleExact(balance: int, cost: int, payout: int)
    requires InInt32(balance - cost + payout)
    ensures Wrap32(Wrap32(balance - cost) + payout) == balance - cost + payout
  {
    Wrap32AddWrapped(balance - cost, payout);
  }
}
