# StreamerBot-Commands: currency games, YouTube player and followage

This project is a Dafny model of the core of StreamerBot-Commands. That is a set of
C# command handlers that Streamer.bot runs for Twitch chat commands and
channel-point redemptions. The model covers three groups of handlers.

- **Currency minigames.** `!beg`, `!bingo`, `!boss`, `!dig`, `!highlow`, `!keno`,
  `!lottery` and `!scratch` all work on one shared wallet. The wallet is a class
  `Wallet.Store`. It holds one Int32 balance per user id and one timestamp user
  variable per user id and game. Each game is a `Play` method that runs the
  game's cooldown check and its input and balance checks. Bingo, Highlow and
  Keno then call a `Round` method that changes the store; the other games
  change it in `Play` itself. Each contract states the whole new state: the
  balance with the source's unchecked Int32 arithmetic, the new timestamp, and
  that nothing changes on a refusal or an exception. The `(int)` conversions
  of Bingo's and Keno's `double` winnings are not wrap-around: they are exact
  in range and give `int.MinValue` outside it. The payout tables are
  functions, with lemmas about their tiers, their monotonicity and their
  break-even points.
- **YouTube player redemption.** The model covers:
  - the hand-written ISO 8601 duration parser, as a loop-free method checked
    against a scanning function;
  - the four video-id patterns of `ExtractVideoId`;
  - the play queue, a class over the `|`/`:`-separated string stored in a
    global variable, with an abstraction to its list of entries;
  - the duration gate;
  - the artist/song split of a video title for the lyrics lookup;
  - the two JSON escaping helpers, with an unescaper that proves them
    inverse on the texts they handle.
- **`!followage`.** The model covers how the target user is read from the
  arguments, how the follow date is found in the Helix response text, and the
  years/months/days/hours breakdown and its wording (a method with a loop-free
  build-up, checked against a function).

The module `Numbers` supplies the .NET semantics the handlers depend on:
`int.TryParse`/`int.Parse` (the `NumberStyles.Integer` format within the Int32
range), unchecked 32-bit wrap-around, truncating division and the `(int)`
conversion of a `double`. The module `Strings`
supplies the string API (`Trim`, ordinal `IndexOf`/`Contains`, `Split`, `Join`,
`Replace` of one character, ASCII `ToLower`).

## Model

| member | source | states |
|---|---|---|
| Numbers.Wrap32 | Currency/Games/Highlow/HighlowCommand.cs:118-134 | unchecked Int32 arithmetic: the result is an Int32, congruent to the exact value modulo 2^32, and equal to it when that value fits |
| Numbers.TruncDiv | Currency/Games/Keno/KenoCommand.cs:96-98 | the `(int)` cast of a quotient truncates toward zero: a non-negative quotient is the floor, a negative one the ceiling |
| Numbers.ParseInt32 | Currency/Games/Highlow/HighlowCommand.cs:83-88 | `int.TryParse` succeeds only with an Int32 value |
| Numbers.ParseDigits | Currency/Games/Highlow/HighlowCommand.cs:83-88 | a non-empty run of ASCII digits whose value fits in Int32 parses to that value |
| Numbers.ParseOfToString | Utilities/Followage/FollowageCommand.cs:123-130 | parsing the decimal text of an Int32 natural number gives the number back |
| Numbers.ParseNeedsDigit | Utilities/YouTube-Player/YouTubePlayCommand.cs:563-565 | text without a digit (such as the empty text before a designator) is rejected |
| Numbers.DoubleCastIsNotWrap | Currency/Games/Bingo/BingoCommand.cs:92 | an out-of-range `(int)` conversion of a double gives `int.MinValue`, which differs from the wrapped value |
| Numbers.NumberWhiteIsWhite | Currency/Games/Highlow/HighlowCommand.cs:83-88 | the white space `int.TryParse` skips is white space to `Trim`, but a no-break space is not skipped |
| Numbers.NatToString | Utilities/Followage/FollowageCommand.cs:123-130 | the decimal text of a count is non-empty and all digits |
| Numbers.NatToStringValue | Utilities/Followage/FollowageCommand.cs:123-130 | the decimal text of a count denotes that count |
| Strings.Trim | Utilities/YouTube-Player/YouTubePlayCommand.cs:53-60 | the result is a contiguous slice of the input that starts and ends with a non-white character, and only white space was dropped |
| Strings.ToLowerLowers | Currency/Games/Highlow/HighlowCommand.cs:72 | lower-casing leaves no upper-case letter, changes only upper-case letters, and is idempotent |
| Strings.TrimStart | Utilities/YouTube-Player/YouTubePlayCommand.cs:53-60 | the result is a suffix of the input that does not start with white space, and everything dropped is white space |
| Strings.TrimEnd | Utilities/YouTube-Player/YouTubePlayCommand.cs:53-60 | the result is a prefix of the input that does not end with white space, and everything dropped is white space |
| Strings.Find | Utilities/YouTube-Player/YouTubePlayCommand.cs:637-644 | `IndexOf` answers the first position at or after the start where the pattern occurs, or none when it occurs nowhere there |
| Strings.IndexOfChar | Utilities/YouTube-Player/YouTubePlayCommand.cs:561-584 | the first index of the character, with no earlier occurrence, or none when it does not occur |
| Strings.ContainsInfix | Utilities/Followage/FollowageCommand.cs:187 | text placed anywhere in a string is found by `Contains` |
| Strings.Split | Utilities/YouTube-Player/YouTubePlayCommand.cs:232-234 | at least one piece, and no piece holds the delimiter |
| Strings.SplitJoin | Utilities/YouTube-Player/YouTubePlayCommand.cs:247 | splitting a join of pieces without the delimiter gives the pieces back |
| Strings.JoinSplit | Utilities/YouTube-Player/YouTubePlayCommand.cs:232-247 | joining the pieces of a split gives the text back |
| Strings.ReplaceRemoves | Utilities/Followage/FollowageCommand.cs:59 | replacing a character by text without it leaves none of it |
| Strings.ReplaceAbsent | Utilities/Followage/FollowageCommand.cs:59 | replacing a character that does not occur changes nothing |
| Strings.TrimNotContains | Utilities/YouTube-Player/YouTubePlayCommand.cs:637-644 | trimming cannot create an occurrence of a pattern |
| Strings.TrimPadded | Utilities/Followage/FollowageCommand.cs:132 | trimming an unpadded text followed by white padding gives back the text |
| JsonEscape.EscapeJsonString | Utilities/YouTube-Player/YouTubePlayCommand.cs:888-901 | the chain of seven replacements is the per-character escape with `\b` and `\f` (proved by EscapeChain) |
| JsonEscape.EscapeJson | Currency/Games/Dig/DigCommand.cs:203-214 | the five-replacement chain shared by the game handlers is the per-character escape without `\b` and `\f` |
| JsonEscape.ReplaceConcat | Utilities/YouTube-Player/YouTubePlayCommand.cs:893-900 | one-character replacement distributes over concatenation |
| JsonEscape.FullChainConcat | Utilities/YouTube-Player/YouTubePlayCommand.cs:893-900 | the seven-step chain distributes over concatenation |
| JsonEscape.ShortChainConcat | Utilities/YouTube-Player/YouTubePlayCommand.cs:908-913 | the five-step chain distributes over concatenation |
| JsonEscape.ChainOnChar | Utilities/YouTube-Player/YouTubePlayCommand.cs:893-900 | on a single character the chain gives that character's escape: backslash is replaced first, so no escape is escaped twice |
| JsonEscape.EscapeChain | Utilities/YouTube-Player/YouTubePlayCommand.cs:888-914 | each replacement chain equals escaping character by character |
| JsonEscape.CodeUnitAt | Utilities/YouTube-Player/YouTubePlayCommand.cs:888-901 | a decoded `\uXXXX` escape is a UTF-16 code unit and lies inside the text |
| JsonEscape.UnescapeEscaped | Utilities/YouTube-Player/YouTubePlayCommand.cs:888-914 | a JSON reader gets the original text back from an escaped text exactly when the text has no control character the helper leaves raw |
| JsonEscape.EscapeJsonStringRoundTrip | Utilities/YouTube-Player/YouTubePlayCommand.cs:888-901 | the round trip for `EscapeJsonString` |
| JsonEscape.EscapeJsonRoundTrip | Currency/Games/Dig/DigCommand.cs:203-214 | the round trip for `EscapeJson` |
| JsonEscape.EscapeJsonLeavesFormFeed | Utilities/YouTube-Player/YouTubePlayCommand.cs:899-913 | `EscapeJson` leaves a form feed raw, which makes the JSON invalid, while `EscapeJsonString` round-trips it |
| JsonEscape.NoRawWhiteControls | Utilities/YouTube-Player/YouTubePlayCommand.cs:896-900 | the output of `EscapeJsonString` holds no raw newline, carriage return, tab, backspace or form feed |
| JsonEscape.QuotesAreEscaped | Utilities/YouTube-Player/YouTubePlayCommand.cs:894-895 | every quote in an escaped text is preceded by a backslash |
| Wallet.Store.constructor | Currency/Games/Highlow/HighlowCommand.cs:108 | the store starts with no balances and no stamps |
| Wallet.Store.BalanceOf | Currency/Games/Highlow/HighlowCommand.cs:108 | a user without a balance has 0, and a stored balance is an Int32 |
| Wallet.Store.StampOf | Currency/Games/Highlow/HighlowCommand.cs:41-42 | a stamp is present exactly when the user variable is set |
| Wallet.Store.SetBalance | Currency/Games/Highlow/HighlowCommand.cs:119 | only that user's balance changes, and stamps are untouched |
| Wallet.Store.SetStamp | Currency/Games/Highlow/HighlowCommand.cs:146 | only that user's stamp for that game changes, and balances are untouched |
| Wallet.SecondsGateAsWritten | Currency/Games/Highlow/HighlowCommand.cs:41-59 | as written, the check throws on an unparsable stamp and refuses while `now` is before the stored instant plus the host's UTC offset plus the cooldown |
| Wallet.SecondsGate | Currency/Games/Highlow/HighlowCommand.cs:41-59 | a round is refused exactly while fewer than the cooldown's seconds have passed since the last UTC stamp, and an unparsable stamp throws |
| Wallet.SecondsGateOnUtcHost | Currency/Games/Highlow/HighlowCommand.cs:44-48 | on a host whose clock is UTC, the check as written is the intended one |
| Wallet.SecondsGateDefault | Currency/Games/Highlow/HighlowCommand.cs:38-48 | with the default, a player is refused up to 20 seconds after a round and admitted from then on |
| Wallet.WestOfUtcSkipsCooldown | Currency/Games/Keno/KenoCommand.cs:43-48 | west of UTC the check as written admits a player one tick after their round |
| Wallet.EastOfUtcLengthensCooldown | Currency/Games/Scratch/ScratchCommand.cs:45-49 | east of UTC the check as written still refuses a player after the cooldown has passed |
| Wallet.ElapsedGate | Currency/Games/Beg/BegCommand.cs:43-45 | the minutes/hours checks never throw, and refuse exactly while less than the cooldown has passed since the last stamp |
| Wallet.ElapsedGateWithoutStamp | Currency/Games/Dig/DigCommand.cs:42-50 | a missing or unparsable stamp reads as `DateTime.MinValue`, so a cooldown that has passed since then admits the player |
| Wallet.ElapsedGateWindow | Currency/Games/Boss/BossCommand.cs:53-55 | right after a round a positive cooldown refuses the player, and once it has passed they are admitted |
| Wallet.SettleExact | Currency/Games/Keno/KenoCommand.cs:80-98 | whenever the exact balance − cost + payout fits in Int32, the wrapped settlement equals it |
| Beg.EarnedRange | Currency/Games/Beg/BegCommand.cs:85 | `Random.Next(minBeg, maxBeg + 1)` throws exactly when its bounds, with the upper one wrapped, are inverted; otherwise it gives the range it draws from |
| Beg.EarnedBounds | Currency/Games/Beg/BegCommand.cs:84-85 | a successful beg earns between the configured bounds, and nothing negative when the minimum is not negative |
| Beg.Play | Currency/Games/Beg/BegCommand.cs:31-93 | cooldown refusal without change; a roll of at most 20 stamps only; a throwing draw changes nothing; otherwise the balance grows by `earned` (wrapped) and the time is stamped |
| Beg.NeverLoses | Currency/Games/Beg/BegCommand.cs:85-90 | begging never lowers a balance when the minimum is not negative and the sum fits |
| Bingo.WinningsFit | Currency/Games/Bingo/BingoCommand.cs:91-92 | while four times the bet fits in an Int32, the `(int)` conversion of the winnings is exact |
| Bingo.FullHouseOverflow | Currency/Games/Bingo/BingoCommand.cs:91-92 | a full house on a bet of 600,000,000 is worth 2,400,000,000 and converts to `int.MinValue` |
| Bingo.Winnings | Currency/Games/Bingo/BingoCommand.cs:91-92 | the payout is `0.8 * lines * bet` truncated, between 0 and 4 × bet; 0 lines pays 0 and 5 lines pays 4 × bet |
| Bingo.WinningsMonotone | Currency/Games/Bingo/BingoCommand.cs:89-92 | more lines never pay less |
| Bingo.BreakEven | Currency/Games/Bingo/BingoCommand.cs:89-92 | a positive bet is won back exactly when 2 or more lines come up |
| Bingo.Classify | Currency/Games/Bingo/BingoCommand.cs:99-122 | full house exactly at 5 lines, a loss exactly at 0 |
| Bingo.LossPaysNothing | Currency/Games/Bingo/BingoCommand.cs:115-122 | the round reported as a loss pays nothing |
| Bingo.CheckBet | Currency/Games/Bingo/BingoCommand.cs:64-69 | a bet is accepted exactly when the argument is present, parses and lies in the configured range |
| Bingo.Play | Currency/Games/Bingo/BingoCommand.cs:40-97 | the gates in source order with no change on refusal, then the round's effect |
| Bingo.Round | Currency/Games/Bingo/BingoCommand.cs:86-97 | the winnings go through the `(int)` conversion of a double, the balance becomes balance − bet + winnings with Int32 wrap-around, and the time is stamped |
| Boss.WinningRolls | Currency/Games/Boss/BossCommand.cs:70 | a roll is winning exactly when it lies in 1..n and is at most 30 |
| Boss.WinOdds | Currency/Games/Boss/BossCommand.cs:70 | exactly 30 of the 100 rolls win |
| Boss.RemainingOverflows | Currency/Games/Boss/BossCommand.cs:55-57 | the remaining-time computation throws for a cooldown of 256,204,779 hours or more, and never for a smaller non-negative cooldown that is active on a stamp not in the future |
| Boss.Play | Currency/Games/Boss/BossCommand.cs:42-105 | while the cooldown is active: an exception with no change when the remaining time overflows, a refusal with no change otherwise; a win adds the reward; win or lose the time is stamped |
| Dig.Reward | Currency/Games/Dig/DigCommand.cs:73-78 | every dig pays between 5 and 400 |
| Dig.RewardNonIncreasing | Currency/Games/Dig/DigCommand.cs:73-78 | a higher roll never pays more |
| Dig.RewardTiers | Currency/Games/Dig/DigCommand.cs:73-78 | each reward is paid for exactly its band of rolls |
| Dig.Play | Currency/Games/Dig/DigCommand.cs:39-86 | minutes cooldown refusal without change; otherwise the reward is added and the time stamped |
| Dig.DigGrows | Currency/Games/Dig/DigCommand.cs:81-83 | a dig raises a balance that stays inside Int32 |
| Highlow.ParseChoice | Currency/Games/Highlow/HighlowCommand.cs:72-98 | a choice is found exactly for `high`, `h`, `low`, `l` in any ASCII case, and it is High exactly for `high` and `h` |
| Highlow.ChoiceWords | Currency/Games/Highlow/HighlowCommand.cs:90-98 | an accepted word means High exactly when it lowers to `high` or `h` |
| Highlow.CheckInputs | Currency/Games/Highlow/HighlowCommand.cs:64-105 | the argument checks in source order: a round is accepted exactly when every check passes, with the parsed in-range bet and the choice, and each refusal happens exactly when its check is the first to fail |
| Highlow.TiesLose | Currency/Games/Highlow/HighlowCommand.cs:129 | equal cards lose whatever the choice |
| Highlow.ChoicesMirror | Currency/Games/Highlow/HighlowCommand.cs:127-129 | high on (a, b) is low on (b, a), and on different cards exactly one choice wins |
| Highlow.Play | Currency/Games/Highlow/HighlowCommand.cs:38-146 | the gates in source order with no change on refusal, then the round's effect |
| Highlow.Round | Currency/Games/Highlow/HighlowCommand.cs:117-146 | the bet is taken, a win pays bet × multiplier (wrapped), and the time is stamped |
| Keno.HalfMultiplier | Currency/Games/Keno/KenoCommand.cs:85-93 | the multiplier is 0 exactly for no match, at least 1.5 from two matches on, at most 0.5 below, and at most 10 |
| Keno.WinningsFit | Currency/Games/Keno/KenoCommand.cs:96 | while ten times the bet fits in an Int32, the `(int)` conversion of the winnings is exact |
| Keno.JackpotOverflow | Currency/Games/Keno/KenoCommand.cs:96 | five matches on a bet of 214,748,365 are worth 2,147,483,650 and convert to `int.MinValue` |
| Keno.Winnings | Currency/Games/Keno/KenoCommand.cs:96-98 | the multiplier of the matches times the bet, truncated; 5 matches pay 10 × bet, 4 pay 5 × bet, 0 pay nothing |
| Keno.WinningsMonotone | Currency/Games/Keno/KenoCommand.cs:83-98 | more matches never pay less |
| Keno.BreakEven | Currency/Games/Keno/KenoCommand.cs:83-98 | a positive bet is won back exactly with 2 or more matches |
| Keno.CheckBet | Currency/Games/Keno/KenoCommand.cs:63-68 | a bet is accepted exactly when the argument is present, parses and lies in range |
| Keno.Play | Currency/Games/Keno/KenoCommand.cs:37-101 | the gates in source order with no change on refusal, then the round's effect |
| Keno.Round | Currency/Games/Keno/KenoCommand.cs:80-101 | the winnings go through the `(int)` conversion of a double, the balance becomes balance − bet + winnings with wrap-around, and the time is stamped |
| Lottery.Prize | Currency/Games/Lottery/LotteryCommand.cs:90-114 | each prize is paid for exactly its band of rolls |
| Lottery.PrizeNonIncreasing | Currency/Games/Lottery/LotteryCommand.cs:90-114 | a higher roll never pays more |
| Lottery.Play | Currency/Games/Lottery/LotteryCommand.cs:40-119 | the gates with no change on refusal; then the ticket is paid, the time stamped and the prize added |
| Scratch.Payout | Currency/Games/Scratch/ScratchCommand.cs:90-104 | three of a kind pay by symbol, exactly two alike pay 75, all different pay 0 |
| Scratch.PayoutSymmetric | Currency/Games/Scratch/ScratchCommand.cs:90-104 | the payout does not depend on the order of the symbols |
| Scratch.PayoutValues | Currency/Games/Scratch/ScratchCommand.cs:90-104 | the payout is one of six amounts and beats the card's price exactly on three of a kind |
| Scratch.Play | Currency/Games/Scratch/ScratchCommand.cs:39-109 | the gates with no change on refusal; then the card is paid, the time stamped and the payout added |
| YouTube.Designator | Utilities/YouTube-Player/YouTubePlayCommand.cs:561-584 | a block that completes keeps the running total inside Int32 |
| YouTube.DurationSeconds | Utilities/YouTube-Player/YouTubePlayCommand.cs:546-592 | every duration the parser returns is an Int32 |
| YouTube.Components | Utilities/YouTube-Player/YouTubePlayCommand.cs:561-591 | the three blocks give an Int32 total |
| YouTube.ParseIso8601Duration | Utilities/YouTube-Player/YouTubePlayCommand.cs:546-592 | the method computes the duration the scan defines |
| YouTube.ConsumeDesignator | Utilities/YouTube-Player/YouTubePlayCommand.cs:561-584 | one designator step fails exactly when its number does not parse, and otherwise adds the wrapped weighted amount and drops the component |
| YouTube.WellFormedDuration | Utilities/YouTube-Player/YouTubePlayCommand.cs:546-586 | `PT[nH][nM][nS]` with Int32-sized parts gives 3600 h + 60 m + s |
| YouTube.AfterPeriod | Utilities/YouTube-Player/YouTubePlayCommand.cs:557-558 | the duration of `PT` + t is the value of the components t |
| YouTube.NoPeriodPrefix | Utilities/YouTube-Player/YouTubePlayCommand.cs:557-558 | text without a leading `PT` is read as it stands |
| YouTube.BadComponent | Utilities/YouTube-Player/YouTubePlayCommand.cs:561-591 | when the first designator present is preceded by text that does not parse, the whole duration is 0 |
| YouTube.BadMinutes | Utilities/YouTube-Player/YouTubePlayCommand.cs:570-591 | after a well-formed or absent hours part, a minutes part that does not parse (as in `PT1HxM`) makes the whole duration 0 |
| YouTube.BadSeconds | Utilities/YouTube-Player/YouTubePlayCommand.cs:579-591 | after well-formed or absent hours and minutes parts, a seconds part that does not parse (as in `PT1H2MxS`) makes the whole duration 0 |
| YouTube.FirstGroup | Utilities/YouTube-Player/YouTubePlayCommand.cs:757-783 | a regex search finds an 11-character id at a position where the pattern matches |
| YouTube.ExtractVideoId | Utilities/YouTube-Player/YouTubePlayCommand.cs:744-791 | an extracted id consists of 11 id characters, possibly followed by one final newline that `$` admits |
| YouTube.TrimmedGivesId | Utilities/YouTube-Player/YouTubePlayCommand.cs:53-79 | from a trimmed URL the id is exactly 11 id characters |
| YouTube.ShortTextHasNoGroup | Utilities/YouTube-Player/YouTubePlayCommand.cs:757-783 | text shorter than an id matches no pattern |
| YouTube.BareIdUnchanged | Utilities/YouTube-Player/YouTubePlayCommand.cs:772-776 | a bare id is returned as it is |
| YouTube.WatchLink | Utilities/YouTube-Player/YouTubePlayCommand.cs:756-762 | a `youtube.com/watch?v=` link gives the id after it when that id ends the text or is followed by `&` |
| YouTube.PrefixesApart | Utilities/YouTube-Player/YouTubePlayCommand.cs:756-762 | two occurrences of a prefix with no overlap are at least its length apart |
| YouTube.MusicHost | Utilities/YouTube-Player/YouTubePlayCommand.cs:69 | a link is flagged as music exactly when `music.youtube.com` occurs in it, wherever that is |
| YouTube.DefaultAllowance | Utilities/YouTube-Player/YouTubePlayCommand.cs:35-36 | unconfigured, a known duration above 600 seconds is refused, a shorter one plays for its length, and an unknown one plays for 600 seconds |
| YouTube.Admit | Utilities/YouTube-Player/YouTubePlayCommand.cs:115-137 | a known duration above the maximum is refused; otherwise the video plays for its duration, or for the maximum when the duration is unknown |
| YouTube.AdmitMonotone | Utilities/YouTube-Player/YouTubePlayCommand.cs:128-134 | when a longer video is admitted, a shorter one is admitted too |
| YouTube.CutAt | Utilities/YouTube-Player/YouTubePlayCommand.cs:637-644 | the result holds no marker, and text without the marker is kept as it is |
| YouTube.StripOfficial | Utilities/YouTube-Player/YouTubePlayCommand.cs:637-644 | the song holds neither `(Official` nor `[Official`, and a clean song is untouched |
| YouTube.LyricSearch | Utilities/YouTube-Player/YouTubePlayCommand.cs:620-660 | no lookup exactly when neither the title nor the channel gives an artist; an artist is never empty; the channel stands in for a missing artist |
| YouTube.SplitTitle | Utilities/YouTube-Player/YouTubePlayCommand.cs:618-634 | the artist is always trimmed, the song is trimmed when a separator was found, and a title with neither separator gives no artist and itself as the song |
| YouTube.ArtistDashSong | Utilities/YouTube-Player/YouTubePlayCommand.cs:623-628 | `Artist - Song` splits into that artist and song |
| YouTube.SongByArtist | Utilities/YouTube-Player/YouTubePlayCommand.cs:629-634 | `Song by Artist` splits into that artist and song |
| YouTube.TitleWithoutArtist | Utilities/YouTube-Player/YouTubePlayCommand.cs:646-659 | a title with neither separator uses the channel as the artist, or gives no lookup without one |
| PlayQueue.FormatEntry | Utilities/YouTube-Player/YouTubePlayCommand.cs:185-193 | an entry text always holds the field separator |
| PlayQueue.ParseEntry | Utilities/YouTube-Player/YouTubePlayCommand.cs:234-238 | an entry parses exactly when it holds a `:`, and then its user and id hold none |
| PlayQueue.EntryRoundTrip | Utilities/YouTube-Player/YouTubePlayCommand.cs:185-238 | an entry whose user has no `:` (an id never has one) parses back to itself |
| PlayQueue.VideoIdHasNoSeparators | Utilities/YouTube-Player/YouTubePlayCommand.cs:744-791 | an extracted id holds neither `:` nor `\|` |
| PlayQueue.EntriesOf | Utilities/YouTube-Player/YouTubePlayCommand.cs:198-205 | the stored text is the join of its entries, and the empty text has none |
| PlayQueue.PushedEntries | Utilities/YouTube-Player/YouTubePlayCommand.cs:187-194 | adding appends exactly one entry at the back |
| PlayQueue.RestEntries | Utilities/YouTube-Player/YouTubePlayCommand.cs:241-249 | removing drops exactly the front entry |
| PlayQueue.PushedWellFormed | Utilities/YouTube-Player/YouTubePlayCommand.cs:187-194 | adding keeps the queue free of empty entries |
| PlayQueue.RestWellFormed | Utilities/YouTube-Player/YouTubePlayCommand.cs:241-249 | removing keeps the queue free of empty entries |
| PlayQueue.FirstInFirstOut | Utilities/YouTube-Player/YouTubePlayCommand.cs:181-249 | a video added to a queue is played after the ones already in it |
| PlayQueue.Queue.constructor | Utilities/YouTube-Player/YouTubePlayCommand.cs:186 | the queue starts from the stored text |
| PlayQueue.Queue.AddToQueue | Utilities/YouTube-Player/YouTubePlayCommand.cs:181-196 | the new text, and that one entry is appended while the queue stays well formed |
| PlayQueue.Queue.GetQueueLength | Utilities/YouTube-Player/YouTubePlayCommand.cs:198-205 | the number of entries, 0 exactly for the empty text |
| PlayQueue.Queue.PopNext | Utilities/YouTube-Player/YouTubePlayCommand.cs:207-290 | nothing for an empty queue; a front entry without `:` throws with no change; otherwise the front entry is returned and removed, with the remaining count and the play time |
| PlayQueue.RedeemedUrl | Utilities/YouTube-Player/YouTubePlayCommand.cs:51-66 | the trimmed `rawInput` when it is non-empty, else the trimmed `input0`, else no URL |
| PlayQueue.Redeem | Utilities/YouTube-Player/YouTubePlayCommand.cs:28-137 | the redemption's branches: missing arguments, no URL, invalid URL, queued behind a playing video at the position after the old length, refused as too long, or played |
| Followage.Argument | Utilities/Followage/FollowageCommand.cs:44-49 | the argument is empty exactly when both inputs are, and it is `input0` unless that is empty |
| Followage.Mentioned | Utilities/Followage/FollowageCommand.cs:59 | the login holds no `@` and has no surrounding white space |
| Followage.ParseTarget | Utilities/Followage/FollowageCommand.cs:44-77 | another user is targeted exactly when the cleaned argument is non-empty and differs from the caller ignoring ASCII case |
| Followage.MentionOfCaller | Utilities/Followage/FollowageCommand.cs:56-62 | no argument, or a mention of the caller in any case, targets the caller |
| Followage.MentionedName | Utilities/Followage/FollowageCommand.cs:59 | `@name` yields `name` for a clean name |
| Followage.MentionOfOther | Utilities/Followage/FollowageCommand.cs:49-64 | `@name` in either argument targets that other user |
| Followage.TargetIgnoresCase | Utilities/Followage/FollowageCommand.cs:62 | the target does not depend on the caller's letter case |
| Followage.NotFollowingMarkers | Utilities/Followage/FollowageCommand.cs:187 | `"total":0` or `"data":[]` anywhere in the answer means not following |
| Followage.FollowedAt | Utilities/Followage/FollowageCommand.cs:186-198 | the not-following markers give no date; otherwise a date is a non-empty quote-free text found right after `"followed_at":"` |
| Followage.FollowedAtFound | Utilities/Followage/FollowageCommand.cs:193-198 | the date is the text from the first marker to the next quote, when that text is non-empty |
| Followage.FollowedAtExtracts | Utilities/Followage/FollowageCommand.cs:193-198 | a response with one marker followed by a quoted date gives that date |
| Followage.EmptyDateRejected | Utilities/Followage/FollowageCommand.cs:196 | an empty quoted date gives no date |
| Followage.TruncMod | Utilities/Followage/FollowageCommand.cs:116-117 | C# `%`: the remainder takes the dividend's sign and completes the truncating quotient |
| Followage.BreakdownOf | Utilities/Followage/FollowageCommand.cs:115-117 | years of 365 days, months of 30 days and remaining days that recompose the total, and no negative part for a non-negative span |
| Followage.BreakdownUnique | Utilities/Followage/FollowageCommand.cs:115-117 | any decomposition with parts in those ranges is the breakdown |
| Followage.UnitText | Utilities/Followage/FollowageCommand.cs:123-130 | a unit text starts with its count's digits and does not end in white space |
| Followage.UnitPlural | Utilities/Followage/FollowageCommand.cs:123-130 | a unit is pluralised exactly when its count is not 1 |
| Followage.ShownUnits | Utilities/Followage/FollowageCommand.cs:123-130 | each shown unit is well shaped, and none is shown exactly when no part is positive and the hours are not shown |
| Followage.Describe | Utilities/Followage/FollowageCommand.cs:121-137 | the text is "less than an hour" exactly when no unit is shown, and otherwise starts with a digit and does not end in white space |
| Followage.DurationText | Utilities/Followage/FollowageCommand.cs:121-137 | the method builds the text the breakdown defines |
| Followage.TrimmedDescribes | Utilities/Followage/FollowageCommand.cs:132-137 | trimming the built text gives the units joined by single spaces |
| Followage.AppendUnitIf | Utilities/Followage/FollowageCommand.cs:123-130 | one conditional append adds exactly that unit and a space |
| Followage.LessThanAnHourIff | Utilities/Followage/FollowageCommand.cs:134-137 | the fallback text is shown exactly when neither the day count nor the hour count is positive |
| Followage.NoUnitsIff | Utilities/Followage/FollowageCommand.cs:123-134 | no unit is shown exactly when neither days nor hours are positive |
| Followage.JoinedIsNotFallback | Utilities/Followage/FollowageCommand.cs:132-137 | a text built from units never reads as the fallback |
| Followage.HoursOnlyInFirstMonth | Utilities/Followage/FollowageCommand.cs:129-130 | from 30 days on, hours are never shown |
| Followage.UnitNamesDiffer | Utilities/Followage/FollowageCommand.cs:123-130 | texts of different units never coincide |
| Followage.DescribeYearsExample | Utilities/Followage/FollowageCommand.cs:123-124 | 730 days read as "2 years" |
| Followage.DescribeAllUnitsExample | Utilities/Followage/FollowageCommand.cs:123-130 | 396 days and 7 hours read as "1 year 1 month 1 day" |
| Followage.Execute | Utilities/Followage/FollowageCommand.cs:19-149 | the command's outcomes in source order: missing ids, unknown user, broadcaster, not configured, not following, or the follow text, addressed to the caller or the target; a follow text needs an access token, a client id and a response holding a follow date, as `GetFollowDate` demands |

## Left out

- Chat messages, Discord webhook logging and Streamer.bot `LogInfo`/`LogError` calls produce only text for the outside world. The model returns which outcome was reached instead of the message text.
- `Random` draws (cards, rolls, lines, matches, symbols, rewards) are inputs, constrained to the ranges the source draws from. `DateTime.UtcNow` is the input `now`, in ticks.
- `DateTime.Parse` of stored stamps is the `Stamp` datatype: the instant a stamp denotes, or text that does not parse. Formatting with `ToString("o")` is stamping `At(now)`.
- Floating-point arithmetic: Bingo's `lines * 0.8` and Keno's multipliers are computed exactly and truncated toward zero. For Int32 bets the binary rounding of the double product never crosses an integer. `TotalMinutes`/`TotalHours`/`TotalDays` comparisons are exact tick comparisons.
- Numbers.DoubleToInt32: an out-of-range `(int)` conversion gives `int.MinValue`, as the x86 and x64 .NET Framework runtimes that Streamer.bot runs on do; .NET 9 and later saturate instead, and that behaviour is not modelled.
- Wallet.SecondsGate: `lastPlayed.AddSeconds(cooldown)` throws when the sum leaves the `DateTime` range (a stamp near `DateTime.MaxValue`, or a cooldown of billions of seconds); that exception, which the catch would turn into a fault with no change, is not modelled.
- Beg.Play, Dig.Play: `TimeSpan.FromMinutes` of an Int32 cooldown never overflows, and the minutes left appear only in the message.
- Culture-sensitive string operations are ordinal. `ToLower` lowers ASCII letters only. Strings are sequences of Unicode scalar values, not UTF-16 code units.
- YouTube: `GetExactVideoDuration` and the YouTube Data API request are left out: the answered duration is the input `apiDuration`, 0 on failure. The title and channel name are inputs of `LyricSearch`.
- YouTube: the `current-video.json` age check is the input `videoIsPlaying`. `PlayVideo`, the OBS source control, the lyrics request and the `Task.Run` monitor that calls `ProcessQueue` are left out.
- YouTube: `ProcessQueue` after the pop is left out, because it only fetches lyrics and plays the video. A front entry without `:` makes `parts[1]` throw; that path is `Malformed`.
- Followage: the Helix HTTP request is the input `response`, and the Twitch user lookup is the input `lookup`.
- Followage: the time since the parsed follow date is the input `followed`, as `TimeSpan.Days` and `TimeSpan.Hours`. `Execute` requires that it is None whenever `GetFollowDate` finds no date text; a date text that `DateTime.Parse` rejects, which the source catches as an exception, is also `followed == None`.
- Followage.Execute: the outer `catch` that turns an unexpected exception into `false` is not modelled; none of the modelled steps throws.
- Numbers.ParseInt32 models only `NumberStyles.Integer` with ASCII digits: the culture's sign symbols and other digit sets are left out.
- Beg.Play: the pick of a response text (`responses[random.Next(...)]`) is left out, because it affects only the message.

## Findings

| source | as written | input that shows it | evidently intended | confidence | as-written member | corrected member |
|---|---|---|---|---|---|---|
| Currency/Games/Highlow/HighlowCommand.cs:44 (also Bingo/BingoCommand.cs:46, Lottery/LotteryCommand.cs:46, Scratch/ScratchCommand.cs:45, Keno/KenoCommand.cs:43) | `DateTime.Parse` of the stored `"o"` UTC text returns local time, which is then compared tick for tick with `DateTime.UtcNow`. The cooldown is therefore shifted by the host's UTC offset. | A host at UTC−1 with the default 20-second cooldown: a second round 1 tick after the first is admitted. At UTC+1, a round 21 seconds later is still refused. | Refuse exactly while fewer than the cooldown's seconds have passed since the last round's UTC instant. Beg, Boss and Dig do this with `.ToUniversalTime()`. | not executed | Wallet.SecondsGateAsWritten, with Wallet.WestOfUtcSkipsCooldown and Wallet.EastOfUtcLengthensCooldown | Wallet.SecondsGate (used by every seconds-cooldown `Play`), with Wallet.SecondsGateDefault |
