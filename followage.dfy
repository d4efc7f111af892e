/** `!followage [@username]`: whom to look up, when the Twitch follower
    answer says the user follows and since when, and how the time since then
    is worded. */
module Followage {
  import opened Strings
  import opened Numbers

  // ---------------------------------------------------------------------
  // Target user
  // ---------------------------------------------------------------------

  datatype Target = Caller | Other(login: string)

  /** The argument the command reads: `input0` when it is non-empty,
      `rawInput` otherwise (a missing argument reads as `""`). */
  function Argument(rawInput: string, input0: string): (arg: string)
    ensures arg == "" <==> input0 == "" && rawInput == ""
    ensures arg == input0 || (input0 == "" && arg == rawInput)
  {
    if input0 != "" then input0 else rawInput
  }

  /** The argument with every `@` removed and trimmed. */
  function Mentioned(arg: string): (login: string)
    ensures '@' !in login
    ensures login == [] || (!IsWhiteSpace(login[0]) && !IsWhiteSpace(login[|login| - 1]))
  {
    var r := ReplaceChar(arg, '@', "");
    ReplaceRemoves(arg, '@', "");
    TrimKeepsAbsent(r, '@');
    Trim(r)
  }

  /** The followage asked about is the caller's unless the argument names,
      once `@` is removed and it is trimmed, someone whose name differs from
      the caller's ignoring case. */
  function ParseTarget(user: string, rawInput: string, input0: string): (t: Target)
    ensures t.Other? <==>
      Argument(rawInput, input0) != ""
      && Mentioned(Argument(rawInput, input0)) != ""
      && ToLower(Mentioned(Argument(rawInput, input0))) != ToLower(user)
    ensures t.Other? ==> t.login == Mentioned(Argument(rawInput, input0))
    ensures t.Other? ==> t.login != "" && '@' !in t.login && ToLower(t.login) != ToLower(user)
  {
    var targetUsername := Argument(rawInput, input0);
    if targetUsername == "" then Caller
    else
      var parsedUser := Mentioned(targetUsername);
      if parsedUser != "" && ToLower(parsedUser) != ToLower(user) then Other(parsedUser)
      else Caller
  }

  /** Without an argument, and with `@` followed by the caller's own name in
      any letter case, the caller's followage is shown. */
  lemma MentionOfCaller(user: string, written: string, rawInput: string)
    requires ToLower(written) == ToLower(user)
    requires '@' !in written && written != ""
    requires !IsWhiteSpace(written[0]) && !IsWhiteSpace(written[|written| - 1])
    ensures ParseTarget(user, "", "") == Caller
    ensures ParseTarget(user, rawInput, "@" + written) == Caller
  {
    MentionedName(written);
  }

  /** `@name` for a name without `@` and without surrounding white space
      reads as exactly `name`. */
  lemma MentionedName(name: string)
    requires '@' !in name
    requires name == [] || (!IsWhiteSpace(name[0]) && !IsWhiteSpace(name[|name| - 1]))
    ensures Mentioned("@" + name) == name
  {
    assert ("@" + name)[1..] == name;
    ReplaceAbsent(name, '@', "");
    assert ReplaceChar("@" + name, '@', "") == name;
    TrimOfUnpadded(name);
  }

  /** `@name` of someone else names exactly that user, whichever of the two
      arguments carries it. */
  lemma MentionOfOther(user: string, name: string, rawInput: string)
    requires '@' !in name && name != ""
    requires !IsWhiteSpace(name[0]) && !IsWhiteSpace(name[|name| - 1])
    requires ToLower(name) != ToLower(user)
    ensures ParseTarget(user, rawInput, "@" + name) == Other(name)
    ensures ParseTarget(user, "@" + name, "") == Other(name)
  {
    MentionedName(name);
    assert Argument(rawInput, "@" + name) == "@" + name == Argument("@" + name, "");
  }

  /** The caller is compared ignoring case: two names with the same lowered
      form choose the same target. */
  lemma TargetIgnoresCase(user: string, other: string, rawInput: string, input0: string)
    requires ToLower(user) == ToLower(other)
    ensures ParseTarget(user, rawInput, input0) == ParseTarget(other, rawInput, input0)
  {
  }

  // ---------------------------------------------------------------------
  // Follower response
  // ---------------------------------------------------------------------

  const TotalZero: string := "\"total\":0"
  const DataEmpty: string := "\"data\":[]"
  const FollowedAtMarker: string := "\"followed_at\":\""

  /** The answer says the user does not follow. */
  predicate NotFollowingResponse(response: string)
  {
    Contains(response, TotalZero) || Contains(response, DataEmpty)
  }

  /** Either marker anywhere in the answer means the user does not follow. */
  lemma NotFollowingMarkers(pre: string, post: string)
    ensures NotFollowingResponse(pre + TotalZero + post)
    ensures NotFollowingResponse(pre + DataEmpty + post)
  {
    ContainsInfix(pre, TotalZero, post);
    ContainsInfix(pre, DataEmpty, post);
  }

  /** `"followed_at":"<date>"` stands at `p` in the answer. */
  predicate DateAt(response: string, p: int, date: string)
  {
    0 <= p && p + 15 + |date| < |response|
    && response[p..p + 15] == FollowedAtMarker
    && response[p + 15..p + 15 + |date|] == date
    && response[p + 15 + |date|] == '"'
  }

  /** The date text of a follower answer: what lies between the first
      `"followed_at":"` and the next quote, when that is not empty; None when
      the answer says the user does not follow, when the marker is missing,
      and when no closing quote follows. */
  function FollowedAt(response: string): (date: Option<string>)
    ensures NotFollowingResponse(response) ==> date.None?
    ensures !Contains(response, FollowedAtMarker) ==> date.None?
    ensures date.Some? ==> date.value != "" && '"' !in date.value
    ensures date.Some? ==> exists p :: DateAt(response, p, date.value)
  {
    if NotFollowingResponse(response) then None
    else
      match Find(response, FollowedAtMarker, 0)
      case None => None
      case Some(p) =>
        var dateStart := p + 15;
        match Find(response, "\"", dateStart)
        case None => None
        case Some(dateEnd) =>
          if dateEnd > dateStart then
            var date := response[dateStart..dateEnd];
            assert '"' !in date by {
              forall i | 0 <= i < |date| ensures date[i] != '"' {
                assert !OccursAt(response, "\"", dateStart + i);
                assert response[dateStart + i..dateStart + i + 1] == [date[i]];
              }
            }
            assert response[dateEnd..dateEnd + 1] == "\"";
            assert DateAt(response, p, date);
            Some(date)
          else None
  }

  /** `FollowedAt` once both searches have been answered. */
  lemma FollowedAtFound(response: string, p: nat, dateEnd: nat, date: string)
    requires !NotFollowingResponse(response)
    requires Find(response, FollowedAtMarker, 0) == Some(p)
    requires Find(response, "\"", p + 15) == Some(dateEnd)
    requires p + 15 <= dateEnd && response[p + 15..dateEnd] == date
    ensures FollowedAt(response) == if date == "" then None else Some(date)
  {
  }

  /** The converse of `FollowedAt`'s contract: an answer that does not say
      the user does not follow, whose first `"followed_at":"` stands at `p`
      and is followed by a non-empty date without quotes and a closing quote,
      gives back exactly that date. */
  lemma FollowedAtExtracts(response: string, p: nat, date: string)
    requires DateAt(response, p, date) && date != "" && '"' !in date
    requires !Contains(response[..p + 14], FollowedAtMarker)
    requires !NotFollowingResponse(response)
    ensures FollowedAt(response) == Some(date)
  {
    FirstOccurrence(response, FollowedAtMarker, p);
    FindCharAfter(response, '"', p + 15, |date|);
    FollowedAtFound(response, p, p + 15 + |date|, date);
  }

  /** `"followed_at":""`, an empty date, is not a follow date. */
  lemma EmptyDateRejected(response: string, p: nat)
    requires DateAt(response, p, "")
    requires !Contains(response[..p + 14], FollowedAtMarker)
    ensures FollowedAt(response).None?
  {
    if !NotFollowingResponse(response) {
      FirstOccurrence(response, FollowedAtMarker, p);
      assert response[p + 15..p + 16] == "\"";
      FollowedAtFound(response, p, p + 15, "");
    }
  }

  /** A pattern that occurs at `p` and nowhere in the text before its last
      character there is first found at `p`. */
  lemma FirstOccurrence(s: string, pat: string, p: nat)
    requires |pat| > 0 && OccursAt(s, pat, p)
    requires !Contains(s[..p + |pat| - 1], pat)
    ensures Find(s, pat, 0) == Some(p)
  {
    var head := s[..p + |pat| - 1];
    forall i | 0 <= i < p
      ensures !OccursAt(s, pat, i)
    {
      if OccursAt(s, pat, i) {
        assert head[i..i + |pat|] == s[i..i + |pat|];
        assert OccursAt(head, pat, i);
        ContainsIff(head, pat);
      }
    }
    FindFirst(s, pat, 0, p);
  }

  /** Searching from `start` for a character absent from the next `len`
      characters finds the one right after them. */
  lemma FindCharAfter(s: string, c: char, start: nat, len: nat)
    requires start + len < |s| && c !in s[start..start + len] && s[start + len] == c
    ensures Find(s, [c], start) == Some(start + len)
  {
    forall i | start <= i < start + len ensures !OccursAt(s, [c], i) {
      assert s[i] == s[start..start + len][i - start];
      assert s[i..i + 1] == [s[i]];
    }
    assert s[start + len..start + len + 1] == [c];
    FindFirst(s, [c], start, start + len);
  }

  /** `GetFollowDate` on the text of the follower answer (None for a failed
      request): no credentials means no date. */
  function GetFollowDate(accessToken: string, clientId: string, response: Option<string>): (date: Option<string>)
    ensures accessToken == "" || clientId == "" || response.None? ==> date.None?
    ensures accessToken != "" && clientId != "" && response.Some? ==> date == FollowedAt(response.value)
  {
    if accessToken == "" || clientId == "" then None
    else match response
      case None => None
      case Some(text) => FollowedAt(text)
  }

  // ---------------------------------------------------------------------
  // Duration text
  // ---------------------------------------------------------------------

  /** The `(int)` casts of `TotalDays / 365`, `(TotalDays % 365) / 30` and
      `(TotalDays % 365) % 30`. */
  datatype Breakdown = Breakdown(years: int, months: int, days: int)

  /** `%` of C#: the remainder of truncating division, with the sign of `a`. */
  function TruncMod(a: int, b: int): (r: int)
    requires b > 0
    ensures a >= 0 ==> 0 <= r < b
    ensures a < 0 ==> -b < r <= 0
    ensures a == b * TruncDiv(a, b) + r
  {
    a - b * TruncDiv(a, b)
  }

  /** The breakdown of the whole days elapsed, `totalDays` being the
      truncated `TimeSpan.Days`; the fraction of a day never changes any of
      the three truncated quotients. */
  function BreakdownOf(totalDays: int): (b: Breakdown)
    ensures totalDays >= 0 ==>
      b.years >= 0 && 0 <= b.months <= 12 && 0 <= b.days <= 29
      && 365 * b.years + 30 * b.months + b.days == totalDays
    ensures totalDays >= 0 && b.months == 12 ==> b.days <= 4
    ensures totalDays < 0 ==> b.years <= 0 && b.months <= 0 && b.days <= 0
  {
    var inYear := TruncMod(totalDays, 365);
    Breakdown(TruncDiv(totalDays, 365), TruncDiv(inYear, 30), TruncMod(inYear, 30))
  }

  /** The breakdown is the unique split into years, months of 30 days and
      days that fills the year before the months. */
  lemma BreakdownUnique(totalDays: int, years: int, months: int, days: int)
    requires years >= 0 && 0 <= months && 0 <= days < 30 && 30 * months + days < 365
    requires 365 * years + 30 * months + days == totalDays
    ensures BreakdownOf(totalDays) == Breakdown(years, months, days)
  {
    var b := BreakdownOf(totalDays);
    QuotientUnique(365, b.years, 30 * b.months + b.days, years, 30 * months + days);
    QuotientUnique(30, b.months, b.days, months, days);
  }

  /** Division with a remainder in `[0, d)` has one quotient. */
  lemma QuotientUnique(d: int, q1: int, r1: int, q2: int, r2: int)
    requires d > 0 && 0 <= r1 < d && 0 <= r2 < d
    requires d * q1 + r1 == d * q2 + r2
    ensures q1 == q2
  {
    var k := q1 - q2;
    assert d * k == r2 - r1;
  }

  /** A worded unit: a count, which starts with a digit, and a unit name,
      which does not end in white space. */
  predicate WordShape(w: string)
  {
    |w| > 0 && IsDigit(w[0]) && !IsWhiteSpace(w[|w| - 1])
  }

  /** `$"{count} {unit}{(count != 1 ? "s" : "")}"`. */
  function UnitText(count: nat, unit: string): (text: string)
    requires count > 0
    ensures unit != [] && !IsWhiteSpace(unit[|unit| - 1]) ==> WordShape(text)
  {
    var digits := NatToString(count);
    var text := digits + " " + unit + (if count != 1 then "s" else "");
    assert text[0] == digits[0];
    text
  }

  /** A unit name not ending in `s` is pluralised exactly when the count is
      not 1, and a count of 1 reads `1 <unit>`. */
  lemma UnitPlural(count: nat, unit: string)
    requires count > 0 && unit != [] && unit[|unit| - 1] != 's'
    ensures var t := UnitText(count, unit); t[|t| - 1] == 's' <==> count != 1
    ensures count == 1 ==> UnitText(count, unit) == "1 " + unit
  {
    assert NatToString(1) == "1";
  }

  /** The words of the text, in order: a unit only when its count is
      positive, and hours only when there are neither years nor months. */
  function ShownUnits(b: Breakdown, hours: int): (words: seq<string>)
    ensures forall i :: 0 <= i < |words| ==> WordShape(words[i])
    ensures words == [] <==> b.years <= 0 && b.months <= 0 && b.days <= 0 && (b.years != 0 || b.months != 0 || hours <= 0)
  {
    (if b.years > 0 then [UnitText(b.years, "year")] else [])
    + (if b.months > 0 then [UnitText(b.months, "month")] else [])
    + (if b.days > 0 then [UnitText(b.days, "day")] else [])
    + (if b.years == 0 && b.months == 0 && hours > 0 then [UnitText(hours, "hour")] else [])
  }

  const LessThanAnHour: string := "less than an hour"

  /** The followage text: the shown units separated by single spaces, or
      "less than an hour" when none is shown. */
  function Describe(totalDays: int, hours: int): (text: string)
    ensures text == LessThanAnHour || WordShape(text)
    ensures text == LessThanAnHour <==> ShownUnits(BreakdownOf(totalDays), hours) == []
  {
    var words := ShownUnits(BreakdownOf(totalDays), hours);
    if words == [] then LessThanAnHour
    else
      JoinEnds(words);
      JoinedIsNotFallback(words);
      Join(words, ' ')
  }

  /** The text after each shown unit has been appended with a trailing space. */
  function Spaced(words: seq<string>): (text: string)
  {
    if words == [] then "" else words[0] + " " + Spaced(words[1..])
  }

  lemma {:induction false} SpacedJoin(words: seq<string>)
    requires words != []
    ensures Spaced(words) == Join(words, ' ') + " "
    decreases |words|
  {
    if |words| > 1 {
      SpacedJoin(words[1..]);
    } else {
      assert words[1..] == [];
    }
  }

  lemma {:induction false} SpacedAppend(words: seq<string>, w: string)
    ensures Spaced(words + [w]) == Spaced(words) + w + " "
    decreases |words|
  {
    if words == [] {
      assert [] + [w] == [w];
      assert [w][1..] == [];
    } else {
      assert (words + [w])[0] == words[0];
      assert (words + [w])[1..] == words[1..] + [w];
      SpacedAppend(words[1..], w);
    }
  }

  /** Words joined by spaces start with the first word's first character and
      end with the last word's last character. */
  lemma {:induction false} JoinEnds(words: seq<string>)
    requires words != []
    requires forall i :: 0 <= i < |words| ==> WordShape(words[i])
    ensures WordShape(Join(words, ' '))
    decreases |words|
  {
    if |words| > 1 {
      JoinEnds(words[1..]);
      var j, rest := Join(words, ' '), Join(words[1..], ' ');
      assert j == words[0] + [' '] + rest;
      assert j[0] == words[0][0];
      assert j[|j| - 1] == rest[|rest| - 1];
    }
  }

  /** Trimming the text built with trailing spaces gives the joined words. */
  lemma TrimSpaced(words: seq<string>)
    requires words != []
    requires forall i :: 0 <= i < |words| ==> WordShape(words[i])
    ensures Trim(Spaced(words)) == Join(words, ' ')
  {
    var joined := Join(words, ' ');
    SpacedJoin(words);
    JoinEnds(words);
    assert !IsWhiteSpace(joined[0]) && !IsWhiteSpace(joined[|joined| - 1]);
    assert IsWhiteSpace(" "[0]);
    TrimPadded(joined, " ");
  }

  /** The `durationText +=` steps of `Execute`, then `Trim()`, then the
      fallback text. */
  method DurationText(totalDays: int, hours: int) returns (durationText: string)
    ensures durationText == Describe(totalDays, hours)
  {
    var b := BreakdownOf(totalDays);
    var years, months, days := b.years, b.months, b.days;
    ghost var shown: seq<string> := [];
    durationText := "";
    durationText, shown := AppendUnitIf(durationText, shown, years > 0, years, "year");
    durationText, shown := AppendUnitIf(durationText, shown, months > 0, months, "month");
    durationText, shown := AppendUnitIf(durationText, shown, days > 0, days, "day");
    durationText, shown := AppendUnitIf(durationText, shown, years == 0 && months == 0 && hours > 0, hours, "hour");
    assert shown == ShownUnits(b, hours);
    TrimmedDescribes(totalDays, hours, shown);
    durationText := Trim(durationText);
    if durationText == "" {
      durationText := LessThanAnHour;
    }
  }

  /** The trimmed spaced words, or the fallback when nothing is left, are
      the followage text. */
  lemma TrimmedDescribes(totalDays: int, hours: int, shown: seq<string>)
    requires shown == ShownUnits(BreakdownOf(totalDays), hours)
    ensures Describe(totalDays, hours)
         == if Trim(Spaced(shown)) == "" then LessThanAnHour else Trim(Spaced(shown))
  {
    if shown != [] {
      TrimSpaced(shown);
      JoinEnds(shown);
    }
  }

  /** One `if (count > 0) durationText += $"{count} {unit}... "` step. */
  method AppendUnitIf(text: string, ghost shown: seq<string>, show: bool, count: int, unit: string)
    returns (longer: string, ghost shownAfter: seq<string>)
    requires show ==> count > 0
    requires text == Spaced(shown)
    ensures longer == Spaced(shown + (if show then [UnitText(count, unit)] else []))
    ensures shownAfter == shown + (if show then [UnitText(count, unit)] else [])
  {
    if show {
      SpacedAppend(shown, UnitText(count, unit));
      longer := text + UnitText(count, unit) + " ";
      shownAfter := shown + [UnitText(count, unit)];
    } else {
      assert shown + [] == shown;
      longer, shownAfter := text, shown;
    }
  }

  /** With a follow date in the past, the text is "less than an hour"
      exactly when less than an hour has passed, and so is every follow
      date in the future. */
  lemma LessThanAnHourIff(totalDays: int, hours: int)
    requires (totalDays >= 0 && 0 <= hours) || (totalDays <= 0 && hours <= 0)
    ensures Describe(totalDays, hours) == LessThanAnHour <==> totalDays <= 0 && hours <= 0
  {
    var words := ShownUnits(BreakdownOf(totalDays), hours);
    NoUnitsIff(totalDays, hours);
    if words != [] {
      JoinedIsNotFallback(words);
    }
  }

  /** No unit is shown exactly when neither a day nor an hour has passed. */
  lemma NoUnitsIff(totalDays: int, hours: int)
    requires (totalDays >= 0 && 0 <= hours) || (totalDays <= 0 && hours <= 0)
    ensures ShownUnits(BreakdownOf(totalDays), hours) == [] <==> totalDays <= 0 && hours <= 0
  {
  }

  lemma JoinedIsNotFallback(words: seq<string>)
    requires words != []
    requires forall i :: 0 <= i < |words| ==> WordShape(words[i])
    ensures Join(words, ' ') != LessThanAnHour
  {
    JoinEnds(words);
    assert Join(words, ' ')[0] != LessThanAnHour[0];
  }

  /** Hours are worded only within the first month: from then on no shown
      unit is an hour count. */
  lemma HoursOnlyInFirstMonth(totalDays: int, hours: int, h: nat)
    requires totalDays >= 30 && h > 0
    ensures UnitText(h, "hour") !in ShownUnits(BreakdownOf(totalDays), hours)
  {
    var b := BreakdownOf(totalDays);
    if b.years > 0 { UnitNamesDiffer(b.years, "year", h, "hour"); }
    if b.months > 0 { UnitNamesDiffer(b.months, "month", h, "hour"); }
    if b.days > 0 { UnitNamesDiffer(b.days, "day", h, "hour"); }
  }

  /** Two unit texts with different unit names differ: the count is all
      digits and the unit name starts after the first space. */
  lemma UnitNamesDiffer(n: nat, unit: string, m: nat, other: string)
    requires n > 0 && m > 0 && unit != [] && other != [] && unit[0] != other[0]
    ensures UnitText(n, unit) != UnitText(m, other)
  {
    var a, c := NatToString(n), NatToString(m);
    var s, t := UnitText(n, unit), UnitText(m, other);
    assert s[|a|] == ' ' && s[|a| + 1] == unit[0];
    assert t[|c|] == ' ' && t[|c| + 1] == other[0];
    assert |a| < |c| ==> t[|a|] == c[|a|];
    assert |c| < |a| ==> s[|c|] == a[|c|];
  }

  /** A few worded followages. */
  lemma DescribeYearsExample()
    ensures Describe(730, 0) == "2 years"
  {
    BreakdownUnique(730, 2, 0, 0);
    assert NatToString(2) == "2";
    assert UnitText(2, "year") == "2 years";
    assert ShownUnits(Breakdown(2, 0, 0), 0) == ["2 years"];
  }

  lemma DescribeAllUnitsExample()
    ensures Describe(396, 7) == "1 year 1 month 1 day"
  {
    BreakdownUnique(396, 1, 1, 1);
    OneOfEachUnit();
    var words := ["1 year", "1 month", "1 day"];
    assert Join(words[2..], ' ') == "1 day";
    assert Join(words[1..], ' ') == "1 month 1 day";
  }

  lemma OneOfEachUnit()
    ensures ShownUnits(Breakdown(1, 1, 1), 7) == ["1 year", "1 month", "1 day"]
  {
    assert NatToString(1) == "1";
    assert UnitText(1, "year") == "1 year";
    assert UnitText(1, "month") == "1 month";
    assert UnitText(1, "day") == "1 day";
  }

  // ---------------------------------------------------------------------
  // The command
  // ---------------------------------------------------------------------

  /** The elapsed time since the follow date: `TimeSpan.Days` and
      `TimeSpan.Hours`, which share the sign of the span. */
  datatype Elapsed = Elapsed(days: int, hours: int)

  datatype Outcome =
    | MissingUserId
    | MissingBroadcasterId
    | UserNotFound(login: string)
    | IsBroadcaster(name: string)
    | NotConfigured
    | NotFollowing(name: string, asCaller: bool)
    | Following(name: string, asCaller: bool, text: string)

  /** Whether the command succeeds (`return true`) with this outcome. */
  predicate Succeeds(o: Outcome)
  {
    o.IsBroadcaster? || o.NotFollowing? || o.Following?
  }

  /** `Execute`. `lookup` is the user id `TwitchGetExtendedUserInfoByLogin`
      answers for the target login (None for `null`), `response` the text of
      the follower request (None when it fails), and `followed` the time since
      the date `GetFollowDate` then answers: None when it answers `null`,
      which it does whenever it finds no date text, and also when
      `DateTime.Parse` rejects the text it found. */
  method Execute(user: Option<string>, userId: Option<string>, broadcasterId: Option<string>,
                 rawInput: Option<string>, input0: Option<string>,
                 lookup: Option<string>, accessToken: string, clientId: string,
                 response: Option<string>, followed: Option<Elapsed>)
    returns (o: Outcome)
    requires GetFollowDate(accessToken, clientId, response).None? ==> followed.None?
    ensures o.Following? ==>
      accessToken != "" && clientId != "" && response.Some? && FollowedAt(response.value).Some?
    ensures o == NotConfigured ==> accessToken == ""
    ensures userId.None? || userId.value == "" ==> o == MissingUserId
    ensures userId.Some? && userId.value != "" && (broadcasterId.None? || broadcasterId.value == "") ==>
      o == MissingBroadcasterId
    ensures userId.Some? && userId.value != "" && broadcasterId.Some? && broadcasterId.value != "" ==>
      var caller := if user.None? || user.value == "" then "Unknown" else user.value;
      var target := ParseTarget(caller, if rawInput.None? then "" else rawInput.value,
                                        if input0.None? then "" else input0.value);
      var name := if target.Other? then target.login else caller;
      var targetId := if target.Other? then lookup else userId;
      if targetId.None? then o == UserNotFound(name)
      else if targetId.value == broadcasterId.value then o == IsBroadcaster(name)
      else if followed.None? then
        o == if accessToken == "" then NotConfigured else NotFollowing(name, target.Caller?)
      else o == Following(name, target.Caller?, Describe(followed.value.days, followed.value.hours))
  {
    var caller := if user.None? || user.value == "" then "Unknown" else user.value;
    if userId.None? || userId.value == "" {
      return MissingUserId;
    }
    if broadcasterId.None? || broadcasterId.value == "" {
      return MissingBroadcasterId;
    }
    var raw := if rawInput.None? then "" else rawInput.value;
    var in0 := if input0.None? then "" else input0.value;
    var targetUser := caller;
    var targetUserId := userId.value;
    var target := ParseTarget(caller, raw, in0);
    if target.Other? {
      targetUser := target.login;
      if lookup.None? {
        return UserNotFound(targetUser);
      }
      targetUserId := lookup.value;
    }
    if targetUserId == broadcasterId.value {
      return IsBroadcaster(targetUser);
    }
    var asCaller := ToLower(targetUser) == ToLower(caller);
    assert asCaller <==> target.Caller?;
    var date := GetFollowDate(accessToken, clientId, response);
    if date.None? || followed.None? {
      if accessToken == "" {
        return NotConfigured;
      }
      return NotFollowing(targetUser, asCaller);
    }
    var text := DurationText(followed.value.days, followed.value.hours);
    o := Following(targetUser, asCaller, text);
  }
}
