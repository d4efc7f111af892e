/** The pure helpers of the YouTube redemption: the ISO 8601 duration parser,
    the video-id extractor, the rule that decides how long a video may play,
    and the split of a video title into artist and song for a lyric lookup. */
module YouTube {
  import opened Strings
  import opened Numbers

  // ---------------------------------------------------------------------
  // Durations: `PT#H#M#S` as in section 4.4.3.2 of ISO 8601:2004
  // ---------------------------------------------------------------------

  /** Where the parser stands between two blocks: the running total and the
      text not yet read, or the exception `int.Parse` threw. */
  datatype Scan = Scanning(total: int, rest: string) | Failed

  /** One `if (duration.Contains("H")) { ... }` block: when `unit` occurs, the
      text before it must parse as an Int32, which is multiplied by `weight`
      and added with unchecked Int32 arithmetic, and the text after it is kept. */
  function Designator(st: Scan, unit: char, weight: int): (r: Scan)
    ensures st.Scanning? && InInt32(st.total) && r.Scanning? ==> InInt32(r.total)
  {
    match st
    case Failed => Failed
    case Scanning(total, rest) =>
      match IndexOfChar(rest, unit)
      case None => st
      case Some(i) =>
        match ParseInt32(rest[..i])
        case None => Failed
        case Some(v) => Scanning(Wrap32(total + Wrap32(v * weight)), rest[i + 1..])
  }

  /** The text after a leading "PT", if there is one. */
  function StripPeriod(d: string): (r: string)
    ensures |d| >= 2 && d[..2] == "PT" ==> r == d[2..]
    ensures !(|d| >= 2 && d[..2] == "PT") ==> r == d
  {
    if |d| >= 2 && d[..2] == "PT" then d[2..] else d
  }

  /** The number of seconds `ParseISO8601Duration` returns for `d`: hours,
      then minutes, then seconds, and 0 when any component fails to parse. */
  function DurationSeconds(d: string): (secs: int)
    ensures InInt32(secs)
  {
    Components(StripPeriod(d))
  }

  /** The H, M and S blocks applied to the text after "PT". */
  function Components(t: string): (secs: int)
    ensures InInt32(secs)
  {
    Seconds(Designator(Designator(Designator(Scanning(0, t), 'H', 3600), 'M', 60), 'S', 1))
  }

  /** The answer once the blocks are read: the total, or 0 after a failure. */
  function Seconds(st: Scan): (secs: int)
    ensures st.Scanning? ==> secs == st.total
    ensures st.Failed? ==> secs == 0
  {
    match st
    case Failed => 0
    case Scanning(total, _) => total
  }

  /** `ParseISO8601Duration`: strips "PT", then consumes the H, M and S
      components in turn, reassigning the remaining text and accumulating the
      total; an `int.Parse` failure answers 0. */
  method ParseIso8601Duration(duration: string) returns (totalSeconds: int)
    ensures totalSeconds == DurationSeconds(duration)
  {
    totalSeconds := 0;
    var d := duration;
    if |d| >= 2 && d[..2] == "PT" {
      d := d[2..];
    }
    var failed;
    failed, totalSeconds, d := ConsumeDesignator(totalSeconds, d, 'H', 3600);
    if failed {
      return 0;
    }
    failed, totalSeconds, d := ConsumeDesignator(totalSeconds, d, 'M', 60);
    if failed {
      return 0;
    }
    failed, totalSeconds, d := ConsumeDesignator(totalSeconds, d, 'S', 1);
    if failed {
      return 0;
    }
  }

  /** The shape the three blocks of the parser share: when `unit` occurs, the
      text before its first occurrence goes through `int.Parse` (`failed`
      stands for the exception), is scaled by `weight` and added, and the text
      after it remains. */
  method ConsumeDesignator(total: int, d: string, unit: char, weight: int)
    returns (failed: bool, newTotal: int, rest: string)
    ensures failed <==> Designator(Scanning(total, d), unit, weight).Failed?
    ensures !failed ==> Designator(Scanning(total, d), unit, weight) == Scanning(newTotal, rest)
  {
    newTotal, rest := total, d;
    failed := false;
    FindChar(d, unit);
    if Contains(d, [unit]) {
      var index := Find(d, [unit], 0).value;
      var value := ParseInt32(d[..index]);
      if value.None? {
        return true, total, d;
      }
      newTotal := Wrap32(total + Wrap32(value.value * weight));
      rest := d[index + 1..];
    }
  }

  /** A component as the standard writes it: a numeral followed by its
      designator, or nothing at all when the component is absent. */
  predicate Numeral(digits: Option<string>)
  {
    digits.Some? ==> digits.value != [] && AllDigits(digits.value)
  }

  function Component(digits: Option<string>, unit: char): string
  {
    match digits
    case None => ""
    case Some(ds) => ds + [unit]
  }

  /** The value of a component; an absent one counts 0. */
  function Amount(digits: Option<string>): nat
    requires Numeral(digits)
  {
    match digits
    case None => 0
    case Some(ds) => DigitsValue(ds)
  }

  lemma NoUnitInComponent(digits: Option<string>, unit: char, c: char)
    requires Numeral(digits) && !IsDigit(c) && c != unit
    ensures c !in Component(digits, unit)
  {
    if digits.Some? {
      assert forall i :: 0 <= i < |digits.value| ==> IsDigit(digits.value[i]);
    }
  }

  lemma AddScaled(total: int, v: nat, weight: nat)
    requires weight > 0 && 0 <= total && total + weight * v <= Int32Max
    ensures v <= Int32Max
    ensures Wrap32(total + Wrap32(v * weight)) == total + weight * v
  {
    assert v <= weight * v;
  }

  /** One well-formed component is consumed exactly. */
  lemma TakeComponent(total: int, digits: Option<string>, unit: char, weight: nat, rest: string)
    requires Numeral(digits) && !IsDigit(unit) && unit !in rest && weight > 0
    requires 0 <= total && total + weight * Amount(digits) <= Int32Max
    ensures Designator(Scanning(total, Component(digits, unit) + rest), unit, weight)
         == Scanning(total + weight * Amount(digits), rest)
  {
    if digits.Some? {
      TakeNumeral(total, digits.value, unit, weight, rest);
    }
  }

  lemma TakeNumeral(total: int, ds: string, unit: char, weight: nat, rest: string)
    requires Numeral(Some(ds)) && !IsDigit(unit) && unit !in rest && weight > 0
    requires 0 <= total && total + weight * DigitsValue(ds) <= Int32Max
    ensures Designator(Scanning(total, ds + [unit] + rest), unit, weight)
         == Scanning(total + weight * DigitsValue(ds), rest)
  {
    var t := ds + [unit] + rest;
    var v := DigitsValue(ds);
    assert unit !in ds by {
      assert forall i :: 0 <= i < |ds| ==> IsDigit(ds[i]);
    }
    IndexAfterPrefix(ds, unit, rest);
    AddScaled(total, v, weight);
    ParseDigits(ds);
    assert t[..|ds|] == ds && t[|ds| + 1..] == rest;
    DesignatorTaken(Scanning(total, t), unit, weight, |ds|, v);
  }

  /** The step of `Designator` that finds `unit` at `i` and parses `v`. */
  lemma DesignatorTaken(st: Scan, unit: char, weight: int, i: nat, v: int)
    requires st.Scanning? && IndexOfChar(st.rest, unit) == Some(i)
    requires ParseInt32(st.rest[..i]) == Some(v)
    ensures Designator(st, unit, weight) == Scanning(Wrap32(st.total + Wrap32(v * weight)), st.rest[i + 1..])
  {
  }

  /** `Components` read off the three intermediate states. */
  lemma ComponentsSteps(t: string, a: Scan, b: Scan, c: Scan)
    requires Designator(Scanning(0, t), 'H', 3600) == a
    requires Designator(a, 'M', 60) == b
    requires Designator(b, 'S', 1) == c
    ensures Components(t) == if c.Failed? then 0 else c.total
  {
  }

  /** A well-formed `PT#H#M#S` duration, any component possibly absent, parses
      to `3600 h + 60 m + s` while that sum fits in an Int32. */
  lemma WellFormedDuration(h: Option<string>, m: Option<string>, s: Option<string>)
    requires Numeral(h) && Numeral(m) && Numeral(s)
    requires 3600 * Amount(h) + 60 * Amount(m) + Amount(s) <= Int32Max
    ensures DurationSeconds("PT" + Component(h, 'H') + Component(m, 'M') + Component(s, 'S'))
         == 3600 * Amount(h) + 60 * Amount(m) + Amount(s)
  {
    var t := Component(h, 'H') + (Component(m, 'M') + Component(s, 'S'));
    assert "PT" + Component(h, 'H') + Component(m, 'M') + Component(s, 'S') == "PT" + t;
    AfterPeriod(t);
    WellFormedComponents(h, m, s);
  }

  /** Text that does not start with "PT" is read as it stands. */
  lemma NoPeriodPrefix(d: string)
    requires !(|d| >= 2 && d[..2] == "PT")
    ensures DurationSeconds(d) == Components(d)
  {
  }

  /** Behind "PT" the components are read from the rest of the text. */
  lemma AfterPeriod(t: string)
    ensures DurationSeconds("PT" + t) == Components(t)
  {
    assert ("PT" + t)[..2] == "PT" && ("PT" + t)[2..] == t;
  }

  lemma WellFormedComponents(h: Option<string>, m: Option<string>, s: Option<string>)
    requires Numeral(h) && Numeral(m) && Numeral(s)
    requires 3600 * Amount(h) + 60 * Amount(m) + Amount(s) <= Int32Max
    ensures Components(Component(h, 'H') + (Component(m, 'M') + Component(s, 'S')))
         == 3600 * Amount(h) + 60 * Amount(m) + Amount(s)
  {
    HoursTaken(h, m, s);
    MinutesAndSeconds(3600 * Amount(h), m, s);
  }

  /** The minutes and seconds blocks, from any running total. */
  lemma MinutesAndSeconds(total: int, m: Option<string>, s: Option<string>)
    requires Numeral(m) && Numeral(s)
    requires 0 <= total && total + 60 * Amount(m) + Amount(s) <= Int32Max
    ensures Seconds(Designator(Designator(Scanning(total, Component(m, 'M') + Component(s, 'S')), 'M', 60), 'S', 1))
         == total + 60 * Amount(m) + Amount(s)
  {
    MinutesTaken(total, m, s);
    LastComponent(total + 60 * Amount(m), s, 'S', 1);
  }

  /** The hours block of a well-formed duration. */
  lemma HoursTaken(h: Option<string>, m: Option<string>, s: Option<string>)
    requires Numeral(h) && Numeral(m) && Numeral(s)
    requires 3600 * Amount(h) + 60 * Amount(m) + Amount(s) <= Int32Max
    ensures Designator(Scanning(0, Component(h, 'H') + (Component(m, 'M') + Component(s, 'S'))), 'H', 3600)
         == Scanning(3600 * Amount(h), Component(m, 'M') + Component(s, 'S'))
  {
    NoUnitInComponent(m, 'M', 'H');
    NoUnitInComponent(s, 'S', 'H');
    TakeComponent(0, h, 'H', 3600, Component(m, 'M') + Component(s, 'S'));
  }

  /** The minutes block of a well-formed duration. */
  lemma MinutesTaken(total: int, m: Option<string>, s: Option<string>)
    requires Numeral(m) && Numeral(s)
    requires 0 <= total && total + 60 * Amount(m) + Amount(s) <= Int32Max
    ensures Designator(Scanning(total, Component(m, 'M') + Component(s, 'S')), 'M', 60)
         == Scanning(total + 60 * Amount(m), Component(s, 'S'))
  {
    NoUnitInComponent(s, 'S', 'M');
    TakeComponent(total, m, 'M', 60, Component(s, 'S'));
  }

  /** The last component read, with nothing after its designator. */
  lemma LastComponent(total: int, digits: Option<string>, unit: char, weight: nat)
    requires Numeral(digits) && !IsDigit(unit) && weight > 0
    requires 0 <= total && total + weight * Amount(digits) <= Int32Max
    ensures Designator(Scanning(total, Component(digits, unit)), unit, weight)
         == Scanning(total + weight * Amount(digits), "")
  {
    assert Component(digits, unit) == Component(digits, unit) + "";
    TakeComponent(total, digits, unit, weight, "");
  }

  /** A component whose text does not parse (empty, signless junk, too large)
      makes the whole duration 0, whatever follows it. */
  lemma BadComponent(x: string, unit: char, rest: string)
    requires unit == 'H' || unit == 'M' || unit == 'S'
    requires 'H' !in x && 'M' !in x && 'S' !in x
    requires ParseInt32(x).None?
    requires unit != 'H' ==> 'H' !in rest
    requires unit == 'S' ==> 'M' !in rest
    ensures DurationSeconds("PT" + (x + [unit] + rest)) == 0
  {
    AfterPeriod(x + [unit] + rest);
    BadComponentScan(x, unit, rest);
  }

  /** A minutes component that does not parse, after a well-formed hours
      component or none ("PT1HxM..."), makes the whole duration 0. */
  lemma BadMinutes(h: Option<string>, x: string, rest: string)
    requires Numeral(h) && 3600 * Amount(h) <= Int32Max
    requires 'H' !in x && 'M' !in x && 'H' !in rest
    requires ParseInt32(x).None?
    ensures DurationSeconds("PT" + (Component(h, 'H') + (x + "M" + rest))) == 0
  {
    var after := x + "M" + rest;
    var t := Component(h, 'H') + after;
    AfterPeriod(t);
    assert 'H' !in after;
    TakeComponent(0, h, 'H', 3600, after);
    DesignatorFails(3600 * Amount(h), x, 'M', 60, rest);
    ComponentsSteps(t, Scanning(3600 * Amount(h), after), Failed, Failed);
  }

  /** A seconds component that does not parse, after well-formed (or absent)
      hours and minutes ("PT1H2MxS..."), makes the whole duration 0. */
  lemma BadSeconds(h: Option<string>, m: Option<string>, x: string, rest: string)
    requires Numeral(h) && Numeral(m) && 3600 * Amount(h) + 60 * Amount(m) <= Int32Max
    requires 'H' !in x && 'M' !in x && 'S' !in x && 'H' !in rest && 'M' !in rest
    requires ParseInt32(x).None?
    ensures DurationSeconds("PT" + (Component(h, 'H') + (Component(m, 'M') + (x + "S" + rest)))) == 0
  {
    var mid := Component(m, 'M') + (x + "S" + rest);
    AfterPeriod(Component(h, 'H') + mid);
    BadSecondsScan(h, m, x, rest);
  }

  lemma BadSecondsScan(h: Option<string>, m: Option<string>, x: string, rest: string)
    requires Numeral(h) && Numeral(m) && 3600 * Amount(h) + 60 * Amount(m) <= Int32Max
    requires 'H' !in x && 'M' !in x && 'S' !in x && 'H' !in rest && 'M' !in rest
    requires ParseInt32(x).None?
    ensures Components(Component(h, 'H') + (Component(m, 'M') + (x + "S" + rest))) == 0
  {
    var after := x + "S" + rest;
    var mid := Component(m, 'M') + after;
    NoUnitInComponent(m, 'M', 'H');
    assert 'H' !in mid;
    TakeComponent(0, h, 'H', 3600, mid);
    MinutesThenBadSeconds(3600 * Amount(h), m, x, rest);
    ComponentsSteps(Component(h, 'H') + mid, Scanning(3600 * Amount(h), mid),
                    Scanning(3600 * Amount(h) + 60 * Amount(m), after), Failed);
  }

  /** The minutes block is read, and the seconds block then fails. */
  lemma MinutesThenBadSeconds(total: int, m: Option<string>, x: string, rest: string)
    requires Numeral(m) && 0 <= total && total + 60 * Amount(m) <= Int32Max
    requires 'M' !in x && 'S' !in x && 'M' !in rest
    requires ParseInt32(x).None?
    ensures Designator(Scanning(total, Component(m, 'M') + (x + "S" + rest)), 'M', 60)
         == Scanning(total + 60 * Amount(m), x + "S" + rest)
    ensures Designator(Scanning(total + 60 * Amount(m), x + "S" + rest), 'S', 1) == Failed
  {
    var after := x + "S" + rest;
    assert 'M' !in after;
    TakeComponent(total, m, 'M', 60, after);
    DesignatorFails(total + 60 * Amount(m), x, 'S', 1, rest);
  }

  lemma BadComponentScan(x: string, unit: char, rest: string)
    requires unit == 'H' || unit == 'M' || unit == 'S'
    requires 'H' !in x && 'M' !in x && 'S' !in x
    requires ParseInt32(x).None?
    requires unit != 'H' ==> 'H' !in rest
    requires unit == 'S' ==> 'M' !in rest
    ensures Components(x + [unit] + rest) == 0
  {
    var t := x + [unit] + rest;
    var s0 := Scanning(0, t);
    if unit == 'H' {
      DesignatorFails(0, x, 'H', 3600, rest);
      ComponentsSteps(t, Failed, Failed, Failed);
    } else if unit == 'M' {
      DesignatorAbsent(0, t, 'H', 3600);
      DesignatorFails(0, x, 'M', 60, rest);
      ComponentsSteps(t, s0, Failed, Failed);
    } else {
      DesignatorAbsent(0, t, 'H', 3600);
      DesignatorAbsent(0, t, 'M', 60);
      DesignatorFails(0, x, 'S', 1, rest);
      ComponentsSteps(t, s0, s0, Failed);
    }
  }

  /** A designator that does not occur leaves the scan as it is. */
  lemma DesignatorAbsent(total: int, rest: string, unit: char, weight: int)
    requires unit !in rest
    ensures Designator(Scanning(total, rest), unit, weight) == Scanning(total, rest)
  {
    assert IndexOfChar(rest, unit).None?;
  }

  /** A designator after text that does not parse fails the scan, whatever
      the running total. */
  lemma DesignatorFails(total: int, x: string, unit: char, weight: int, rest: string)
    requires unit !in x && ParseInt32(x).None?
    ensures Designator(Scanning(total, x + [unit] + rest), unit, weight) == Failed
  {
    IndexAfterPrefix(x, unit, rest);
    assert (x + [unit] + rest)[..|x|] == x;
  }

  // ---------------------------------------------------------------------
  // Video ids
  // ---------------------------------------------------------------------

  /** `[a-zA-Z0-9_-]`. */
  predicate IsIdChar(c: char)
  {
    ('a' <= c <= 'z') || ('A' <= c <= 'Z') || ('0' <= c <= '9') || c == '_' || c == '-'
  }

  predicate IsId(s: string)
  {
    |s| == 11 && forall i :: 0 <= i < 11 ==> IsIdChar(s[i])
  }

  /** Eleven id characters start at `k`. */
  predicate IdAt(s: string, k: int)
  {
    0 <= k && k + 11 <= |s| && IsId(s[k..k + 11])
  }

  /** The regex anchor `$` without the multiline option: the end of the
      input, or just before a final newline. */
  predicate EndAt(s: string, k: int)
  {
    k == |s| || (k == |s| - 1 && k >= 0 && s[k] == '\n')
  }

  /** `(?:&|$)` at `k`. */
  predicate AmpOrEnd(s: string, k: int)
  {
    EndAt(s, k) || (0 <= k < |s| && s[k] == '&')
  }

  /** `(?:\?|&|$)` at `k`. */
  predicate QueryOrEnd(s: string, k: int)
  {
    EndAt(s, k) || (0 <= k < |s| && (s[k] == '?' || s[k] == '&'))
  }

  const WatchPrefix: string := "youtube.com/watch?v="
  const ShortPrefix: string := "youtu.be/"
  const EmbedPrefix: string := "youtube.com/embed/"
  const LegacyPrefix: string := "youtube.com/v/"

  /** The three searching patterns, without their optional `music.` prefix
      (see `PrefixesApart` for why it never changes the group found). */
  datatype Pattern = Watch | Short | Legacy

  /** Where the 11-character group of `pat` starts when `pat` matches at `p`,
      trying the alternatives of the short form in their written order. */
  function GroupAt(s: string, pat: Pattern, p: int): (g: Option<nat>)
    ensures g.Some? ==> IdAt(s, g.value)
  {
    match pat
    case Watch =>
      if OccursAt(s, WatchPrefix, p) && IdAt(s, p + 20) && AmpOrEnd(s, p + 31) then Some(p + 20) else None
    case Short =>
      if OccursAt(s, ShortPrefix, p) && IdAt(s, p + 9) && QueryOrEnd(s, p + 20) then Some(p + 9)
      else if OccursAt(s, EmbedPrefix, p) && IdAt(s, p + 18) && QueryOrEnd(s, p + 29) then Some(p + 18)
      else None
    case Legacy =>
      if OccursAt(s, LegacyPrefix, p) && IdAt(s, p + 14) && QueryOrEnd(s, p + 25) then Some(p + 14) else None
  }

  /** `Regex.Match`: the group of the leftmost match at or after `k`. */
  function FirstGroup(s: string, pat: Pattern, k: nat): (g: Option<nat>)
    ensures g.Some? ==> IdAt(s, g.value)
    ensures g.Some? ==> exists p :: k <= p <= |s| && GroupAt(s, pat, p) == g
    decreases |s| + 1 - k
  {
    if k > |s| then None
    else match GroupAt(s, pat, k)
      case Some(g) => Some(g)
      case None => FirstGroup(s, pat, k + 1)
  }

  lemma {:induction false} FirstGroupAt(s: string, pat: Pattern, k: nat, p: nat)
    requires k <= p <= |s| && GroupAt(s, pat, p).Some?
    requires forall i :: k <= i < p ==> GroupAt(s, pat, i).None?
    ensures FirstGroup(s, pat, k) == GroupAt(s, pat, p)
    decreases p - k
  {
    if k < p {
      FirstGroupAt(s, pat, k + 1, p);
    }
  }

  lemma {:induction false} NoGroup(s: string, pat: Pattern, k: nat)
    requires forall i :: k <= i <= |s| ==> GroupAt(s, pat, i).None?
    ensures FirstGroup(s, pat, k).None?
    decreases |s| + 1 - k
  {
    if k <= |s| {
      NoGroup(s, pat, k + 1);
    }
  }

  /** `^[a-zA-Z0-9_-]{11}$`. */
  predicate BareId(url: string)
  {
    IdAt(url, 0) && EndAt(url, 11)
  }

  /** `ExtractVideoId`: the four patterns in turn; a bare id is answered with
      the whole input, anything else with `null` (None). */
  function ExtractVideoId(url: string): (id: Option<string>)
    ensures id.Some? ==> (|id.value| == 11 || (|id.value| == 12 && id.value[11] == '\n'))
    ensures id.Some? ==> IsId(id.value[..11])
  {
    match FirstGroup(url, Watch, 0)
    case Some(g) => Some(url[g..g + 11])
    case None =>
      match FirstGroup(url, Short, 0)
      case Some(g) => Some(url[g..g + 11])
      case None =>
        if BareId(url) then
          assert url[..11] == url[0..11];
          Some(url)
        else
          match FirstGroup(url, Legacy, 0)
          case Some(g) => Some(url[g..g + 11])
          case None => None
  }

  /** The redemption passes a trimmed URL, and then the answer is always
      exactly eleven id characters. */
  lemma TrimmedGivesId(url: string)
    requires url == [] || !IsWhiteSpace(url[|url| - 1])
    requires ExtractVideoId(url).Some?
    ensures IsId(ExtractVideoId(url).value)
  {
    var id := ExtractVideoId(url).value;
    assert id[..11] == id;
  }

  /** No searching pattern matches text shorter than its prefix and group. */
  lemma ShortTextHasNoGroup(s: string, pat: Pattern)
    requires |s| < 20
    ensures FirstGroup(s, pat, 0).None?
  {
    NoGroup(s, pat, 0);
  }

  /** A bare id is answered unchanged. */
  lemma BareIdUnchanged(id: string)
    requires IsId(id)
    ensures ExtractVideoId(id) == Some(id)
  {
    ShortTextHasNoGroup(id, Watch);
    ShortTextHasNoGroup(id, Short);
    assert id[0..11] == id;
  }

  /** A host part without a 'y' cannot hold the start of any prefix, since
      every prefix begins with 'y'. */
  lemma NoGroupInHost(s: string, host: string, pat: Pattern, p: nat)
    requires p < |host| <= |s| && s[..|host|] == host && 'y' !in host
    ensures GroupAt(s, pat, p).None?
  {
    assert s[p] == host[p];
    if OccursAt(s, WatchPrefix, p) || OccursAt(s, ShortPrefix, p)
       || OccursAt(s, EmbedPrefix, p) || OccursAt(s, LegacyPrefix, p) {
      assert false;
    }
  }

  /** A watch link, with or without `www.`, `m.` or `music.` and with any
      parameters after `&`, yields its id. */
  lemma WatchLink(host: string, id: string, tail: string)
    requires 'y' !in host && IsId(id)
    requires tail == [] || tail[0] == '&'
    ensures ExtractVideoId(host + WatchPrefix + id + tail) == Some(id)
  {
    var s := host + WatchPrefix + id + tail;
    var p := |host|;
    assert s[..p] == host;
    assert s[p..p + 20] == WatchPrefix;
    assert s[p + 20..p + 31] == id;
    assert GroupAt(s, Watch, p) == Some(p + 20);
    forall i | 0 <= i < p ensures GroupAt(s, Watch, i).None? {
      NoGroupInHost(s, host, Watch, i);
    }
    FirstGroupAt(s, Watch, 0, p);
  }

  /** A prefix starts with its only 'y', so two occurrences of the same prefix
      never overlap. This is why the optional `music.` before the watch and
      legacy prefixes never changes the group found: a match that starts at
      `music.` contains a match of the bare prefix six characters later, and
      no other occurrence of the bare prefix can fall in between. */
  lemma PrefixesApart(s: string, prefix: string, p: int, q: int)
    requires prefix == WatchPrefix || prefix == LegacyPrefix
    requires OccursAt(s, prefix, p) && OccursAt(s, prefix, q) && p < q
    ensures q - p >= |prefix|
  {
    assert forall i :: 0 < i < |prefix| ==> prefix[i] != 'y';
    assert s[q] == prefix[0];
    if q - p < |prefix| {
      assert false;
    }
  }

  /** The music flag: a YouTube Music link is one that names its host. */
  predicate IsMusicLink(url: string)
  {
    Contains(url, "music.youtube.com")
  }

  /** A link is flagged as music exactly when the host name occurs somewhere
      in it. */
  lemma MusicHost(url: string, pre: string, post: string)
    ensures IsMusicLink(url) <==> exists i :: OccursAt(url, "music.youtube.com", i)
    ensures IsMusicLink(pre + "music.youtube.com" + post)
  {
    ContainsIff(url, "music.youtube.com");
    ContainsInfix(pre, "music.youtube.com", post);
  }

  // ---------------------------------------------------------------------
  // How long a video may play
  // ---------------------------------------------------------------------

  const DefaultMaxDuration: int := 600

  /** `config_youtube_max_duration`, where 0 stands for ten minutes. */
  function MaxDuration(configured: int): (m: int)
    ensures configured == 0 ==> m == DefaultMaxDuration
    ensures configured != 0 ==> m == configured
  {
    if configured == 0 then DefaultMaxDuration else configured
  }

  /** Unconfigured, ten minutes is the limit: anything longer is refused and
      an unknown duration plays for exactly ten minutes. */
  lemma DefaultAllowance(apiDuration: int)
    ensures Admit(0, apiDuration).TooLong? <==> apiDuration > 600
    ensures Admit(0, 0) == PlayFor(600)
    ensures 0 < apiDuration <= 600 ==> Admit(0, apiDuration) == PlayFor(apiDuration)
  {
  }

  datatype Admission = PlayFor(seconds: int) | TooLong(duration: int, max: int)

  /** The gate a redeemed video passes once its duration has been fetched; an
      API duration of 0 means the fetch failed. */
  function Admit(configured: int, apiDuration: int): (a: Admission)
    ensures a.TooLong? <==> apiDuration != 0 && apiDuration > MaxDuration(configured)
    ensures a.TooLong? ==> a == TooLong(apiDuration, MaxDuration(configured))
    ensures a.PlayFor? ==> a.seconds <= MaxDuration(configured)
    ensures a.PlayFor? && apiDuration == 0 ==> a.seconds == MaxDuration(configured)
    ensures a.PlayFor? && apiDuration != 0 ==> a.seconds == apiDuration
  {
    var max := MaxDuration(configured);
    if apiDuration == 0 then PlayFor(max)
    else if apiDuration > max then TooLong(apiDuration, max)
    else PlayFor(apiDuration)
  }

  /** Once its duration is known, a short enough video plays for exactly its
      own length, and the unknown duration plays for the whole allowance. */
  lemma AdmitMonotone(configured: int, shorter: int, longer: int)
    requires 0 < shorter <= longer
    requires Admit(configured, longer).PlayFor?
    ensures Admit(configured, shorter) == PlayFor(shorter)
  {
  }

  // ---------------------------------------------------------------------
  // Artist and song from a video title
  // ---------------------------------------------------------------------

  datatype LyricQuery = LyricQuery(artist: string, song: string)

  const Dash: string := " - "
  const By: string := " by "
  const ParenOfficial: string := "(Official"
  const BracketOfficial: string := "[Official"

  /** `if (s.Contains(m)) s = s.Substring(0, s.IndexOf(m)).Trim();` */
  function CutAt(s: string, marker: string): (r: string)
    requires |marker| > 0
    ensures !Contains(r, marker)
    ensures !Contains(s, marker) ==> r == s
  {
    match Find(s, marker, 0)
    case None => s
    case Some(i) =>
      NoneBeforeFirst(s, marker, i);
      TrimNotContains(s[..i], marker);
      Trim(s[..i])
  }

  lemma CutKeepsAbsent(s: string, marker: string, other: string)
    requires |marker| > 0 && !Contains(s, other)
    ensures !Contains(CutAt(s, marker), other)
  {
    match Find(s, marker, 0)
    case None =>
    case Some(i) =>
      NotContainsSlice(s, other, 0, i);
      assert s[0..i] == s[..i];
      TrimNotContains(s[..i], other);
  }

  /** The song with any "(Official" or "[Official" suffix cut off. */
  function StripOfficial(song: string): (r: string)
    ensures !Contains(r, ParenOfficial) && !Contains(r, BracketOfficial)
    ensures !Contains(song, ParenOfficial) && !Contains(song, BracketOfficial) ==> r == song
  {
    var first := CutAt(song, ParenOfficial);
    CutKeepsAbsent(first, BracketOfficial, ParenOfficial);
    CutAt(first, BracketOfficial)
  }

  /** The split of `GetSyncedLyrics`: "Artist - Song" first, then "Song by
      Artist"; otherwise no artist and the whole title as the song. */
  function SplitTitle(title: string): (parts: (string, string))
    ensures parts.0 == [] || (!IsWhiteSpace(parts.0[0]) && !IsWhiteSpace(parts.0[|parts.0| - 1]))
    ensures Contains(title, Dash) || Contains(title, By) ==>
      parts.1 == [] || (!IsWhiteSpace(parts.1[0]) && !IsWhiteSpace(parts.1[|parts.1| - 1]))
    ensures !Contains(title, Dash) && !Contains(title, By) ==> parts == ("", title)
  {
    match Find(title, Dash, 0)
    case Some(i) => (Trim(title[..i]), Trim(title[i + 3..]))
    case None =>
      match Find(title, By, 0)
      case Some(i) => (Trim(title[i + 4..]), Trim(title[..i]))
      case None => ("", title)
  }

  /** What the lyric lookup is asked for, or None when no artist can be named
      and the lookup is skipped. The channel stands in for a missing artist. */
  function LyricSearch(title: string, channel: string): (q: Option<LyricQuery>)
    ensures q.None? <==> SplitTitle(title).0 == "" && channel == ""
    ensures q.Some? ==> q.value.artist != ""
    ensures q.Some? && SplitTitle(title).0 == "" ==> q.value.artist == channel
    ensures q.Some? ==> !Contains(q.value.song, ParenOfficial) && !Contains(q.value.song, BracketOfficial)
  {
    var (artist, song) := SplitTitle(title);
    var cleaned := StripOfficial(song);
    var named := if artist == "" && channel != "" then channel else artist;
    if named == "" then None else Some(LyricQuery(named, cleaned))
  }

  /** "Artist - Song" is read back as artist and song, when neither has
      surrounding white space, the artist is not followed by another " - ",
      and the song carries no "(Official" or "[Official" suffix. */
  lemma ArtistDashSong(artist: string, song: string, channel: string)
    requires artist != [] && !IsWhiteSpace(artist[0]) && !IsWhiteSpace(artist[|artist| - 1])
    requires !Contains(artist + " -", Dash)
    requires song == [] || (!IsWhiteSpace(song[0]) && !IsWhiteSpace(song[|song| - 1]))
    requires !Contains(song, ParenOfficial) && !Contains(song, BracketOfficial)
    ensures LyricSearch(artist + Dash + song, channel) == Some(LyricQuery(artist, song))
  {
    var title := artist + Dash + song;
    assert Dash[..|Dash| - 1] == " -";
    FindSeparator(artist, Dash, song);
    assert title[..|artist|] == artist;
    assert title[|artist| + 3..] == song;
    TrimOfUnpadded(artist);
    TrimOfUnpadded(song);
  }

  /** "Song by Artist" is read the other way round. */
  lemma SongByArtist(song: string, artist: string, channel: string)
    requires artist != [] && !IsWhiteSpace(artist[0]) && !IsWhiteSpace(artist[|artist| - 1])
    requires song == [] || (!IsWhiteSpace(song[0]) && !IsWhiteSpace(song[|song| - 1]))
    requires !Contains(song + By + artist, Dash)
    requires !Contains(song + " by", By)
    requires !Contains(song, ParenOfficial) && !Contains(song, BracketOfficial)
    ensures LyricSearch(song + By + artist, channel) == Some(LyricQuery(artist, song))
  {
    SplitSongBy(song, artist);
  }

  lemma SplitSongBy(song: string, artist: string)
    requires artist != [] && !IsWhiteSpace(artist[0]) && !IsWhiteSpace(artist[|artist| - 1])
    requires song == [] || (!IsWhiteSpace(song[0]) && !IsWhiteSpace(song[|song| - 1]))
    requires !Contains(song + By + artist, Dash)
    requires !Contains(song + " by", By)
    ensures SplitTitle(song + By + artist) == (artist, song)
  {
    var title := song + By + artist;
    assert By[..|By| - 1] == " by";
    FindSeparator(song, By, artist);
    assert title[..|song|] == song;
    assert title[|song| + 4..] == artist;
    TrimOfUnpadded(artist);
    TrimOfUnpadded(song);
  }

  /** A title with neither separator is searched under the channel's name, and
      not at all when there is no channel name. */
  lemma TitleWithoutArtist(title: string, channel: string)
    requires !Contains(title, Dash) && !Contains(title, By)
    ensures LyricSearch(title, channel)
         == if channel == "" then None else Some(LyricQuery(channel, StripOfficial(title)))
  {
  }
}
