/** The two JSON string escapers of the handlers: `EscapeJsonString` of the
    YouTube player (seven `Replace` calls) and the `EscapeJson` helper copied
    into every handler's webhook logger (five `Replace` calls). Both are
    measured against the string grammar of section 7 of RFC 8259, given here as
    a decoder: `Unescape` yields the characters a JSON string body denotes, or
    None when the body is not valid. */
module JsonEscape {
  import opened Strings

  const Backspace: char := '\U{0008}'
  const FormFeed: char := '\U{000C}'

  /** The Replace chain of `EscapeJsonString`, in source order (backslash
      first). */
  function FullChain(s: string): string
  {
    var s1 := ReplaceChar(s, '\\', "\\\\");
    var s2 := ReplaceChar(s1, '\"', "\\\"");
    var s3 := ReplaceChar(s2, '\n', "\\n");
    var s4 := ReplaceChar(s3, '\r', "\\r");
    var s5 := ReplaceChar(s4, '\t', "\\t");
    var s6 := ReplaceChar(s5, Backspace, "\\b");
    ReplaceChar(s6, FormFeed, "\\f")
  }

  /** The Replace chain of `EscapeJson`, which stops after the tab. */
  function ShortChain(s: string): string
  {
    var s1 := ReplaceChar(s, '\\', "\\\\");
    var s2 := ReplaceChar(s1, '\"', "\\\"");
    var s3 := ReplaceChar(s2, '\n', "\\n");
    var s4 := ReplaceChar(s3, '\r', "\\r");
    ReplaceChar(s4, '\t', "\\t")
  }

  /** `EscapeJsonString(str)`; a null or empty `str` gives "". */
  function EscapeJsonString(s: string): (r: string)
    ensures r == Escaped(s, true)
  {
    EscapeChain(s, true);
    if s == [] then "" else FullChain(s)
  }

  /** `EscapeJson(str)`; a null or empty `str` gives "". */
  function EscapeJson(s: string): (r: string)
    ensures r == Escaped(s, false)
  {
    EscapeChain(s, false);
    if s == [] then "" else ShortChain(s)
  }

  // ---------------------------------------------------------------------
  // Reference definition: one escape per input character

  /** The escape of one character; `full` adds `\b` and `\f`. */
  function EscapeChar(c: char, full: bool): string
  {
    if c == '\\' then "\\\\"
    else if c == '\"' then "\\\""
    else if c == '\n' then "\\n"
    else if c == '\r' then "\\r"
    else if c == '\t' then "\\t"
    else if full && c == Backspace then "\\b"
    else if full && c == FormFeed then "\\f"
    else [c]
  }

  function Escaped(s: string, full: bool): string
  {
    if s == [] then [] else EscapeChar(s[0], full) + Escaped(s[1..], full)
  }

  lemma {:induction false} ReplaceConcat(a: string, b: string, c: char, rep: string)
    ensures ReplaceChar(a + b, c, rep) == ReplaceChar(a, c, rep) + ReplaceChar(b, c, rep)
  {
    if a != [] {
      var head := if a[0] == c then rep else [a[0]];
      assert (a + b)[0] == a[0] && (a + b)[1..] == a[1..] + b;
      assert ReplaceChar(a + b, c, rep) == head + ReplaceChar(a[1..] + b, c, rep);
      ReplaceConcat(a[1..], b, c, rep);
      assert ReplaceChar(a, c, rep) == head + ReplaceChar(a[1..], c, rep);
    } else {
      assert a + b == b;
    }
  }

  lemma FullChainConcat(a: string, b: string)
    ensures FullChain(a + b) == FullChain(a) + FullChain(b)
  {
    var x := a;
    var y := b;
    ReplaceConcat(x, y, '\\', "\\\\");
    x, y := ReplaceChar(x, '\\', "\\\\"), ReplaceChar(y, '\\', "\\\\");
    ReplaceConcat(x, y, '\"', "\\\"");
    x, y := ReplaceChar(x, '\"', "\\\""), ReplaceChar(y, '\"', "\\\"");
    ReplaceConcat(x, y, '\n', "\\n");
    x, y := ReplaceChar(x, '\n', "\\n"), ReplaceChar(y, '\n', "\\n");
    ReplaceConcat(x, y, '\r', "\\r");
    x, y := ReplaceChar(x, '\r', "\\r"), ReplaceChar(y, '\r', "\\r");
    ReplaceConcat(x, y, '\t', "\\t");
    x, y := ReplaceChar(x, '\t', "\\t"), ReplaceChar(y, '\t', "\\t");
    ReplaceConcat(x, y, Backspace, "\\b");
    x, y := ReplaceChar(x, Backspace, "\\b"), ReplaceChar(y, Backspace, "\\b");
    ReplaceConcat(x, y, FormFeed, "\\f");
  }

  lemma ShortChainConcat(a: string, b: string)
    ensures ShortChain(a + b) == ShortChain(a) + ShortChain(b)
  {
    var x := a;
    var y := b;
    ReplaceConcat(x, y, '\\', "\\\\");
    x, y := ReplaceChar(x, '\\', "\\\\"), ReplaceChar(y, '\\', "\\\\");
    ReplaceConcat(x, y, '\"', "\\\"");
    x, y := ReplaceChar(x, '\"', "\\\""), ReplaceChar(y, '\"', "\\\"");
    ReplaceConcat(x, y, '\n', "\\n");
    x, y := ReplaceChar(x, '\n', "\\n"), ReplaceChar(y, '\n', "\\n");
    ReplaceConcat(x, y, '\r', "\\r");
    x, y := ReplaceChar(x, '\r', "\\r"), ReplaceChar(y, '\r', "\\r");
    ReplaceConcat(x, y, '\t', "\\t");
  }

  /** The chain on one character is that character's escape: a later
      replacement never touches what an earlier one produced. */
  lemma ChainOnChar(c: char, full: bool)
    ensures (if full then FullChain([c]) else ShortChain([c])) == EscapeChar(c, full)
  {
    ShortOnChar(c);
    var s5 := ShortChain([c]);
    ReplaceSingle(c, Backspace, "\\b");
    ReplaceSingle(c, FormFeed, "\\f");
    if c in {'\\', '\"', '\n', '\r', '\t'} {
      assert Backspace !in s5 && FormFeed !in s5;
      ReplaceAbsent(s5, Backspace, "\\b");
      ReplaceAbsent(s5, FormFeed, "\\f");
    }
  }

  lemma ShortOnChar(c: char)
    ensures ShortChain([c]) == EscapeChar(c, false)
  {
    ReplaceSingle(c, '\\', "\\\\");
    ReplaceSingle(c, '\"', "\\\"");
    ReplaceSingle(c, '\n', "\\n");
    ReplaceSingle(c, '\r', "\\r");
    ReplaceSingle(c, '\t', "\\t");
  }

  lemma ReplaceSingle(c: char, x: char, rep: string)
    ensures ReplaceChar([c], x, rep) == if c == x then rep else [c]
  {
    assert [c][1..] == [];
  }

  /** Both Replace chains are the per-character escape. */
  lemma {:induction false} EscapeChain(s: string, full: bool)
    ensures (if full then FullChain(s) else ShortChain(s)) == Escaped(s, full)
  {
    if s != [] {
      assert s == [s[0]] + s[1..];
      if full { FullChainConcat([s[0]], s[1..]); } else { ShortChainConcat([s[0]], s[1..]); }
      ChainOnChar(s[0], full);
      EscapeChain(s[1..], full);
    }
  }

  // ---------------------------------------------------------------------
  // Section 7 of RFC 8259

  /** Characters that may stand unescaped in a JSON string. */
  predicate Unescaped(c: char)
  {
    c >= ' ' && c != '\"' && c != '\\'
  }

  /** The two-character escapes and the characters they denote. */
  function ShortEscape(c: char): Option<char>
  {
    if c == '\"' then Some('\"')
    else if c == '\\' then Some('\\')
    else if c == '/' then Some('/')
    else if c == 'b' then Some(Backspace)
    else if c == 'f' then Some(FormFeed)
    else if c == 'n' then Some('\n')
    else if c == 'r' then Some('\r')
    else if c == 't' then Some('\t')
    else None
  }

  function HexValue(c: char): Option<nat>
  {
    if '0' <= c <= '9' then Some(c as int - '0' as int)
    else if 'a' <= c <= 'f' then Some(c as int - 'a' as int + 10)
    else if 'A' <= c <= 'F' then Some(c as int - 'A' as int + 10)
    else None
  }

  /** The UTF-16 code unit written as four hex digits after `\u` at `t[k]`. */
  function CodeUnitAt(t: string, k: nat): (r: Option<nat>)
    ensures r.Some? ==> r.value < 0x1_0000 && k + 6 <= |t|
  {
    if k + 6 <= |t| && t[k] == '\\' && t[k + 1] == 'u'
       && HexValue(t[k + 2]).Some? && HexValue(t[k + 3]).Some?
       && HexValue(t[k + 4]).Some? && HexValue(t[k + 5]).Some?
    then
      Some(((HexValue(t[k + 2]).value * 16 + HexValue(t[k + 3]).value) * 16
            + HexValue(t[k + 4]).value) * 16 + HexValue(t[k + 5]).value)
    else None
  }

  /** The characters a JSON string body denotes, or None when it is not a
      valid body. A `\u` escape of a high surrogate must be followed by one of
      a low surrogate; a lone surrogate denotes no Unicode scalar value and is
      refused. */
  function Unescape(t: string): (r: Option<string>)
    decreases |t|
  {
    if t == [] then Some([])
    else if t[0] != '\\' then
      if Unescaped(t[0]) then Prepend(t[0], Unescape(t[1..])) else None
    else if |t| < 2 then None
    else if ShortEscape(t[1]).Some? then Prepend(ShortEscape(t[1]).value, Unescape(t[2..]))
    else match CodeUnitAt(t, 0)
      case None => None
      case Some(u) =>
        if u < 0xD800 || u > 0xDFFF then Prepend(u as char, Unescape(t[6..]))
        else if u > 0xDBFF then None
        else match CodeUnitAt(t, 6)
          case Some(l) =>
            if 0xDC00 <= l <= 0xDFFF
            then Prepend((0x1_0000 + (u - 0xD800) * 0x400 + (l - 0xDC00)) as char, Unescape(t[12..]))
            else None
          case None => None
  }

  function Prepend(c: char, r: Option<string>): Option<string>
  {
    match r
    case Some(s) => Some([c] + s)
    case None => None
  }

  /** The characters each escaper leaves raw although RFC 8259 requires them
      escaped: the control characters it has no replacement for. */
  predicate LeftRaw(c: char, full: bool)
  {
    c < ' ' && c != '\n' && c != '\r' && c != '\t' && (full ==> c != Backspace && c != FormFeed)
  }

  predicate NoRawControl(s: string, full: bool)
  {
    forall i :: 0 <= i < |s| ==> !LeftRaw(s[i], full)
  }

  lemma UnescapeEscapedChar(c: char, full: bool, rest: string)
    ensures Unescape(EscapeChar(c, full) + rest)
            == if LeftRaw(c, full) then None else Prepend(c, Unescape(rest))
  {
    var e := EscapeChar(c, full);
    var t := e + rest;
    if |e| == 2 {
      assert t[0] == '\\' && t[1] == e[1] && t[2..] == rest;
    } else {
      assert t[0] == c && t[1..] == rest;
    }
  }

  /** The escaped text is a valid JSON string body exactly when the input has
      no control character the escaper leaves raw, and then it denotes the
      input. */
  lemma {:induction false} UnescapeEscaped(s: string, full: bool)
    ensures Unescape(Escaped(s, full)) == if NoRawControl(s, full) then Some(s) else None
  {
    if s != [] {
      UnescapeEscapedChar(s[0], full, Escaped(s[1..], full));
      UnescapeEscaped(s[1..], full);
      assert NoRawControl(s, full) <==> !LeftRaw(s[0], full) && NoRawControl(s[1..], full) by {
        if !LeftRaw(s[0], full) && NoRawControl(s[1..], full) {
          forall i | 0 <= i < |s| ensures !LeftRaw(s[i], full) {
            if i > 0 { assert s[i] == s[1..][i - 1]; }
          }
        }
      }
      assert s == [s[0]] + s[1..];
    }
  }

  /** `EscapeJsonString` yields a valid JSON string body that denotes its input
      iff the input holds no control character other than the five it
      replaces. */
  lemma EscapeJsonStringRoundTrip(s: string)
    ensures Unescape(EscapeJsonString(s)) == if NoRawControl(s, true) then Some(s) else None
  {
    UnescapeEscaped(s, true);
  }

  /** `EscapeJson` yields a valid JSON string body that denotes its input iff
      the input holds no control character other than newline, carriage
      return and tab. */
  lemma EscapeJsonRoundTrip(s: string)
    ensures Unescape(EscapeJson(s)) == if NoRawControl(s, false) then Some(s) else None
  {
    UnescapeEscaped(s, false);
  }

  /** Backspace and form feed are where the two escapers differ: `EscapeJson`
      leaves them raw, so its output for them is not valid JSON. */
  lemma EscapeJsonLeavesFormFeed()
    ensures EscapeJson([FormFeed]) == [FormFeed]
    ensures Unescape(EscapeJson([FormFeed])).None?
    ensures Unescape(EscapeJsonString([FormFeed])) == Some([FormFeed])
  {
    ShortOnChar(FormFeed);
    EscapeJsonRoundTrip([FormFeed]);
    EscapeJsonStringRoundTrip([FormFeed]);
  }

  // ---------------------------------------------------------------------
  // Shape of the output

  /** No raw newline, carriage return, tab, backspace or form feed survives
      `EscapeJsonString`. */
  lemma {:induction false} NoRawWhiteControls(s: string, i: nat)
    requires i < |EscapeJsonString(s)|
    ensures EscapeJsonString(s)[i] !in {'\n', '\r', '\t', Backspace, FormFeed}
  {
    EscapedAvoids(s, true, i);
  }

  lemma {:induction false} EscapedAvoids(s: string, full: bool, i: nat)
    requires i < |Escaped(s, full)|
    ensures Escaped(s, full)[i] !in {'\n', '\r', '\t'}
    ensures full ==> Escaped(s, full)[i] !in {Backspace, FormFeed}
  {
    var e := EscapeChar(s[0], full);
    if i >= |e| {
      EscapedAvoids(s[1..], full, i - |e|);
    }
  }

  /** Every double quote in the output of either escaper directly follows a
      backslash. */
  lemma {:induction false} QuotesAreEscaped(s: string, full: bool, i: nat)
    requires i < |Escaped(s, full)| && Escaped(s, full)[i] == '\"'
    ensures i > 0 && Escaped(s, full)[i - 1] == '\\'
  {
    var e := EscapeChar(s[0], full);
    if i >= |e| {
      QuotesAreEscaped(s[1..], full, i - |e|);
    }
  }
}
