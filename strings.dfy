/** Text primitives of the .NET string API that the command handlers use, on
    `string` (a sequence of Unicode scalar values). Searching and replacing
    are ordinal, character by character. */
module Strings {

  datatype Option<+T> = None | Some(value: T)

  /** `char.IsWhiteSpace`: the Unicode space separators, the line and paragraph
      separators, U+0009..U+000D, U+0085 and U+00A0. */
  predicate IsWhiteSpace(c: char)
  {
    ('\t' <= c <= '\r') || c == ' ' || c == '\U{0085}' || c == '\U{00A0}' || c == '\U{1680}'
    || ('\U{2000}' <= c <= '\U{200A}') || c == '\U{2028}' || c == '\U{2029}'
    || c == '\U{202F}' || c == '\U{205F}' || c == '\U{3000}'
  }

  /** `s.TrimStart()`: drops the leading white space. */
  function TrimStart(s: string): (r: string)
    ensures |r| <= |s| && r == s[|s| - |r|..]
    ensures r == [] || !IsWhiteSpace(r[0])
    ensures forall i :: 0 <= i < |s| - |r| ==> IsWhiteSpace(s[i])
  {
    if |s| > 0 && IsWhiteSpace(s[0]) then TrimStart(s[1..]) else s
  }

  /** `s.TrimEnd()`: drops the trailing white space. */
  function TrimEnd(s: string): (r: string)
    ensures |r| <= |s| && r == s[..|r|]
    ensures r == [] || !IsWhiteSpace(r[|r| - 1])
    ensures forall i :: |r| <= i < |s| ==> IsWhiteSpace(s[i])
  {
    if |s| > 0 && IsWhiteSpace(s[|s| - 1]) then TrimEnd(s[..|s| - 1]) else s
  }

  /** `s.Trim()`. */
  function Trim(s: string): (r: string)
    ensures r == [] || (!IsWhiteSpace(r[0]) && !IsWhiteSpace(r[|r| - 1]))
    ensures |s| - |TrimStart(s)| + |r| <= |s|
    ensures r == s[|s| - |TrimStart(s)|..|s| - |TrimStart(s)| + |r|]
  {
    TrimEnd(TrimStart(s))
  }

  /** Trimming a text in which `p` does not occur leaves no `p`. */
  lemma TrimNotContains(s: string, p: string)
    requires !Contains(s, p)
    ensures !Contains(Trim(s), p)
  {
    var k := |s| - |TrimStart(s)|;
    var t := Trim(s);
    assert t == s[k..k + |t|];
    NotContainsSlice(s, p, k, k + |t|);
  }

  /** Trimming a text without the character `c` leaves no `c`. */
  lemma TrimKeepsAbsent(s: string, c: char)
    requires c !in s
    ensures c !in Trim(s)
  {
    var k := |s| - |TrimStart(s)|;
    var t := Trim(s);
    forall i | 0 <= i < |t|
      ensures t[i] != c
    {
      assert t[i] == s[k + i];
    }
  }

  lemma TrimOfUnpadded(s: string)
    requires s == [] || (!IsWhiteSpace(s[0]) && !IsWhiteSpace(s[|s| - 1]))
    ensures Trim(s) == s
  {
  }

  /** Trimming a string is trimming its white-space-free core: padding on
      either side does not matter. */
  lemma TrimPadded(s: string, pad: string)
    requires s == [] || (!IsWhiteSpace(s[0]) && !IsWhiteSpace(s[|s| - 1]))
    requires forall i :: 0 <= i < |pad| ==> IsWhiteSpace(pad[i])
    ensures Trim(s + pad) == s
  {
    if s == [] {
      TrimAllWhite(pad);
      assert s + pad == pad;
    } else {
      assert TrimStart(s + pad) == s + pad;
      TrimEndPadded(s, pad);
    }
  }

  lemma TrimAllWhite(pad: string)
    requires forall i :: 0 <= i < |pad| ==> IsWhiteSpace(pad[i])
    ensures Trim(pad) == []
  {
  }

  lemma {:induction false} TrimEndPadded(s: string, pad: string)
    requires s != [] && !IsWhiteSpace(s[|s| - 1])
    requires forall i :: 0 <= i < |pad| ==> IsWhiteSpace(pad[i])
    ensures TrimEnd(s + pad) == s
    decreases |pad|
  {
    if pad == [] {
      assert s + pad == s;
    } else {
      var shorter := pad[..|pad| - 1];
      assert (s + pad)[..|s + pad| - 1] == s + shorter;
      TrimEndPadded(s, shorter);
    }
  }

  /** Text placed between any two strings is contained in the result. */
  lemma ContainsInfix(pre: string, p: string, post: string)
    ensures Contains(pre + p + post, p)
  {
    var s := pre + p + post;
    assert s[|pre|..|pre| + |p|] == p;
    assert OccursAt(s, p, |pre|);
    ContainsIff(s, p);
  }

  /** `p` occurs in `s` at index `i`. */
  predicate OccursAt(s: string, p: string, i: int)
  {
    0 <= i && i + |p| <= |s| && s[i..i + |p|] == p
  }

  /** `s.IndexOf(p, k)` (ordinal): the first index at or after `k` where `p`
      occurs, or None for .NET's -1. */
  function Find(s: string, p: string, k: nat): (r: Option<nat>)
    requires k <= |s|
    ensures r.Some? ==> k <= r.value && OccursAt(s, p, r.value)
    ensures r.Some? ==> forall i :: k <= i < r.value ==> !OccursAt(s, p, i)
    ensures r.None? ==> forall i :: k <= i ==> !OccursAt(s, p, i)
    decreases |s| - k
  {
    if OccursAt(s, p, k) then Some(k)
    else if k == |s| then None
    else Find(s, p, k + 1)
  }

  /** `s.Contains(p)` (ordinal). */
  predicate Contains(s: string, p: string)
  {
    Find(s, p, 0).Some?
  }

  lemma ContainsIff(s: string, p: string)
    ensures Contains(s, p) <==> exists i :: OccursAt(s, p, i)
  {
    if Contains(s, p) {
      assert OccursAt(s, p, Find(s, p, 0).value);
    }
  }

  /** A slice of a text in which `p` does not occur holds no `p` either. */
  lemma NotContainsSlice(s: string, p: string, a: nat, b: nat)
    requires a <= b <= |s|
    requires !Contains(s, p)
    ensures !Contains(s[a..b], p)
  {
    if Contains(s[a..b], p) {
      var w := s[a..b];
      var i := Find(w, p, 0).value;
      assert OccursAt(w, p, i);
      forall j | 0 <= j < |p|
        ensures s[a + i + j] == p[j]
      {
        assert w[i..i + |p|][j] == w[i + j] == s[a + i + j];
      }
      assert s[a + i..a + i + |p|] == p;
      assert OccursAt(s, p, a + i);
      ContainsIff(s, p);
    }
  }

  /** The text before the first occurrence of `p` holds no `p`. */
  lemma NoneBeforeFirst(s: string, p: string, i: nat)
    requires |p| > 0
    requires i <= |s| && Find(s, p, 0) == Some(i)
    ensures !Contains(s[..i], p)
  {
    if Contains(s[..i], p) {
      var j := Find(s[..i], p, 0).value;
      assert OccursAt(s[..i], p, j);
      assert s[..i][j..j + |p|] == s[j..j + |p|];
      assert OccursAt(s, p, j);
    }
  }

  /** The first index of the character `c` in a text of the form `a + [c] + b`
      where `a` has no `c`. */
  lemma FindAfterPrefix(a: string, c: char, b: string)
    requires c !in a
    ensures Find(a + [c] + b, [c], 0) == Some(|a|)
  {
    var s := a + [c] + b;
    assert OccursAt(s, [c], |a|);
    forall i | 0 <= i < |a| ensures !OccursAt(s, [c], i) {
      assert s[i] == a[i];
    }
    FindFirst(s, [c], 0, |a|);
  }

  /** The first index of the character `c` in `s`. */
  function IndexOfChar(s: string, c: char): (r: Option<nat>)
    ensures r.Some? ==> r.value < |s| && s[r.value] == c && c !in s[..r.value]
    ensures r.None? ==> c !in s
  {
    if s == [] then None
    else if s[0] == c then Some(0)
    else match IndexOfChar(s[1..], c)
      case None => None
      case Some(i) =>
        assert s[..i + 1] == [s[0]] + s[1..][..i];
        Some(i + 1)
  }

  /** Searching for a one-character string is searching for the character. */
  lemma FindChar(s: string, c: char)
    ensures Find(s, [c], 0) == IndexOfChar(s, c)
  {
    match IndexOfChar(s, c)
    case None => NotFoundIfNoChar(s, c);
    case Some(i) =>
      assert s[i..i + 1] == [c];
      forall j | 0 <= j < i ensures !OccursAt(s, [c], j) {
        assert s[j] in s[..i];
      }
      FindFirst(s, [c], 0, i);
  }

  lemma IndexAfterPrefix(a: string, c: char, b: string)
    requires c !in a
    ensures IndexOfChar(a + [c] + b, c) == Some(|a|)
  {
    var s := a + [c] + b;
    assert s[|a|] == c;
    var r := IndexOfChar(s, c);
    if r.value != |a| {
      assert false;
    }
  }

  /** In `left + sep + right` the first `sep` starts right after `left` when no
      `sep` starts inside `left`, that is, when `left` followed by all of
      `sep` but its last character holds none. */
  lemma FindSeparator(left: string, sep: string, right: string)
    requires |sep| > 0
    requires !Contains(left + sep[..|sep| - 1], sep)
    ensures Find(left + sep + right, sep, 0) == Some(|left|)
  {
    var s := left + sep + right;
    var w := left + sep[..|sep| - 1];
    assert s[|left|..|left| + |sep|] == sep;
    forall i | 0 <= i < |left| ensures !OccursAt(s, sep, i) {
      if OccursAt(s, sep, i) {
        assert w == s[..|w|];
        assert s[i..i + |sep|] == w[i..i + |sep|];
        assert OccursAt(w, sep, i);
        ContainsIff(w, sep);
      }
    }
    FindFirst(s, sep, 0, |left|);
  }

  /** Find returns `j` when `p` occurs at `j` and nowhere between `k` and `j`. */
  lemma {:induction false} FindFirst(s: string, p: string, k: nat, j: nat)
    requires k <= j && OccursAt(s, p, j)
    requires forall i :: k <= i < j ==> !OccursAt(s, p, i)
    ensures Find(s, p, k) == Some(j)
    decreases j - k
  {
    if k < j {
      FindFirst(s, p, k + 1, j);
    }
  }

  /** `s.Split(d)`: the pieces between the occurrences of the delimiter. */
  function Split(s: string, d: char): (r: seq<string>)
    ensures |r| >= 1
    ensures forall i :: 0 <= i < |r| ==> d !in r[i]
    decreases |s|
  {
    match Find(s, [d], 0)
    case None =>
      NoCharIfNotFound(s, d);
      [s]
    case Some(i) =>
      NoneBeforeFirstChar(s, d, i);
      [s[..i]] + Split(s[i + 1..], d)
  }

  lemma NoCharIfNotFound(s: string, d: char)
    requires Find(s, [d], 0).None?
    ensures d !in s
  {
    forall i | 0 <= i < |s| ensures s[i] != d {
      assert !OccursAt(s, [d], i);
      assert s[i..i + 1] == [s[i]];
    }
  }

  lemma NoneBeforeFirstChar(s: string, d: char, i: nat)
    requires Find(s, [d], 0) == Some(i)
    ensures d !in s[..i]
  {
    forall j | 0 <= j < i ensures s[j] != d {
      assert !OccursAt(s, [d], j);
      assert s[j..j + 1] == [s[j]];
    }
  }

  /** `string.Join(d, xs)`. */
  function Join(xs: seq<string>, d: char): string
  {
    if xs == [] then ""
    else if |xs| == 1 then xs[0]
    else xs[0] + [d] + Join(xs[1..], d)
  }

  /** Split undoes Join when no piece holds the delimiter. */
  lemma {:induction false} SplitJoin(xs: seq<string>, d: char)
    requires |xs| >= 1
    requires forall i :: 0 <= i < |xs| ==> d !in xs[i]
    ensures Split(Join(xs, d), d) == xs
  {
    if |xs| == 1 {
      NotFoundIfNoChar(xs[0], d);
    } else {
      var s := Join(xs, d);
      var rest := Join(xs[1..], d);
      FindAfterPrefix(xs[0], d, rest);
      assert s[..|xs[0]|] == xs[0];
      assert s[|xs[0]| + 1..] == rest;
      SplitJoin(xs[1..], d);
      assert xs == [xs[0]] + xs[1..];
    }
  }

  /** Join undoes Split. */
  lemma {:induction false} JoinSplit(s: string, d: char)
    ensures Join(Split(s, d), d) == s
    decreases |s|
  {
    match Find(s, [d], 0)
    case None =>
    case Some(i) =>
      JoinSplit(s[i + 1..], d);
      var rest := Split(s[i + 1..], d);
      assert Split(s, d) == [s[..i]] + rest;
      assert ([s[..i]] + rest)[1..] == rest;
      assert OccursAt(s, [d], i);
      assert s == s[..i] + [d] + s[i + 1..];
  }

  lemma NotFoundIfNoChar(s: string, d: char)
    requires d !in s
    ensures Find(s, [d], 0).None?
  {
    forall i | 0 <= i ensures !OccursAt(s, [d], i) {
      if i < |s| {
        assert s[i..i + 1] == [s[i]];
      }
    }
  }

  /** `s.Replace(c.ToString(), rep)`: every occurrence of the character `c` is
      replaced by `rep`. */
  function ReplaceChar(s: string, c: char, rep: string): (r: string)
  {
    if s == [] then []
    else (if s[0] == c then rep else [s[0]]) + ReplaceChar(s[1..], c, rep)
  }

  /** Replacing `c` by text without `c` leaves no `c`. */
  lemma {:induction false} ReplaceRemoves(s: string, c: char, rep: string)
    requires c !in rep
    ensures c !in ReplaceChar(s, c, rep)
  {
    if s != [] {
      ReplaceRemoves(s[1..], c, rep);
    }
  }

  /** Text without `c` is left as it is. */
  lemma {:induction false} ReplaceAbsent(s: string, c: char, rep: string)
    requires c !in s
    ensures ReplaceChar(s, c, rep) == s
  {
    if s != [] {
      assert s[0] != c && c !in s[1..];
      ReplaceAbsent(s[1..], c, rep);
      assert s == [s[0]] + s[1..];
    }
  }

  /** ASCII lower-casing of one character. */
  function LowerChar(c: char): char
  {
    if 'A' <= c <= 'Z' then (c as int + 32) as char else c
  }

  /** `s.ToLower()`, for the ASCII letters. */
  function ToLower(s: string): (r: string)
    ensures |r| == |s| && forall i :: 0 <= i < |s| ==> r[i] == LowerChar(s[i])
  {
    seq(|s|, i requires 0 <= i < |s| => LowerChar(s[i]))
  }

  /** Lower-casing leaves no upper-case ASCII letter, changes nothing but those
      letters, and so changes nothing the second time. */
  lemma ToLowerLowers(s: string)
    ensures forall i :: 0 <= i < |s| ==> !('A' <= ToLower(s)[i] <= 'Z')
    ensures forall i :: 0 <= i < |s| && ToLower(s)[i] != s[i] ==> 'A' <= s[i] <= 'Z'
    ensures ToLower(ToLower(s)) == ToLower(s)
  {
  }
}
