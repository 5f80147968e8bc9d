/**
 * The JavaScript string operations the modelled code relies on: indexOf/lastIndexOf of one
 * character, includes, toLowerCase, trim and the UTF-16 length that `.length` reports.
 * Dafny strings are sequences of Unicode scalar values; `Utf16Length` recovers the length
 * JavaScript sees.
 */
module Text {

  /** `s.indexOf(c)`: the first position of `c`, or -1. */
  function IndexOf(s: string, c: char): (r: int)
    ensures -1 <= r < |s|
    ensures r == -1 <==> c !in s
    ensures r >= 0 ==> s[r] == c && c !in s[..r]
  {
    if |s| == 0 then -1
    else if s[0] == c then 0
    else
      var k := IndexOf(s[1..], c);
      assert s == [s[0]] + s[1..];
      if k == -1 then -1
      else
        assert s[..k + 1] == [s[0]] + s[1..][..k];
        k + 1
  }

  /** `s.lastIndexOf(c)`: the last position of `c`, or -1. */
  function LastIndexOf(s: string, c: char): (r: int)
    ensures -1 <= r < |s|
    ensures r == -1 <==> c !in s
    ensures r >= 0 ==> s[r] == c && c !in s[r + 1..]
  {
    if |s| == 0 then -1
    else if s[|s| - 1] == c then |s| - 1
    else
      var k := LastIndexOf(s[..|s| - 1], c);
      LastIndexOfStep(s, c, k);
      k
  }

  /** The search in all but the last character carries over when the last one is not `c`. */
  lemma LastIndexOfStep(s: string, c: char, k: int)
    requires |s| > 0 && s[|s| - 1] != c
    requires -1 <= k < |s| - 1
    requires k == -1 <==> c !in s[..|s| - 1]
    requires k >= 0 ==> s[..|s| - 1][k] == c && c !in s[..|s| - 1][k + 1..]
    ensures k == -1 <==> c !in s
    ensures k >= 0 ==> s[k] == c && c !in s[k + 1..]
  {
    var init := s[..|s| - 1];
    assert s == init + [s[|s| - 1]];
    if k >= 0 {
      assert s[k + 1..] == init[k + 1..] + [s[|s| - 1]];
    }
  }

  /** Splitting at a separator that does not occur on one side: indexOf finds the
      separator when it is absent on the left, lastIndexOf when it is absent on the right. */
  lemma IndexOfJoin(v: string, c: char, w: string)
    requires c !in v
    ensures IndexOf(v + [c] + w, c) == |v|
  {
    var s := v + [c] + w;
    assert s[|v|] == c;
  }

  /** A string cut at the first occurrence of a separator, or the separator's absence. */
  datatype Split = Absent | Parts(before: string, after: string)

  /** The text before and after the first `c` of `s` (`indexOf` followed by two slices). */
  function SplitFirst(s: string, c: char): (r: Split)
    ensures r.Absent? <==> c !in s
    ensures r.Parts? ==> c !in r.before && s == r.before + [c] + r.after
  {
    var i := IndexOf(s, c);
    if i == -1 then Absent
    else
      assert s == s[..i] + [s[i]] + s[i + 1..];
      Parts(s[..i], s[i + 1..])
  }

  /** Splitting a join at a separator absent from its left part gives back the parts. */
  lemma SplitFirstJoin(v: string, c: char, w: string)
    requires c !in v
    ensures SplitFirst(v + [c] + w, c) == Parts(v, w)
  {
    var s := v + [c] + w;
    IndexOfJoin(v, c, w);
    assert s[..|v|] == v && s[|v| + 1..] == w;
  }

  lemma LastIndexOfJoin(v: string, c: char, w: string)
    requires c !in w
    ensures LastIndexOf(v + [c] + w, c) == |v|
  {
    var s := v + [c] + w;
    assert s[|v|] == c;
  }

  /** `s.includes(sub)`. Only a substring no longer than `s` can be found, and a prefix
      always is. */
  predicate Contains(s: string, sub: string): (b: bool)
    ensures b ==> |sub| <= |s|
    ensures sub <= s ==> b
    decreases |s|
  {
    sub <= s || (|s| > 0 && Contains(s[1..], sub))
  }

  /** `sub` occurs in `s` starting at position `i`. */
  predicate OccursAt(s: string, sub: string, i: int)
  {
    0 <= i <= |s| - |sub| && s[i..i + |sub|] == sub
  }

  /** Contains holds exactly when `sub` occurs at some position of `s`. */
  lemma {:induction false} ContainsAt(s: string, sub: string)
    ensures Contains(s, sub) <==> exists i :: OccursAt(s, sub, i)
  {
    PrefixOccurs(s, sub);
    if |s| > 0 && !(sub <= s) {
      ContainsAt(s[1..], sub);
      if exists i :: OccursAt(s, sub, i) {
        var i :| OccursAt(s, sub, i);
        assert i != 0;
        OccursShift(s, sub, i);
      }
      if Contains(s[1..], sub) {
        var i :| OccursAt(s[1..], sub, i);
        OccursShift(s, sub, i + 1);
      }
    }
  }

  /** A prefix is an occurrence at position 0. */
  lemma PrefixOccurs(s: string, sub: string)
    ensures sub <= s <==> OccursAt(s, sub, 0)
  {
    if |sub| <= |s| {
      assert s[0..|sub|] == s[..|sub|];
    }
  }

  /** An occurrence past the first character is an occurrence in the tail, one place
      earlier. */
  lemma OccursShift(s: string, sub: string, i: int)
    requires |s| > 0 && i >= 1
    ensures OccursAt(s, sub, i) <==> OccursAt(s[1..], sub, i - 1)
  {
    if i <= |s| - |sub| {
      assert s[1..][i - 1..i - 1 + |sub|] == s[i..i + |sub|];
    }
  }

  /** `toLowerCase` on one character, restricted to what can produce ASCII letters: ASCII
      capitals, and the Kelvin sign, the only non-ASCII character whose lower case is a
      single ASCII letter. Other characters are left as they are. */
  function LowerChar(c: char): char
  {
    if 'A' <= c <= 'Z' then (c as int + 32) as char
    else if c == '\U{212A}' then 'k'
    else c
  }

  function ToLower(s: string): (r: string)
    ensures |r| == |s|
    ensures forall i :: 0 <= i < |s| ==> r[i] == LowerChar(s[i])
  {
    seq(|s|, i requires 0 <= i < |s| => LowerChar(s[i]))
  }

  /** The WhiteSpace and LineTerminator code points that `trim` and `parseInt` skip. */
  predicate IsJsWhitespace(c: char)
  {
    c == '\t' || c == '\n' || c == '\U{000B}' || c == '\U{000C}' || c == '\r' || c == ' '
    || c == '\U{00A0}' || c == '\U{1680}' || ('\U{2000}' <= c <= '\U{200A}')
    || c == '\U{2028}' || c == '\U{2029}' || c == '\U{202F}' || c == '\U{205F}'
    || c == '\U{3000}' || c == '\U{FEFF}'
  }

  /** Drops the leading whitespace: the result is the suffix starting at the first
      non-whitespace character. */
  function TrimStart(s: string): (r: string)
    ensures |r| <= |s| && r == s[|s| - |r|..]
    ensures r == [] || !IsJsWhitespace(r[0])
    ensures forall i :: 0 <= i < |s| - |r| ==> IsJsWhitespace(s[i])
  {
    if |s| > 0 && IsJsWhitespace(s[0]) then TrimStart(s[1..]) else s
  }

  function TrimEnd(s: string): (r: string)
    ensures |r| <= |s| && r == s[..|r|]
    ensures r == [] || !IsJsWhitespace(r[|r| - 1])
    ensures forall i :: |r| <= i < |s| ==> IsJsWhitespace(s[i])
  {
    if |s| > 0 && IsJsWhitespace(s[|s| - 1]) then TrimEnd(s[..|s| - 1]) else s
  }

  /** Every character of `s` is whitespace. */
  predicate AllWhitespace(s: string)
  {
    forall i :: 0 <= i < |s| ==> IsJsWhitespace(s[i])
  }

  /** `s.trim()`: the substring between the leading and trailing whitespace. What is cut
      off on either side is whitespace, and what is kept neither starts nor ends with it. */
  function Trim(s: string): (r: string)
    ensures exists a, b :: 0 <= a <= b <= |s| && r == s[a..b] &&
                           AllWhitespace(s[..a]) && AllWhitespace(s[b..])
    ensures r == [] || (!IsJsWhitespace(r[0]) && !IsJsWhitespace(r[|r| - 1]))
    ensures r == [] <==> AllWhitespace(s)
  {
    var t := TrimStart(s);
    var r := TrimEnd(t);
    TrimmedMargins(s, t, r);
    TrimmedEmpty(s, t, r);
    r
  }

  /** Trimming both ends leaves a middle slice flanked by whitespace, from the two
      one-sided guarantees. */
  lemma TrimmedMargins(s: string, t: string, r: string)
    requires |t| <= |s| && t == s[|s| - |t|..]
    requires forall i :: 0 <= i < |s| - |t| ==> IsJsWhitespace(s[i])
    requires t == [] || !IsJsWhitespace(t[0])
    requires |r| <= |t| && r == t[..|r|]
    requires forall i :: |r| <= i < |t| ==> IsJsWhitespace(t[i])
    requires r == [] || !IsJsWhitespace(r[|r| - 1])
    ensures var a := |s| - |t|;
            && r == s[a..a + |r|] && AllWhitespace(s[..a]) && AllWhitespace(s[a + |r|..])
            && (r == [] || (!IsJsWhitespace(r[0]) && !IsJsWhitespace(r[|r| - 1])))
  {
    var a := |s| - |t|;
    var head := s[..a];
    forall i | 0 <= i < |head|
      ensures IsJsWhitespace(head[i])
    {
      assert head[i] == s[i];
    }
    var tail := s[a + |r|..];
    forall i | 0 <= i < |tail|
      ensures IsJsWhitespace(tail[i])
    {
      assert tail[i] == t[|r| + i];
    }
    if r != [] {
      assert r[0] == t[0];
    }
  }

  lemma TrimmedEmpty(s: string, t: string, r: string)
    requires t == TrimStart(s) && r == TrimEnd(t)
    ensures r == [] <==> AllWhitespace(s)
  {
  }

  /** The number of UTF-16 code units: what JavaScript's `.length` counts. */
  function Utf16Length(s: string): (n: nat)
    ensures |s| <= n <= 2 * |s|
  {
    if s == [] then 0 else (if s[0] as int > 0xFFFF then 2 else 1) + Utf16Length(s[1..])
  }

  lemma {:induction false} Utf16LengthAppend(x: string, y: string)
    ensures Utf16Length(x + y) == Utf16Length(x) + Utf16Length(y)
  {
    if x != [] {
      assert (x + y)[1..] == x[1..] + y;
      Utf16LengthAppend(x[1..], y);
    } else {
      assert x + y == y;
    }
  }

  /** A substring is never longer, in UTF-16 units, than the string it is taken from. */
  lemma Utf16LengthSlice(s: string, a: int, b: int)
    requires 0 <= a <= b <= |s|
    ensures Utf16Length(s[a..b]) <= Utf16Length(s)
  {
    var p := s[..b];
    assert s == p + s[b..];
    Utf16LengthAppend(p, s[b..]);
    assert p == p[..a] + s[a..b];
    Utf16LengthAppend(p[..a], s[a..b]);
  }

  /** `trim` never makes a string longer, so a trimmed length bound follows from the
      untrimmed one. */
  lemma TrimNotLonger(s: string)
    ensures Utf16Length(Trim(s)) <= Utf16Length(s)
  {
    var a, b :| 0 <= a <= b <= |s| && Trim(s) == s[a..b];
    Utf16LengthSlice(s, a, b);
  }
}
