/** The JavaScript string operations the dashboard relies on: `trim`, `startsWith`,
    `toLowerCase` (ASCII letters only) and `includes`. */
module Text {

  /** The characters `String.prototype.trim` removes: ECMAScript WhiteSpace and LineTerminator. */
  predicate IsWhitespace(c: char)
  {
    c == ' ' || c == '\t' || c == '\n' || c == '\r' || c == '\U{B}' || c == '\U{C}'
    || c == '\U{A0}' || c == '\U{FEFF}' || c == '\U{1680}' || ('\U{2000}' <= c <= '\U{200A}')
    || c == '\U{2028}' || c == '\U{2029}' || c == '\U{202F}' || c == '\U{205F}' || c == '\U{3000}'
  }

  /** Neither end of `s` is whitespace. */
  predicate IsTrimmed(s: string)
  {
    s == [] || (!IsWhitespace(s[0]) && !IsWhitespace(s[|s| - 1]))
  }

  ghost predicate AllWhitespace(s: string)
  {
    forall i :: 0 <= i < |s| ==> IsWhitespace(s[i])
  }

  /** `s` is `r` with the whitespace-only run `s[..i]` before it and a whitespace-only run after it. */
  ghost predicate FramedBy(s: string, r: string, i: int)
  {
    0 <= i && i + |r| <= |s| && s[i..i + |r|] == r
    && AllWhitespace(s[..i]) && AllWhitespace(s[i + |r|..])
  }

  /** Every string is framed in itself by two empty runs. */
  lemma FramedByWhole(s: string)
    ensures FramedBy(s, s, 0)
  {
    assert s[0..|s|] == s;
  }

  /** `s` minus a whitespace-only prefix, stopping at the first other character. */
  function TrimStart(s: string): (r: string)
    ensures |r| <= |s| && FramedBy(s, r, |s| - |r|)
    ensures r == [] || !IsWhitespace(r[0])
  {
    if s != [] && IsWhitespace(s[0]) then
      var r := TrimStart(s[1..]);
      StripOneLeading(s, r);
      r
    else
      FramedByWhole(s);
      s
  }

  /** A whitespace character in front of a framed suffix extends the whitespace-only prefix. */
  lemma StripOneLeading(s: string, r: string)
    requires s != [] && IsWhitespace(s[0])
    requires |r| <= |s[1..]| && FramedBy(s[1..], r, |s[1..]| - |r|)
    ensures FramedBy(s, r, |s| - |r|)
  {
    var t, k := s[1..], |s| - |r|;
    assert t[k - 1..] == s[k..];
    forall i | 0 <= i < k ensures IsWhitespace(s[..k][i]) {
      if i > 0 {
        assert s[..k][i] == t[..k - 1][i - 1];
      }
    }
  }

  /** `s` minus a whitespace-only suffix, stopping at the last other character. */
  function TrimEnd(s: string): (r: string)
    ensures |r| <= |s| && FramedBy(s, r, 0)
    ensures r == [] || !IsWhitespace(r[|r| - 1])
  {
    if s != [] && IsWhitespace(s[|s| - 1]) then
      var r := TrimEnd(s[..|s| - 1]);
      StripOneTrailing(s, r);
      r
    else
      FramedByWhole(s);
      s
  }

  /** A whitespace character after a framed prefix extends the whitespace-only suffix. */
  lemma StripOneTrailing(s: string, r: string)
    requires s != [] && IsWhitespace(s[|s| - 1])
    requires |r| <= |s| - 1 && FramedBy(s[..|s| - 1], r, 0)
    ensures FramedBy(s, r, 0)
  {
    var t := s[..|s| - 1];
    assert t[0..|r|] == s[0..|r|];
    assert s[|r|..] == t[|r|..] + [s[|s| - 1]];
  }

  /** `String.prototype.trim`: `s` without its leading and trailing whitespace. */
  function Trim(s: string): (r: string)
    ensures IsTrimmed(r)
    ensures exists i :: FramedBy(s, r, i)
  {
    var t := TrimStart(s);
    var r := TrimEnd(t);
    TrimFrame(s, t, r);
    assert FramedBy(s, r, |s| - |t|);
    r
  }

  /** A suffix left by stripping a whitespace prefix, then a prefix of it left by stripping a
      whitespace suffix, is framed by whitespace in the original. */
  lemma TrimFrame(s: string, t: string, r: string)
    requires |t| <= |s| && FramedBy(s, t, |s| - |t|)
    requires |r| <= |t| && FramedBy(t, r, 0)
    requires t == [] || !IsWhitespace(t[0])
    requires r == [] || !IsWhitespace(r[|r| - 1])
    ensures FramedBy(s, r, |s| - |t|)
    ensures IsTrimmed(r)
  {
    var i := |s| - |t|;
    assert t == s[i..];
    assert s[i..i + |r|] == r;
    assert s[i + |r|..] == t[|r|..];
    if r != [] {
      assert r[0] == t[0];
    }
  }

  /** A string without whitespace at its ends is its own trim. */
  lemma TrimOfTrimmed(s: string)
    requires IsTrimmed(s)
    ensures Trim(s) == s
  {
  }

  lemma TrimIdempotent(s: string)
    ensures Trim(Trim(s)) == Trim(s)
  {
    TrimOfTrimmed(Trim(s));
  }

  /** `String.prototype.startsWith`. */
  predicate StartsWith(s: string, prefix: string)
  {
    prefix <= s
  }

  /** `startsWith` holds exactly when the first `|prefix|` characters of `s` spell `prefix`. */
  lemma StartsWithMeaning(s: string, prefix: string)
    ensures StartsWith(s, prefix) <==> |prefix| <= |s| && s[..|prefix|] == prefix
  {
  }

  /** `toLowerCase` restricted to the ASCII letters. */
  function LowerChar(c: char): (d: char)
    ensures !('A' <= d <= 'Z')
    ensures 'A' <= c <= 'Z' ==> d as int == c as int + 32
    ensures !('A' <= c <= 'Z') ==> d == c
  {
    if 'A' <= c <= 'Z' then (c as int + 32) as char else c
  }

  function Lower(s: string): (r: string)
    ensures |r| == |s|
    ensures forall i :: 0 <= i < |s| ==> r[i] == LowerChar(s[i])
  {
    if s == [] then [] else [LowerChar(s[0])] + Lower(s[1..])
  }

  /** Lower-casing is idempotent. */
  lemma LowerIdempotent(s: string)
    ensures Lower(Lower(s)) == Lower(s)
  {
  }

  /** `sub` occurs in `s` starting at index `i`. */
  ghost predicate OccursAt(s: string, sub: string, i: int)
  {
    0 <= i && i + |sub| <= |s| && s[i..i + |sub|] == sub
  }

  /** `String.prototype.includes`, by scanning the start positions of `s` left to right. */
  function Includes(s: string, sub: string): (r: bool)
    ensures sub == [] ==> r
    ensures StartsWith(s, sub) ==> r
    ensures r ==> |sub| <= |s|
    decreases |s|
  {
    if StartsWith(s, sub) then true
    else if s == [] then false
    else Includes(s[1..], sub)
  }

  /** `Includes` holds exactly when `sub` occurs somewhere in `s`. */
  lemma {:induction false} IncludesMeaning(s: string, sub: string)
    ensures Includes(s, sub) <==> exists i :: OccursAt(s, sub, i)
    decreases |s|
  {
    if StartsWith(s, sub) {
      assert OccursAt(s, sub, 0);
    } else if s == [] {
    } else {
      IncludesMeaning(s[1..], sub);
      assert !OccursAt(s, sub, 0);
      forall i | OccursAt(s, sub, i)
        ensures OccursAt(s[1..], sub, i - 1)
      {
        assert s[1..][i - 1..i - 1 + |sub|] == s[i..i + |sub|];
      }
      forall i | OccursAt(s[1..], sub, i)
        ensures OccursAt(s, sub, i + 1)
      {
        assert s[1..][i..i + |sub|] == s[i + 1..i + 1 + |sub|];
      }
    }
  }
}
