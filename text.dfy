/**
 * The few Python string built-ins the core relies on: `str.strip()`,
 * the substring test `needle in hay`, `str.endswith` and the ASCII part of
 * `str.lower()` (used to compare header names).
 */
module Text {

  /**
   * Python's `str.isspace()` for one character, written as ranges of code
   * points: TAB to CR, the four separators and SPACE (U+001C to U+0020),
   * NEL, NO-BREAK SPACE, OGHAM SPACE MARK, U+2000 to U+200A, the line and
   * paragraph separators, NARROW NO-BREAK SPACE, MEDIUM MATHEMATICAL SPACE
   * and IDEOGRAPHIC SPACE. These are the characters `str.strip()` removes.
   */
  predicate IsSpace(c: char)
  {
    if c <= ' ' then '\t' <= c <= '\r' || '\U{1C}' <= c
    else if c < '\U{2000}' then c == '\U{85}' || c == '\U{A0}' || c == '\U{1680}'
    else c <= '\U{200A}' || c == '\U{2028}' || c == '\U{2029}' || c == '\U{202F}' || c == '\U{205F}' || c == '\U{3000}'
  }

  /** Leading whitespace removed: the result is a suffix of `s`. */
  function StripStart(s: string): (r: string)
    ensures |r| <= |s| && r == s[|s| - |r|..]
  {
    if s != [] && IsSpace(s[0]) then StripStart(s[1..]) else s
  }

  /** Trailing whitespace removed: the result is a prefix of `s`. */
  function StripEnd(s: string): (r: string)
    ensures |r| <= |s| && r == s[..|r|]
  {
    if s != [] && IsSpace(s[|s| - 1]) then StripEnd(s[..|s| - 1]) else s
  }

  /** What `StripStart` cuts is whitespace, and what it keeps does not start with whitespace. */
  lemma {:induction false} StripStartCutsSpace(s: string)
    ensures forall k :: 0 <= k < |s| - |StripStart(s)| ==> IsSpace(s[k])
    ensures StripStart(s) != [] ==> !IsSpace(StripStart(s)[0])
    decreases |s|
  {
    if s != [] && IsSpace(s[0]) {
      var t := s[1..];
      StripStartCutsSpace(t);
      forall k | 0 < k < |s| - |StripStart(s)| ensures IsSpace(s[k]) {
        assert s[k] == t[k - 1];
      }
    }
  }

  /** What `StripEnd` cuts is whitespace, and what it keeps does not end with whitespace. */
  lemma {:induction false} StripEndCutsSpace(s: string)
    ensures forall k :: |StripEnd(s)| <= k < |s| ==> IsSpace(s[k])
    ensures StripEnd(s) != [] ==> !IsSpace(StripEnd(s)[|StripEnd(s)| - 1])
    decreases |s|
  {
    if s != [] && IsSpace(s[|s| - 1]) {
      var t := s[..|s| - 1];
      StripEndCutsSpace(t);
      forall k | |StripEnd(s)| <= k < |t| ensures IsSpace(s[k]) {
        assert s[k] == t[k];
      }
    }
  }

  /** Python's `s.strip()`. */
  function Strip(s: string): string
  {
    StripEnd(StripStart(s))
  }

  /** Where `Strip(s)` begins inside `s`: the length of the leading whitespace. */
  function StripOffset(s: string): nat
  {
    |s| - |StripStart(s)|
  }

  /** `Strip(s)` is a slice of `s` with only whitespace outside it and none at its two ends. */
  lemma StripIsTrimmedSlice(s: string)
    ensures StripOffset(s) + |Strip(s)| <= |s|
    ensures Strip(s) == s[StripOffset(s)..StripOffset(s) + |Strip(s)|]
    ensures forall k :: 0 <= k < StripOffset(s) ==> IsSpace(s[k])
    ensures forall k :: StripOffset(s) + |Strip(s)| <= k < |s| ==> IsSpace(s[k])
    ensures Strip(s) != [] ==> !IsSpace(Strip(s)[0]) && !IsSpace(Strip(s)[|Strip(s)| - 1])
  {
    var t, i := StripStart(s), StripOffset(s);
    assert t == s[i..];
    StripStartCutsSpace(s);
    StripEndOfSuffix(s, i);
    assert Strip(s) == StripEnd(s[i..]);
    StripEndsNotSpace(s);
  }

  /** Stripping the end of the suffix `s[i..]` leaves a slice of `s`, followed by whitespace only. */
  lemma StripEndOfSuffix(s: string, i: nat)
    requires i <= |s|
    ensures i + |StripEnd(s[i..])| <= |s|
    ensures StripEnd(s[i..]) == s[i..i + |StripEnd(s[i..])|]
    ensures forall k :: i + |StripEnd(s[i..])| <= k < |s| ==> IsSpace(s[k])
  {
    var t := s[i..];
    var r := StripEnd(t);
    StripEndCutsSpace(t);
    forall k | i + |r| <= k < |s| ensures IsSpace(s[k]) {
      assert s[k] == t[k - i];
    }
  }

  /** `Strip(s)`, when non-empty, neither starts nor ends with whitespace. */
  lemma StripEndsNotSpace(s: string)
    ensures Strip(s) != [] ==> !IsSpace(Strip(s)[0]) && !IsSpace(Strip(s)[|Strip(s)| - 1])
  {
    var t := StripStart(s);
    var r := StripEnd(t);
    StripStartCutsSpace(s);
    StripEndCutsSpace(t);
    if r != [] {
      assert r[0] == t[0];
    }
  }

  /** Stripping twice is stripping once. */
  lemma {:induction false} StripIdempotent(s: string)
    ensures Strip(Strip(s)) == Strip(s)
  {
    var r := Strip(s);
    StripIsTrimmedSlice(s);
    if r != [] {
      assert StripStart(r) == r;
      assert StripEnd(r) == r;
    }
  }

  /** `hay` begins with `prefix`, compared one character at a time. */
  predicate StartsWith(hay: string, prefix: string)
    decreases |prefix|
  {
    prefix == [] || (hay != [] && hay[0] == prefix[0] && StartsWith(hay[1..], prefix[1..]))
  }

  /** `StartsWith` is the slice test `hay[:len(prefix)] == prefix`. */
  lemma {:induction false} StartsWithIffSlice(hay: string, prefix: string)
    ensures StartsWith(hay, prefix) <==> |prefix| <= |hay| && hay[..|prefix|] == prefix
    decreases |prefix|
  {
    if prefix != [] && hay != [] {
      StartsWithIffSlice(hay[1..], prefix[1..]);
      if |prefix| <= |hay| {
        assert hay[..|prefix|] == [hay[0]] + hay[1..][..|prefix| - 1];
        assert prefix == [prefix[0]] + prefix[1..];
      }
    }
  }

  /** Python's `needle in hay` for strings: `needle` starts at some position of `hay`. */
  predicate Contains(hay: string, needle: string)
    decreases |hay|
  {
    StartsWith(hay, needle) || (hay != [] && Contains(hay[1..], needle))
  }

  /** `needle` appears in `hay` starting at index `i`. */
  predicate OccursAt(hay: string, needle: string, i: int)
  {
    0 <= i && i + |needle| <= |hay| && hay[i..i + |needle|] == needle
  }

  /** `Contains` finds the needle exactly when it occurs at some index of `hay`. */
  lemma {:induction false} ContainsIffOccurs(hay: string, needle: string)
    ensures Contains(hay, needle) <==> exists i :: OccursAt(hay, needle, i)
    decreases |hay|
  {
    StartsWithIffSlice(hay, needle);
    if StartsWith(hay, needle) {
      assert OccursAt(hay, needle, 0);
    } else if hay == [] {
      forall i ensures !OccursAt(hay, needle, i) { }
    } else {
      ContainsIffOccurs(hay[1..], needle);
      if Contains(hay[1..], needle) {
        var i :| OccursAt(hay[1..], needle, i);
        OccursShift(hay, needle, i + 1);
      } else {
        forall i ensures !OccursAt(hay, needle, i) {
          if i > 0 {
            OccursShift(hay, needle, i);
          } else if i == 0 && |needle| <= |hay| {
            assert hay[0..|needle|] == hay[..|needle|];
          }
        }
      }
    }
  }

  /** An occurrence at `i > 0` in `hay` is one at `i - 1` in `hay[1..]`. */
  lemma OccursShift(hay: string, needle: string, i: int)
    requires 0 < i && hay != []
    ensures OccursAt(hay, needle, i) <==> OccursAt(hay[1..], needle, i - 1)
  {
    if i + |needle| <= |hay| {
      assert hay[i..i + |needle|] == hay[1..][i - 1..i - 1 + |needle|];
    }
  }

  /** Re-bracketing a concatenation of three strings. */
  lemma StringAssoc(x: string, y: string, z: string)
    ensures (x + y) + z == x + (y + z)
  {
  }

  /** Python's `s.endswith(suffix)`: exact and case-sensitive. */
  predicate EndsWith(s: string, suffix: string)
  {
    |suffix| <= |s| && s[|s| - |suffix|..] == suffix
  }

  /** `str.lower()` restricted to ASCII letters: 'A'..'Z' become 'a'..'z', every other character is kept. */
  function LowerAscii(s: string): (r: string)
    ensures |r| == |s|
  {
    seq(|s|, i requires 0 <= i < |s| => if 'A' <= s[i] <= 'Z' then (s[i] as int + 32) as char else s[i])
  }
}
