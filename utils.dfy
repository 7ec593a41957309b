/**
 * The string utilities of `emailforwardparser/utils.py`: the character filter
 * `preprocess_string`, the flattening of regex match spans
 * `find_all_string_submatch_index`, and the group-preserving splitter
 * `split_with_regexp`.
 *
 * The regular-expression engine is not modelled. What `pattern.finditer(s)`
 * yields is an input: one sequence of spans per match, the whole-match span
 * first and then one span per capturing group, exactly what `match.span(g)`
 * returns for `g = 0, 1, ..., len(match.groups())`.
 */
module Utils {
  import opened Text

  // ---------------------------------------------------------------------------
  // is_graphic and preprocess_string
  // ---------------------------------------------------------------------------

  /** The category codes `is_graphic` accepts (one-letter codes, as written). */
  const GraphicCategories: set<string> := {"L", "M", "N", "P", "S", "Z"}

  /** The byte-order mark that `preprocess_string` removes. */
  const ByteOrderMark: char := '\U{FEFF}'

  /**
   * `is_graphic(char)`. The Unicode category table is a parameter: `category`
   * stands for `unicodedata.category`.
   */
  predicate IsGraphic(category: char -> string, c: char)
  {
    category(c) in GraphicCategories
  }

  /** The characters of `s` that satisfy `keep`, in order (a comprehension with a condition). */
  function KeepChars(s: string, keep: char -> bool): (r: string)
    ensures |r| <= |s|
    ensures forall k :: 0 <= k < |r| ==> keep(r[k]) && r[k] in s
    ensures (forall k :: 0 <= k < |s| ==> keep(s[k])) ==> r == s
  {
    if s == [] then []
    else (if keep(s[0]) then [s[0]] else []) + KeepChars(s[1..], keep)
  }

  /** Every character passing the test is kept as often as it occurs; every other one is dropped. */
  lemma {:induction false} KeepCharsCounts(s: string, keep: char -> bool)
    ensures forall c :: multiset(KeepChars(s, keep))[c] == if keep(c) then multiset(s)[c] else 0
    decreases |s|
  {
    if s != [] {
      assert s == [s[0]] + s[1..];
      KeepCharsCounts(s[1..], keep);
    }
  }

  /**
   * The filter works character by character and keeps their order: filtering
   * a concatenation is concatenating the filtered halves.
   */
  lemma {:induction false} KeepCharsAppend(a: string, b: string, keep: char -> bool)
    ensures KeepChars(a + b, keep) == KeepChars(a, keep) + KeepChars(b, keep)
    decreases |a|
  {
    if a != [] {
      assert (a + b)[1..] == a[1..] + b;
      KeepCharsAppend(a[1..], b, keep);
    } else {
      assert a + b == b;
    }
  }

  /**
   * `preprocess_string(s)`: keep the characters that are not graphic, then
   * replace the byte-order mark by the empty string, which for a
   * one-character pattern removes every occurrence of that character.
   */
  function PreprocessString(category: char -> string, s: string): (r: string)
    ensures |r| <= |s|
    ensures ByteOrderMark !in r
    ensures forall k :: 0 <= k < |r| ==> !IsGraphic(category, r[k]) && r[k] in s
  {
    var filtered := KeepChars(s, c => !IsGraphic(category, c));
    KeepChars(filtered, c => c != ByteOrderMark)
  }

  /**
   * `preprocess_string` keeps every character that is neither graphic nor the
   * byte-order mark as often as it occurs, and nothing else.
   */
  lemma PreprocessCounts(category: char -> string, s: string)
    ensures forall c :: multiset(PreprocessString(category, s))[c] ==
                        if !IsGraphic(category, c) && c != ByteOrderMark then multiset(s)[c] else 0
  {
    var p := c => !IsGraphic(category, c);
    var q := c => c != ByteOrderMark;
    KeepCharsCounts(s, p);
    KeepCharsCounts(KeepChars(s, p), q);
  }

  /** `preprocess_string` keeps the order of what it keeps: it distributes over concatenation. */
  lemma PreprocessAppend(category: char -> string, a: string, b: string)
    ensures PreprocessString(category, a + b) == PreprocessString(category, a) + PreprocessString(category, b)
  {
    var p := c => !IsGraphic(category, c);
    var q := c => c != ByteOrderMark;
    KeepCharsAppend(a, b, p);
    KeepCharsAppend(KeepChars(a, p), KeepChars(b, p), q);
  }

  /** Two filters in a row keep exactly what one filter with both conditions keeps. */
  lemma {:induction false} KeepCharsTwice(s: string, p: char -> bool, q: char -> bool)
    ensures KeepChars(KeepChars(s, p), q) == KeepChars(s, c => p(c) && q(c))
  {
    if s != [] {
      KeepCharsTwice(s[1..], p, q);
      var rest := KeepChars(s[1..], p);
      if p(s[0]) {
        assert KeepChars(s, p) == [s[0]] + rest;
        assert ([s[0]] + rest)[1..] == rest;
      } else {
        assert KeepChars(s, p) == rest;
      }
    }
  }

  /** Filters whose conditions agree on every character keep the same characters. */
  lemma {:induction false} KeepCharsAgree(s: string, p: char -> bool, q: char -> bool)
    requires forall c :: p(c) == q(c)
    ensures KeepChars(s, p) == KeepChars(s, q)
  {
    if s != [] {
      KeepCharsAgree(s[1..], p, q);
    }
  }

  /** `preprocess_string` is one filter: not graphic and not the byte-order mark. */
  lemma PreprocessIsOneFilter(category: char -> string, s: string)
    ensures PreprocessString(category, s) ==
      KeepChars(s, c => !IsGraphic(category, c) && c != ByteOrderMark)
  {
    var p := c => !IsGraphic(category, c);
    var q := c => c != ByteOrderMark;
    KeepCharsTwice(s, p, q);
    KeepCharsAgree(s, c => p(c) && q(c), c => !IsGraphic(category, c) && c != ByteOrderMark);
  }

  /** Running `preprocess_string` on its own output changes nothing. */
  lemma PreprocessIdempotent(category: char -> string, s: string)
    ensures PreprocessString(category, PreprocessString(category, s)) == PreprocessString(category, s)
  {
    var r := PreprocessString(category, s);
    PreprocessIsOneFilter(category, r);
    assert forall k :: 0 <= k < |r| ==> !IsGraphic(category, r[k]) && r[k] != ByteOrderMark;
  }

  /**
   * Every category `unicodedata.category` returns has two letters (`"Lu"`,
   * `"Zs"`, `"Cc"`, ...). With such a table no character is in the one-letter
   * set, so `is_graphic` is always false and `preprocess_string` only removes
   * the byte-order mark.
   */
  lemma TwoLetterCategoriesOnlyRemoveMark(category: char -> string, s: string)
    requires forall c :: |category(c)| == 2
    ensures forall c :: !IsGraphic(category, c)
    ensures PreprocessString(category, s) == KeepChars(s, c => c != ByteOrderMark)
  {
    forall c ensures !IsGraphic(category, c) {
      assert |category(c)| == 2;
    }
    var p := c => !IsGraphic(category, c);
    assert KeepChars(s, p) == s;
  }

  // ---------------------------------------------------------------------------
  // find_all_string_submatch_index
  // ---------------------------------------------------------------------------

  /** One `match.span(group)` pair: the slice `s[lo:hi]`. */
  datatype Span = Span(lo: int, hi: int)

  /** The spans of one match flattened into `[lo0, hi0, lo1, hi1, ...]`. */
  function Flatten(m: seq<Span>): (flat: seq<int>)
    ensures |flat| == 2 * |m|
  {
    if m == [] then [] else Flatten(m[..|m| - 1]) + [m[|m| - 1].lo, m[|m| - 1].hi]
  }

  /** Span `g` of a match sits at positions `2g` and `2g + 1` of its flattened form. */
  lemma {:induction false} FlattenAt(m: seq<Span>, g: nat)
    requires g < |m|
    ensures Flatten(m)[2 * g] == m[g].lo && Flatten(m)[2 * g + 1] == m[g].hi
  {
    if g < |m| - 1 {
      FlattenAt(m[..|m| - 1], g);
    }
  }

  lemma FlattenAppend(m: seq<Span>, x: Span)
    ensures Flatten(m + [x]) == Flatten(m) + [x.lo, x.hi]
  {
    assert (m + [x])[..|m|] == m;
  }

  /** Two neighbouring pairs of the flattened form are equal iff the two spans are. */
  lemma FlatPairsEqual(m: seq<Span>, j: nat)
    requires 0 < j < |m|
    ensures var flat := Flatten(m);
      (flat[2 * j] == flat[2 * j - 2] && flat[2 * j + 1] == flat[2 * j - 1]) <==> m[j] == m[j - 1]
  {
    FlattenAt(m, j);
    FlattenAt(m, j - 1);
  }

  /** Reads a flattened list back as pairs: `flat[2g], flat[2g + 1]` is span `g`. */
  function Pairs(flat: seq<int>): (m: seq<Span>)
    requires |flat| % 2 == 0
    ensures |m| == |flat| / 2
    decreases |flat|
  {
    if flat == [] then []
    else Pairs(flat[..|flat| - 2]) + [Span(flat[|flat| - 2], flat[|flat| - 1])]
  }

  /** Flattening loses nothing: the pairs of the flattened spans are the spans. */
  lemma {:induction false} PairsOfFlatten(m: seq<Span>)
    ensures Pairs(Flatten(m)) == m
  {
    if m != [] {
      var init := m[..|m| - 1];
      PairsOfFlatten(init);
      var flat := Flatten(m);
      assert flat[..|flat| - 2] == Flatten(init);
    }
  }

  /**
   * `find_all_string_submatch_index(pattern, s, n)` over the matches `found`
   * that `pattern.finditer(s)` yields: each match becomes its flattened spans,
   * and when `n > 0` the loop stops after `n` matches.
   */
  method FindAllStringSubmatchIndex(found: seq<seq<Span>>, n: int) returns (matches: seq<seq<int>>)
    ensures |matches| == if 0 < n < |found| then n else |found|
    ensures forall k :: 0 <= k < |matches| ==> matches[k] == Flatten(found[k])
  {
    matches := [];
    var k := 0;
    while k < |found|
      invariant 0 <= k <= |found|
      invariant |matches| == k
      invariant 0 < n ==> k < n
      invariant forall j :: 0 <= j < k ==> matches[j] == Flatten(found[j])
    {
      var spans := found[k];
      var flatIndices: seq<int> := [];
      for g := 0 to |spans|
        invariant flatIndices == Flatten(spans[..g])
      {
        assert spans[..g + 1][..g] == spans[..g];
        flatIndices := flatIndices + [spans[g].lo, spans[g].hi];
      }
      assert spans[..|spans|] == spans;
      matches := matches + [flatIndices];
      if n > 0 && |matches| >= n {
        break;
      }
      k := k + 1;
    }
  }

  // ---------------------------------------------------------------------------
  // split_with_regexp: specification
  // ---------------------------------------------------------------------------

  /** Python's reading of a slice bound `i` on a string of length `len`: negative counts from the end, then clipped. */
  function Bound(i: int, len: nat): (b: nat)
    ensures b <= len
    ensures 0 <= i <= len ==> b == i
  {
    if i < 0 then (if i + len < 0 then 0 else i + len)
    else if i > len then len
    else i
  }

  /** Python's `s[a:b]`. */
  function Slice(s: string, a: int, b: int): (r: string)
    ensures 0 <= a <= b <= |s| ==> r == s[a..b]
  {
    var i, j := Bound(a, |s|), Bound(b, |s|);
    if i <= j then s[i..j] else []
  }

  /** What a regex engine yields: every match has its whole-match span (group 0) first. */
  predicate WellFormed(found: seq<seq<Span>>)
  {
    forall k :: 0 <= k < |found| ==> found[k] != []
  }

  /**
   * The spans of one match that survive the de-duplication loop: the first,
   * and every later span that differs from the one right before it in the
   * match as given (not from the last span kept).
   */
  function Retained(m: seq<Span>): (r: seq<Span>)
    ensures |r| <= |m|
    ensures m != [] ==> r != [] && r[0] == m[0]
  {
    if |m| <= 1 then m
    else Retained(m[..|m| - 1]) + (if m[|m| - 1] == m[|m| - 2] then [] else [m[|m| - 1]])
  }

  /** Extending a match by one span keeps that span iff it differs from the span before it. */
  lemma RetainedExtend(m: seq<Span>, j: nat)
    requires j < |m|
    ensures Retained(m[..j + 1]) ==
      if j > 0 && m[j] == m[j - 1] then Retained(m[..j]) else Retained(m[..j]) + [m[j]]
  {
    var t := m[..j + 1];
    assert t[..j] == m[..j];
    assert t[j] == m[j];
    assert j > 0 ==> t[j - 1] == m[j - 1];
  }

  /** The retained spans of all matches, match after match. */
  function AllRetained(found: seq<seq<Span>>): (spans: seq<Span>)
  {
    if found == [] then []
    else AllRetained(found[..|found| - 1]) + Retained(found[|found| - 1])
  }

  /** The retained spans of one more match follow those of the matches before it. */
  lemma AllRetainedExtend(found: seq<seq<Span>>, k: nat)
    requires k < |found|
    ensures AllRetained(found[..k + 1]) == AllRetained(found[..k]) + Retained(found[k])
  {
    assert found[..k + 1][..k] == found[..k];
  }

  /** The retained spans of the first `k` matches begin the retained spans of all. */
  lemma {:induction false} AllRetainedPrefix(found: seq<seq<Span>>, k: nat)
    requires k <= |found|
    ensures |AllRetained(found[..k])| <= |AllRetained(found)|
    ensures AllRetained(found)[..|AllRetained(found[..k])|] == AllRetained(found[..k])
  {
    if k == |found| {
      assert found[..k] == found;
    } else {
      var init := found[..|found| - 1];
      assert init[..k] == found[..k];
      AllRetainedPrefix(init, k);
    }
  }

  /** Where the retained spans of match `k` begin among the retained spans of all matches, for `k` up to `|found|`. */
  function Offsets(found: seq<seq<Span>>): (bases: seq<nat>)
    ensures |bases| == |found| + 1
  {
    seq(|found| + 1, k requires 0 <= k <= |found| => |AllRetained(found[..k])|)
  }

  /**
   * The flattened retained spans of match `k` are, pair by pair, the
   * retained spans of all matches from offset `k` to offset `k + 1`.
   */
  predicate LaidAt(indices: seq<seq<int>>, spans: seq<Span>, bases: seq<nat>, k: nat)
    requires k < |indices| && |bases| == |indices| + 1
  {
    bases[k] <= bases[k + 1] <= |spans| && indices[k] == Flatten(spans[bases[k]..bases[k + 1]])
  }

  /** Every de-duplicated match lies along `spans` at its offset, and the offsets cover `spans`. */
  predicate Laid(indices: seq<seq<int>>, spans: seq<Span>, bases: seq<nat>)
  {
    |bases| == |indices| + 1 && bases[0] == 0 && bases[|indices|] == |spans| &&
    forall k: nat :: k < |indices| ==> LaidAt(indices, spans, bases, k)
  }

  /** The de-duplicated match `k` lies along the retained spans of all matches at its offset. */
  lemma OffsetsLaidAt(found: seq<seq<Span>>, indices: seq<seq<int>>, k: nat)
    requires |indices| == |found| && k < |found|
    requires indices[k] == Flatten(Retained(found[k]))
    ensures LaidAt(indices, AllRetained(found), Offsets(found), k)
  {
    var all, bases := AllRetained(found), Offsets(found);
    var pre, pre1, r := AllRetained(found[..k]), AllRetained(found[..k + 1]), Retained(found[k]);
    AllRetainedExtend(found, k);
    AllRetainedPrefix(found, k + 1);
    assert bases[k] == |pre| && bases[k + 1] == |pre1| == |pre| + |r|;
    assert all[..|pre1|] == pre + r;
    assert all[|pre|..|pre1|] == r;
  }

  /** The de-duplicated matches lie along the retained spans of all matches at their offsets. */
  lemma OffsetsLaid(found: seq<seq<Span>>, indices: seq<seq<int>>)
    requires |indices| == |found|
    requires forall k :: 0 <= k < |found| ==> indices[k] == Flatten(Retained(found[k]))
    ensures Laid(indices, AllRetained(found), Offsets(found))
  {
    var all, bases := AllRetained(found), Offsets(found);
    assert bases[0] == |AllRetained(found[..0])| && found[..0] == [];
    assert bases[|found|] == |AllRetained(found[..|found|])| && found[..|found|] == found;
    forall k: nat | k < |indices|
      ensures LaidAt(indices, all, bases, k)
    {
      OffsetsLaidAt(found, indices, k);
    }
  }

  /** `prev_index` once the first `n` spans are emitted: the end of span `n - 1`, or 0. */
  function EndAfter(spans: seq<Span>, n: nat): int
    requires n <= |spans|
  {
    if n == 0 then 0 else spans[n - 1].hi
  }

  /**
   * The strings the emitting loop appends for the first `n` spans: before
   * each span, the text since the previous span's end when that end lies
   * strictly before the span's start; then the span's own text.
   */
  function SpanTexts(s: string, spans: seq<Span>, n: nat): (r: seq<string>)
    requires n <= |spans|
  {
    if n == 0 then []
    else
      var x, p := spans[n - 1], EndAfter(spans, n - 1);
      SpanTexts(s, spans, n - 1) + (if p < x.lo then [Slice(s, p, x.lo)] else []) + [Slice(s, x.lo, x.hi)]
  }

  /**
   * `split_with_regexp(pattern, s)`, given the matches `found`: the whole
   * string when nothing matched; otherwise a leading `""` when the first
   * match starts at offset 0, the strings emitted for the retained spans,
   * and the text after the last of them when it ends before the end of `s`.
   */
  function Split(s: string, found: seq<seq<Span>>): seq<string>
    requires WellFormed(found)
  {
    if found == [] then [s]
    else
      var spans := AllRetained(found);
      var e := EndAfter(spans, |spans|);
      (if found[0][0].lo == 0 then [""] else []) + SpanTexts(s, spans, |spans|) +
      (if e < |s| then [Slice(s, e, |s|)] else [])
  }

  // ---------------------------------------------------------------------------
  // split_with_regexp: properties
  // ---------------------------------------------------------------------------

  /** Every span lies inside a string of length `len`, start before end. */
  predicate InRange(spans: seq<Span>, len: nat)
  {
    forall x :: x in spans ==> 0 <= x.lo <= x.hi <= len
  }

  /** What the regex engine promises about the spans of every match. */
  predicate MatchesInRange(found: seq<seq<Span>>, len: nat)
  {
    forall k :: 0 <= k < |found| ==> InRange(found[k], len)
  }

  /** Nothing matched: the result is the input alone. */
  lemma SplitNoMatch(s: string)
    ensures Split(s, []) == [s]
  {
  }

  /** Every retained span is a span of its match. */
  lemma {:induction false} RetainedFromMatch(m: seq<Span>)
    ensures forall x :: x in Retained(m) ==> x in m
  {
    if |m| > 1 {
      RetainedFromMatch(m[..|m| - 1]);
      assert forall x :: x in m[..|m| - 1] ==> x in m;
    }
  }

  /** Every retained span of all matches is a span of one of the matches. */
  lemma {:induction false} AllRetainedInRange(found: seq<seq<Span>>, len: nat)
    requires MatchesInRange(found, len)
    ensures InRange(AllRetained(found), len)
  {
    if found != [] {
      var init, m := found[..|found| - 1], found[|found| - 1];
      assert MatchesInRange(init, len) by {
        forall k | 0 <= k < |init| ensures InRange(init[k], len) {
          assert init[k] == found[k];
        }
      }
      AllRetainedInRange(init, len);
      RetainedFromMatch(m);
    }
  }

  /** The three-span examples: `A, A, A` keeps one span and `A, B, A` keeps all three. */
  lemma RetainedExamples(a: Span, b: Span)
    requires a != b
    ensures Retained([a, a, a]) == [a]
    ensures Retained([a, b, a]) == [a, b, a]
  {
    assert [a, a, a][..2] == [a, a];
    assert [a, a][..1] == [a];
    assert [a, b, a][..2] == [a, b];
    assert [a, b][..1] == [a];
  }

  /** The first retained span of all matches is the whole span of the first match. */
  lemma {:induction false} AllRetainedFirst(found: seq<seq<Span>>)
    requires WellFormed(found) && found != []
    ensures AllRetained(found) != [] && AllRetained(found)[0] == found[0][0]
  {
    AllRetainedPrefix(found, 1);
    assert found[..1][..0] == [];
    assert AllRetained(found[..1]) == Retained(found[0]);
  }

  /** The strings emitted for the first `m` spans begin those emitted for the first `n`. */
  lemma {:induction false} SpanTextsPrefix(s: string, spans: seq<Span>, m: nat, n: nat)
    requires m <= n <= |spans|
    ensures |SpanTexts(s, spans, m)| <= |SpanTexts(s, spans, n)|
    ensures SpanTexts(s, spans, n)[..|SpanTexts(s, spans, m)|] == SpanTexts(s, spans, m)
    decreases n
  {
    if m < n {
      SpanTextsPrefix(s, spans, m, n - 1);
      var a, b := SpanTexts(s, spans, m), SpanTexts(s, spans, n - 1);
      assert SpanTexts(s, spans, n)[..|b|] == b;
      assert SpanTexts(s, spans, n)[..|a|] == b[..|a|];
    }
  }

  /** The strings emitted for the first retained span: the text before it, when non-empty, then its text. */
  lemma FirstSpanTexts(s: string, found: seq<seq<Span>>)
    requires WellFormed(found) && found != []
    ensures var spans, x := AllRetained(found), found[0][0];
      var first := (if 0 < x.lo then [Slice(s, 0, x.lo)] else []) + [Slice(s, x.lo, x.hi)];
      var rest := SpanTexts(s, spans, |spans|) +
        (if EndAfter(spans, |spans|) < |s| then [Slice(s, EndAfter(spans, |spans|), |s|)] else []);
      |first| <= |rest| && rest[..|first|] == first
  {
    AllRetainedFirst(found);
    var spans, x := AllRetained(found), found[0][0];
    SpanTextsPrefix(s, spans, 1, |spans|);
    var gap: seq<string> := if 0 < x.lo then [Slice(s, 0, x.lo)] else [];
    assert SpanTexts(s, spans, 1) == [] + gap + [Slice(s, x.lo, x.hi)];
    assert [] + gap == gap;
    var mid, e := SpanTexts(s, spans, |spans|), EndAfter(spans, |spans|);
    var tail: seq<string> := if e < |s| then [Slice(s, e, |s|)] else [];
    assert (mid + tail)[..|SpanTexts(s, spans, 1)|] == mid[..|SpanTexts(s, spans, 1)|];
  }

  /** With the first match at offset 0, the result starts with `""` and then that match's text. */
  lemma SplitMatchAtStart(s: string, found: seq<seq<Span>>)
    requires WellFormed(found) && found != [] && found[0][0].lo == 0
    ensures var r := Split(s, found);
      |r| >= 2 && r[0] == "" && r[1] == Slice(s, 0, found[0][0].hi)
  {
    var spans, x := AllRetained(found), found[0][0];
    var e := EndAfter(spans, |spans|);
    var rest := SpanTexts(s, spans, |spans|) + (if e < |s| then [Slice(s, e, |s|)] else []);
    SplitParts(s, found);
    assert Split(s, found) == [""] + rest;
    FirstSpanTexts(s, found);
    var first := [] + [Slice(s, x.lo, x.hi)];
    assert rest[..|first|] == first;
    assert rest[0] == first[0];
  }

  /** With the first match later in the string, the result starts with the text before it and then its text. */
  lemma SplitMatchAfterStart(s: string, found: seq<seq<Span>>)
    requires WellFormed(found) && found != [] && found[0][0].lo > 0
    ensures var r, x := Split(s, found), found[0][0];
      |r| >= 2 && r[0] == Slice(s, 0, x.lo) && r[1] == Slice(s, x.lo, x.hi)
  {
    var spans, x := AllRetained(found), found[0][0];
    var e := EndAfter(spans, |spans|);
    var rest := SpanTexts(s, spans, |spans|) + (if e < |s| then [Slice(s, e, |s|)] else []);
    SplitParts(s, found);
    assert Split(s, found) == [] + rest;
    FirstSpanTexts(s, found);
    var first := [Slice(s, 0, x.lo)] + [Slice(s, x.lo, x.hi)];
    assert rest[..|first|] == first;
    assert rest[0] == first[0] && rest[1] == first[1];
  }

  /** How many of the first `n` spans are empty (zero-length matches or groups). */
  function EmptySpanCount(spans: seq<Span>, n: nat): nat
    requires n <= |spans|
  {
    if n == 0 then 0
    else EmptySpanCount(spans, n - 1) + (if spans[n - 1].lo == spans[n - 1].hi then 1 else 0)
  }

  /** How many of the strings are `""`. */
  function CountEmpty(ss: seq<string>): nat
  {
    if ss == [] then 0
    else CountEmpty(ss[..|ss| - 1]) + (if |ss[|ss| - 1]| == 0 then 1 else 0)
  }

  /** One more string adds one to the count exactly when it is empty. */
  lemma CountEmptySnoc(ss: seq<string>, x: string)
    ensures CountEmpty(ss + [x]) == CountEmpty(ss) + (if |x| == 0 then 1 else 0)
  {
    assert (ss + [x])[..|ss|] == ss;
  }

  /** The count over two lists one after the other is the sum of their counts. */
  lemma {:induction false} CountEmptyAppend(a: seq<string>, b: seq<string>)
    ensures CountEmpty(a + b) == CountEmpty(a) + CountEmpty(b)
    decreases |b|
  {
    if b == [] {
      assert a + b == a;
    } else {
      var b0, x := b[..|b| - 1], b[|b| - 1];
      assert b == b0 + [x];
      assert a + b == (a + b0) + [x];
      CountEmptyAppend(a, b0);
      CountEmptySnoc(a + b0, x);
      CountEmptySnoc(b0, x);
    }
  }

  /** A string that occurs in the list counts for one when it is empty. */
  lemma {:induction false} CountEmptyFinds(ss: seq<string>, i: nat)
    requires i < |ss| && ss[i] == ""
    ensures CountEmpty(ss) > 0
    decreases |ss|
  {
    if i < |ss| - 1 {
      CountEmptyFinds(ss[..|ss| - 1], i);
    }
  }

  /**
   * The emitting loop produces exactly one `""` per empty span: a text
   * between spans is emitted only when it is non-empty, and a span's text is
   * empty exactly when the span is.
   */
  lemma {:induction false} SpanTextsEmpty(s: string, spans: seq<Span>, n: nat)
    requires n <= |spans| && InRange(spans, |s|)
    ensures CountEmpty(SpanTexts(s, spans, n)) == EmptySpanCount(spans, n)
  {
    if n > 0 {
      SpanTextsEmpty(s, spans, n - 1);
      assert spans[n - 1] in spans;
      if n > 1 {
        assert spans[n - 2] in spans;
      }
      SpanTextsEmptyStep(s, spans, n);
    }
  }

  /** One more span adds one `""` when it is empty and none otherwise. */
  lemma SpanTextsEmptyStep(s: string, spans: seq<Span>, n: nat)
    requires 0 < n <= |spans|
    requires 0 <= EndAfter(spans, n - 1) <= |s| && 0 <= spans[n - 1].lo <= spans[n - 1].hi <= |s|
    ensures CountEmpty(SpanTexts(s, spans, n)) ==
      CountEmpty(SpanTexts(s, spans, n - 1)) + (if spans[n - 1].lo == spans[n - 1].hi then 1 else 0)
  {
    var x, p := spans[n - 1], EndAfter(spans, n - 1);
    var before := SpanTexts(s, spans, n - 1);
    var text := Slice(s, x.lo, x.hi);
    assert |text| == x.hi - x.lo;
    if p < x.lo {
      var gap := Slice(s, p, x.lo);
      assert |gap| == x.lo - p;
      assert SpanTexts(s, spans, n) == (before + [gap]) + [text];
      CountEmptySnoc(before, gap);
      CountEmptySnoc(before + [gap], text);
    } else {
      assert SpanTexts(s, spans, n) == before + [text];
      CountEmptySnoc(before, text);
    }
  }

  /**
   * The number of `""` in the result of `split_with_regexp` is one for a
   * first match at offset 0 plus the number of empty retained spans: no gap
   * text and no trailing text is ever empty.
   */
  lemma SplitEmptyStrings(s: string, found: seq<seq<Span>>)
    requires WellFormed(found) && MatchesInRange(found, |s|) && found != []
    ensures var spans := AllRetained(found);
      CountEmpty(Split(s, found)) == (if found[0][0].lo == 0 then 1 else 0) + EmptySpanCount(spans, |spans|)
  {
    var spans := AllRetained(found);
    AllRetainedInRange(found, |s|);
    SpanTextsEmpty(s, spans, |spans|);
    SplitParts(s, found);
    EndAfterInRange(spans, |s|);
    var e := EndAfter(spans, |spans|);
    PartsCount(found[0][0].lo == 0, SpanTexts(s, spans, |spans|), s, e);
  }

  /** The count over the leading `""`, the emitted texts and a trailing text that is never empty. */
  lemma PartsCount(lead: bool, mid: seq<string>, s: string, e: int)
    requires 0 <= e <= |s|
    ensures CountEmpty((if lead then [""] else []) + (mid + (if e < |s| then [Slice(s, e, |s|)] else []))) ==
      (if lead then 1 else 0) + CountEmpty(mid)
  {
    var head: seq<string> := if lead then [""] else [];
    var tail: seq<string> := if e < |s| then [Slice(s, e, |s|)] else [];
    assert CountEmpty(head) == (if lead then 1 else 0) by {
      CountEmptySnoc([], "");
      assert [] + [""] == [""];
    }
    assert CountEmpty(tail) == 0 by {
      if e < |s| {
        assert |Slice(s, e, |s|)| == |s| - e;
        CountEmptySnoc([], Slice(s, e, |s|));
        assert [] + tail == tail;
      }
    }
    CountEmptyAppend(mid, tail);
    CountEmptyAppend(head, mid + tail);
  }

  /**
   * Without empty retained spans the leading `""` for a match at offset 0
   * is the only empty string in the result.
   */
  lemma SplitEmptyOnlyLeading(s: string, found: seq<seq<Span>>)
    requires WellFormed(found) && MatchesInRange(found, |s|) && found != []
    requires EmptySpanCount(AllRetained(found), |AllRetained(found)|) == 0
    ensures forall i :: 0 <= i < |Split(s, found)| && Split(s, found)[i] == "" ==>
      i == 0 && found[0][0].lo == 0
  {
    var r := Split(s, found);
    SplitEmptyStrings(s, found);
    if found[0][0].lo == 0 {
      SplitMatchAtStart(s, found);
    }
    OnlyFirstEmpty(r, found[0][0].lo == 0);
  }

  /** A list whose only possible `""` is a leading one holds no other `""`. */
  lemma OnlyFirstEmpty(r: seq<string>, lead: bool)
    requires CountEmpty(r) == (if lead then 1 else 0)
    requires lead ==> r != [] && r[0] == ""
    ensures forall i :: 0 <= i < |r| && r[i] == "" ==> i == 0 && lead
  {
    if lead {
      var tail := r[1..];
      assert r == [""] + tail;
      CountEmptyAppend([""], tail);
      assert [""][..0] == [];
      NoneEmpty(tail);
      forall i | 0 < i < |r| ensures r[i] != "" {
        assert r[i] == tail[i - 1];
      }
    } else {
      NoneEmpty(r);
    }
  }

  /** A list whose count is zero holds no `""`. */
  lemma NoneEmpty(r: seq<string>)
    requires CountEmpty(r) == 0
    ensures forall i :: 0 <= i < |r| ==> r[i] != ""
  {
    forall i | 0 <= i < |r| ensures r[i] != "" {
      if r[i] == "" {
        CountEmptyFinds(r, i);
      }
    }
  }

  /**
   * The text after the last retained span is added exactly when that span
   * ends before the end of `s`, and it is then the last string of the result.
   */
  lemma SplitTrailingText(s: string, found: seq<seq<Span>>)
    requires WellFormed(found) && found != []
    ensures var r, spans := Split(s, found), AllRetained(found); var e := EndAfter(spans, |spans|);
      |r| == (if found[0][0].lo == 0 then 1 else 0) + |SpanTexts(s, spans, |spans|)| + (if e < |s| then 1 else 0) &&
      (e < |s| ==> r[|r| - 1] == Slice(s, e, |s|))
  {
    SplitParts(s, found);
  }

  /** `prev_index` never leaves the string when the spans do not. */
  lemma EndAfterInRange(spans: seq<Span>, len: nat)
    requires InRange(spans, len)
    ensures 0 <= EndAfter(spans, |spans|) <= len
  {
    if spans != [] {
      assert spans[|spans| - 1] in spans;
    }
  }

  /** The strings joined end to end. */
  function Concat(ss: seq<string>): (r: string)
  {
    if ss == [] then "" else Concat(ss[..|ss| - 1]) + ss[|ss| - 1]
  }

  lemma PrefixJoin(s: string, j: nat, k: nat)
    requires j <= k <= |s|
    ensures s[..j] + s[j..k] == s[..k]
  {
    assert s[..k] == s[..j] + s[j..k];
  }

  /**
   * Spans that follow each other without overlap, each starting at or
   * after the end of the one before it, inside a string of length `len`.
   */
  predicate Tiled(spans: seq<Span>, len: nat)
  {
    forall i :: 0 <= i < |spans| ==> EndAfter(spans, i) <= spans[i].lo <= spans[i].hi <= len
  }

  /** Joining one more string onto a list appends it to the joined text. */
  lemma ConcatSnoc(ss: seq<string>, x: string)
    ensures Concat(ss + [x]) == Concat(ss) + x
  {
    assert (ss + [x])[..|ss|] == ss;
  }

  /** One tiled span extends the joined text from the previous span's end to its own end. */
  lemma SpanTextsJoinStep(s: string, spans: seq<Span>, n: nat)
    requires 0 < n <= |spans|
    requires 0 <= EndAfter(spans, n - 1) <= spans[n - 1].lo <= spans[n - 1].hi <= |s|
    requires Concat(SpanTexts(s, spans, n - 1)) == s[..EndAfter(spans, n - 1)]
    ensures Concat(SpanTexts(s, spans, n)) == s[..EndAfter(spans, n)]
  {
    var x, p := spans[n - 1], EndAfter(spans, n - 1);
    var before := SpanTexts(s, spans, n - 1);
    PrefixJoin(s, x.lo, x.hi);
    if p < x.lo {
      assert SpanTexts(s, spans, n) == before + [s[p..x.lo]] + [s[x.lo..x.hi]];
      ConcatSnoc(before, s[p..x.lo]);
      ConcatSnoc(before + [s[p..x.lo]], s[x.lo..x.hi]);
      PrefixJoin(s, p, x.lo);
    } else {
      assert SpanTexts(s, spans, n) == before + [s[x.lo..x.hi]];
      ConcatSnoc(before, s[x.lo..x.hi]);
    }
  }

  /** Over tiled spans the emitted strings join to the text up to the end of the last span. */
  lemma {:induction false} SpanTextsJoin(s: string, spans: seq<Span>, n: nat)
    requires n <= |spans| && Tiled(spans, |s|)
    ensures 0 <= EndAfter(spans, n) <= |s|
    ensures Concat(SpanTexts(s, spans, n)) == s[..EndAfter(spans, n)]
  {
    if n > 0 {
      SpanTextsJoin(s, spans, n - 1);
      SpanTextsJoinStep(s, spans, n);
    }
  }

  /** The three parts of a non-empty result: the leading `""`, the emitted strings, the trailing text. */
  lemma SplitParts(s: string, found: seq<seq<Span>>)
    requires WellFormed(found) && found != []
    ensures var spans := AllRetained(found); var e := EndAfter(spans, |spans|);
      Split(s, found) ==
        (if found[0][0].lo == 0 then [""] else []) +
        (SpanTexts(s, spans, |spans|) + (if e < |s| then [Slice(s, e, |s|)] else []))
  {
  }

  /**
   * When the retained spans are tiled, the result of `split_with_regexp`
   * joins back to the input.
   */
  lemma SplitLossless(s: string, found: seq<seq<Span>>)
    requires WellFormed(found) && Tiled(AllRetained(found), |s|)
    ensures Concat(Split(s, found)) == s
  {
    if found != [] {
      var spans := AllRetained(found);
      var e := EndAfter(spans, |spans|);
      var lead: seq<string> := if found[0][0].lo == 0 then [""] else [];
      var mid := SpanTexts(s, spans, |spans|);
      SpanTextsJoin(s, spans, |spans|);
      LeadJoin(lead, mid);
      if e < |s| {
        assert Split(s, found) == lead + mid + [s[e..|s|]];
        ConcatSnoc(lead + mid, s[e..|s|]);
        PrefixJoin(s, e, |s|);
        assert s[..|s|] == s;
      } else {
        assert Split(s, found) == lead + mid;
        assert s[..e] == s;
      }
    }
  }

  /** The leading `""`, when there is one, adds nothing to the joined text. */
  lemma LeadJoin(lead: seq<string>, mid: seq<string>)
    requires lead == [] || lead == [""]
    ensures Concat(lead + mid) == Concat(mid)
    decreases |mid|
  {
    if lead == [] {
      assert lead + mid == mid;
    } else if mid == [] {
      assert lead + mid == [""];
      assert [""][..0] == [];
    } else {
      var init := mid[..|mid| - 1];
      assert (lead + mid)[..|lead + mid| - 1] == lead + init;
      LeadJoin(lead, init);
    }
  }

  /** A match none of whose groups differs from its whole span is retained as that span alone. */
  lemma {:induction false} RetainedWholeOnly(m: seq<Span>)
    requires m != [] && forall i :: 0 <= i < |m| ==> m[i] == m[0]
    ensures Retained(m) == [m[0]]
  {
    if |m| > 1 {
      RetainedWholeOnly(m[..|m| - 1]);
    }
  }

  /** When no match has a group that differs from its whole span, the retained spans are the whole spans. */
  lemma {:induction false} AllRetainedWholeOnly(found: seq<seq<Span>>)
    requires WellFormed(found)
    requires forall k, i :: 0 <= k < |found| && 0 <= i < |found[k]| ==> found[k][i] == found[k][0]
    ensures |AllRetained(found)| == |found|
    ensures forall k :: 0 <= k < |found| ==> AllRetained(found)[k] == found[k][0]
  {
    if found != [] {
      var init := found[..|found| - 1];
      assert forall k :: 0 <= k < |init| ==> init[k] == found[k];
      AllRetainedWholeOnly(init);
      RetainedWholeOnly(found[|found| - 1]);
    }
  }

  /**
   * Losslessness for patterns whose retained spans are whole-match spans:
   * when every group captures exactly its whole match (or there are no
   * groups) and the whole-match spans are increasing and do not overlap,
   * the result joins back to the input.
   */
  lemma SplitLosslessWholeMatches(s: string, found: seq<seq<Span>>)
    requires WellFormed(found)
    requires forall k, i :: 0 <= k < |found| && 0 <= i < |found[k]| ==> found[k][i] == found[k][0]
    requires forall k :: 0 <= k < |found| ==> 0 <= found[k][0].lo <= found[k][0].hi <= |s|
    requires forall k :: 0 < k < |found| ==> found[k - 1][0].hi <= found[k][0].lo
    ensures Concat(Split(s, found)) == s
  {
    AllRetainedWholeOnly(found);
    var spans := AllRetained(found);
    forall i | 0 <= i < |spans| ensures EndAfter(spans, i) <= spans[i].lo <= spans[i].hi <= |s| {
      assert spans[i] == found[i][0];
      if i > 0 {
        assert spans[i - 1] == found[i - 1][0];
      }
    }
    SplitLossless(s, found);
  }

  /**
   * A group strictly inside its match is emitted a second time: on `"ab"`
   * with one match `(0, 2)` whose group spans `(0, 1)`, the result is
   * `["", "ab", "a", "b"]` (the group's text, then the text after the
   * group's end), which joins to `"abab"`.
   */
  lemma GroupInsideMatchRepeats()
    ensures Split("ab", [[Span(0, 2), Span(0, 1)]]) == ["", "ab", "a", "b"]
    ensures Concat(Split("ab", [[Span(0, 2), Span(0, 1)]])) == "abab"
  {
    var m := [Span(0, 2), Span(0, 1)];
    GroupInsideRetained();
    assert "ab"[0..2] == "ab" && "ab"[0..1] == "a" && "ab"[1..2] == "b";
    assert SpanTexts("ab", m, 1) == ["ab"];
    assert SpanTexts("ab", m, 2) == ["ab", "a"];
    GroupInsideJoin();
  }

  lemma GroupInsideRetained()
    ensures AllRetained([[Span(0, 2), Span(0, 1)]]) == [Span(0, 2), Span(0, 1)]
  {
    var m := [Span(0, 2), Span(0, 1)];
    assert m[..1] == [Span(0, 2)];
    var found := [m];
    assert found[..0] == [];
  }

  lemma GroupInsideJoin()
    ensures Concat(["", "ab", "a", "b"]) == "abab"
  {
    var r1, r2, r3 := [""], ["", "ab"], ["", "ab", "a"];
    assert r2[..1] == r1 && r3[..2] == r2 && ["", "ab", "a", "b"][..3] == r3;
    assert Concat(r1) == "" by { assert r1[..0] == []; }
    assert Concat(r2) == "ab";
    assert Concat(r3) == "ab" + "a";
    assert "ab" + "a" + "b" == "abab";
  }

  // ---------------------------------------------------------------------------
  // split_with_regexp: the imperative loops
  // ---------------------------------------------------------------------------

  /**
   * The first `n` pairs of a flattened match after de-duplication, read
   * directly off the integers: pair `j` is kept unless it equals pair `j - 1`.
   */
  function DedupPairs(flat: seq<int>, n: nat): seq<int>
    requires 2 * n <= |flat|
  {
    if n == 0 then []
    else
      var j := n - 1;
      DedupPairs(flat, j) +
      (if j > 0 && flat[2 * j] == flat[2 * j - 2] && flat[2 * j + 1] == flat[2 * j - 1] then []
       else [flat[2 * j], flat[2 * j + 1]])
  }

  /** De-duplicating the flattened spans is flattening the retained spans. */
  lemma {:induction false} DedupPairsIsRetained(m: seq<Span>, n: nat)
    requires n <= |m|
    ensures DedupPairs(Flatten(m), n) == Flatten(Retained(m[..n]))
  {
    if n > 0 {
      var flat, j := Flatten(m), n - 1;
      DedupPairsIsRetained(m, j);
      var repeated := j > 0 && flat[2 * j] == flat[2 * j - 2] && flat[2 * j + 1] == flat[2 * j - 1];
      var kept := DedupPairs(flat, j);
      assert DedupPairs(flat, n) == kept + (if repeated then [] else [flat[2 * j], flat[2 * j + 1]]);
      DropPairStep(m, j, kept, repeated);
      assert m[..j + 1] == m[..n];
    }
  }

  /** De-duplicating a whole flattened match gives its flattened retained spans. */
  lemma DedupMatch(m: seq<Span>)
    ensures |Flatten(m)| % 2 == 0
    ensures DedupPairs(Flatten(m), |Flatten(m)| / 2) == Flatten(Retained(m))
  {
    assert |Flatten(m)| / 2 == |m|;
    DedupPairsIsRetained(m, |m|);
    assert m[..|m|] == m;
  }

  /**
   * The inner de-duplication loop of `split_with_regexp`, over the flattened
   * spans `indices` of one match: a pair is kept unless it equals the pair
   * right before it.
   */
  method DropRepeatedPairs(indices: seq<int>) returns (newIndicie: seq<int>)
    requires |indices| % 2 == 0
    ensures newIndicie == DedupPairs(indices, |indices| / 2)
  {
    newIndicie := [];
    for j := 0 to |indices| / 2
      invariant newIndicie == DedupPairs(indices, j)
    {
      var i := 2 * j;
      var ia, ib := indices[i], indices[i + 1];
      var repeated := false;
      if i > 0 {
        var ya, yb := indices[i - 2], indices[i - 1];
        repeated := ia == ya && ib == yb;
      }
      if !repeated {
        newIndicie := newIndicie + [ia, ib];
      }
    }
  }

  /**
   * One pass of the inner de-duplication loop: pair `j` of the flattened
   * match is appended unless it equals pair `j - 1`, and that extends the
   * retained spans of the first `j` spans to those of the first `j + 1`.
   */
  lemma DropPairStep(m: seq<Span>, j: nat, kept: seq<int>, repeated: bool)
    requires j < |m| && kept == Flatten(Retained(m[..j]))
    requires var flat := Flatten(m);
      repeated == (j > 0 && flat[2 * j] == flat[2 * j - 2] && flat[2 * j + 1] == flat[2 * j - 1])
    ensures var flat := Flatten(m);
      kept + (if repeated then [] else [flat[2 * j], flat[2 * j + 1]]) == Flatten(Retained(m[..j + 1]))
  {
    FlattenAt(m, j);
    if j > 0 {
      FlatPairsEqual(m, j);
    }
    RetainedExtend(m, j);
    FlattenAppend(Retained(m[..j]), m[j]);
    if repeated {
      assert kept + [] == kept;
    }
  }

  /**
   * The de-duplication loop of `split_with_regexp`: every flattened match
   * is replaced by its retained pairs.
   */
  method DropRepeatedSpans(found: seq<seq<Span>>, splitIndices: seq<seq<int>>)
    returns (newSplitIndices: seq<seq<int>>)
    requires |splitIndices| == |found|
    requires forall k :: 0 <= k < |found| ==> splitIndices[k] == Flatten(found[k])
    ensures |newSplitIndices| == |found|
    ensures forall k :: 0 <= k < |found| ==> newSplitIndices[k] == Flatten(Retained(found[k]))
  {
    newSplitIndices := [];
    var k := 0;
    while k < |splitIndices|
      invariant 0 <= k <= |splitIndices|
      invariant |newSplitIndices| == k
      invariant forall j :: 0 <= j < k ==> newSplitIndices[j] == Flatten(Retained(found[j]))
    {
      var newIndicie := DropRepeatedPairs(splitIndices[k]);
      DedupMatch(found[k]);
      newSplitIndices := newSplitIndices + [newIndicie];
      k := k + 1;
    }
  }

  /**
   * The inner emitting loop of `split_with_regexp`, over the de-duplicated
   * pairs `indices` of one match: per pair, the text since `prevIndex` when
   * it lies strictly before the pair's start, then the pair's own text.
   * The pairs are spans `base` to `base + count - 1` of `spans`, and
   * `result` and `prevIndex` carry over from the spans before them.
   */
  method EmitMatch(s: string, indices: seq<int>, result0: seq<string>, prev0: int,
                   ghost lead: seq<string>, ghost spans: seq<Span>, ghost base: nat, ghost count: nat)
    returns (result: seq<string>, prevIndex: int)
    requires |indices| == 2 * count && base + count <= |spans|
    requires indices == Flatten(spans[base..base + count])
    requires prev0 == EndAfter(spans, base)
    requires result0 == lead + SpanTexts(s, spans, base)
    ensures prevIndex == EndAfter(spans, base + count)
    ensures result == lead + SpanTexts(s, spans, base + count)
  {
    result, prevIndex := result0, prev0;
    assert |indices| / 2 == count;
    for j := 0 to |indices| / 2
      invariant prevIndex == EndAfter(spans, base + j)
      invariant result == lead + SpanTexts(s, spans, base + j)
    {
      var ia, ib := indices[2 * j], indices[2 * j + 1];
      EmitStep(s, indices, lead, spans, base, count, j, result, prevIndex);
      if prevIndex < ia {
        result := result + [Slice(s, prevIndex, ia)];
      }
      result := result + [Slice(s, ia, ib)];
      prevIndex := ib;
    }
  }

  /** One pass of the inner emitting loop extends the output by the strings of span `base + j`. */
  lemma EmitStep(s: string, indices: seq<int>, lead: seq<string>, spans: seq<Span>, base: nat, count: nat,
                 j: nat, result: seq<string>, prevIndex: int)
    requires j < count && base + count <= |spans|
    requires indices == Flatten(spans[base..base + count])
    requires prevIndex == EndAfter(spans, base + j)
    requires result == lead + SpanTexts(s, spans, base + j)
    ensures var ia, ib := indices[2 * j], indices[2 * j + 1];
      ib == EndAfter(spans, base + j + 1) &&
      (if prevIndex < ia then result + [Slice(s, prevIndex, ia)] else result) + [Slice(s, ia, ib)] ==
        lead + SpanTexts(s, spans, base + j + 1)
  {
    var x := spans[base + j];
    FlattenAt(spans[base..base + count], j);
    assert spans[base..base + count][j] == x;
  }

  /**
   * The emitting loop of `split_with_regexp` over the de-duplicated spans:
   * the leading `""` for a match at offset 0, then the spans of each match
   * in turn, then the text after the last span.
   */
  method EmitSpans(s: string, splitIndices: seq<seq<int>>, ghost spans: seq<Span>, ghost bases: seq<nat>)
    returns (result: seq<string>)
    requires splitIndices != [] && splitIndices[0] != []
    requires Laid(splitIndices, spans, bases)
    ensures result == (if splitIndices[0][0] == 0 then [""] else []) + SpanTexts(s, spans, |spans|) +
      (if EndAfter(spans, |spans|) < |s| then [Slice(s, EndAfter(spans, |spans|), |s|)] else [])
  {
    result := [];
    if splitIndices[0][0] == 0 {
      result := result + [""];
    }
    ghost var lead := result;
    var prevIndex := 0;
    for k := 0 to |splitIndices|
      invariant bases[k] <= |spans|
      invariant prevIndex == EndAfter(spans, bases[k])
      invariant result == lead + SpanTexts(s, spans, bases[k])
    {
      LaidMatch(splitIndices, spans, bases, k);
      ghost var count := bases[k + 1] - bases[k];
      result, prevIndex := EmitMatch(s, splitIndices[k], result, prevIndex, lead, spans, bases[k], count);
    }
    assert bases[|splitIndices|] == |spans|;
    if prevIndex < |s| {
      result := result + [Slice(s, prevIndex, |s|)];
    }
  }

  /** Match `k` of a laid-out list is the flattened spans from its offset to the next one. */
  lemma LaidMatch(indices: seq<seq<int>>, spans: seq<Span>, bases: seq<nat>, k: nat)
    requires Laid(indices, spans, bases) && k < |indices|
    ensures bases[k] <= bases[k + 1] <= |spans|
    ensures |indices[k]| == 2 * (bases[k + 1] - bases[k])
    ensures indices[k] == Flatten(spans[bases[k]..bases[k + 1]])
  {
    assert LaidAt(indices, spans, bases, k);
  }

  /**
   * `split_with_regexp(pattern, s)`: flatten the match spans, drop every span
   * equal to the one before it in its match, then emit gaps, span texts and
   * the trailing text in one pass, tracking the end of the last span emitted.
   */
  method SplitWithRegexp(s: string, found: seq<seq<Span>>) returns (result: seq<string>)
    requires WellFormed(found)
    ensures result == Split(s, found)
  {
    var splitIndices := FindAllStringSubmatchIndex(found, -1);
    if |splitIndices| == 0 {
      return [s];
    }
    splitIndices := DropRepeatedSpans(found, splitIndices);
    OffsetsLaid(found, splitIndices);
    FlattenAt(Retained(found[0]), 0);
    result := EmitSpans(s, splitIndices, AllRetained(found), Offsets(found));
  }
}
