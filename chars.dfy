// The JavaScript string built-ins the core relies on: case mapping,
// global literal replacement, split, join, trim and number formatting.

module Chars {

  /** `toUpperCase` on one character, for the lower-case letters of ASCII and
      Latin-1: those with a Latin-1 capital move down by 32, `ÿ` becomes
      `Ÿ` (U+0178) and the micro sign `µ` becomes Greek `Μ` (U+039C). */
  function UpperChar(c: char): char {
    if 'a' <= c <= 'z' || ('\U{00E0}' <= c <= '\U{00FE}' && c != '\U{00F7}') then
      (c as int - 32) as char
    else if c == '\U{00FF}' then
      '\U{0178}'
    else if c == '\U{00B5}' then
      '\U{039C}'
    else
      c
  }

  /** `toLowerCase` on one character, for the capitals of ASCII and Latin-1
      and for `Ÿ` (U+0178), whose small letter is in Latin-1. */
  function LowerChar(c: char): char {
    if 'A' <= c <= 'Z' || ('\U{00C0}' <= c <= '\U{00DE}' && c != '\U{00D7}') then
      (c as int + 32) as char
    else if c == '\U{0178}' then
      '\U{00FF}'
    else
      c
  }

  function Upper(s: string): (r: string)
    ensures |r| == |s|
    ensures forall i :: 0 <= i < |s| ==> r[i] == UpperChar(s[i])
  {
    seq(|s|, i requires 0 <= i < |s| => UpperChar(s[i]))
  }

  function Lower(s: string): (r: string)
    ensures |r| == |s|
    ensures forall i :: 0 <= i < |s| ==> r[i] == LowerChar(s[i])
  {
    seq(|s|, i requires 0 <= i < |s| => LowerChar(s[i]))
  }

  /** A text is upper-case when upper-casing leaves every character as it is. */
  predicate IsUpperText(s: string) {
    forall i :: 0 <= i < |s| ==> UpperChar(s[i]) == s[i]
  }

  lemma UpperCharIdempotent(c: char)
    ensures UpperChar(UpperChar(c)) == UpperChar(c)
  {
  }

  lemma UpperIsUpperText(s: string)
    ensures IsUpperText(Upper(s))
    ensures Upper(Upper(s)) == Upper(s)
  {
    forall i | 0 <= i < |s| ensures UpperChar(Upper(s)[i]) == Upper(s)[i] {
      UpperCharIdempotent(s[i]);
    }
  }

  lemma UpperOfUpperText(s: string)
    requires IsUpperText(s)
    ensures Upper(s) == s
  {
  }

  lemma UpperConcat(a: string, b: string)
    ensures Upper(a + b) == Upper(a) + Upper(b)
  {
  }

  /** Characters that case mapping leaves alone and that it never produces. */
  lemma UpperCharKeepsNonLetters(c: char)
    requires c < 'A' || c == '\U{00A3}' || c == '\U{00A2}' || c == '\U{00A7}' || c == '\U{00AC}'
    ensures UpperChar(c) == c && LowerChar(c) == c
    ensures forall d :: UpperChar(d) == c ==> d == c
    ensures forall d :: LowerChar(d) == c ==> d == c
  {
  }

  /** JavaScript white space as matched by `\s` and removed by `trim`. */
  predicate IsSpace(c: char) {
    c == ' ' || c == '\t' || c == '\n' || c == '\r' || c == '\U{000B}' || c == '\U{000C}'
    || c == '\U{00A0}' || c == '\U{1680}' || ('\U{2000}' <= c <= '\U{200A}')
    || c == '\U{2028}' || c == '\U{2029}' || c == '\U{202F}' || c == '\U{205F}'
    || c == '\U{3000}' || c == '\U{FEFF}'
  }

  /** `s.replace(/pat/g, rep)` for a literal pattern: leftmost, non-overlapping. */
  function ReplaceAll(s: string, pat: string, rep: string): string
    requires pat != []
    decreases |s|
  {
    if |s| < |pat| then s
    else if s[..|pat|] == pat then rep + ReplaceAll(s[|pat|..], pat, rep)
    else [s[0]] + ReplaceAll(s[1..], pat, rep)
  }

  /** Replacement introduces no character that is in neither the text nor the replacement. */
  lemma {:induction false} ReplaceAllChars(s: string, pat: string, rep: string, c: char)
    requires pat != []
    requires c in ReplaceAll(s, pat, rep)
    ensures c in s || c in rep
    decreases |s|
  {
    if |s| < |pat| {
    } else if s[..|pat|] == pat {
      if c !in rep {
        ReplaceAllChars(s[|pat|..], pat, rep, c);
        assert s[|pat|..] == s[|pat|..];
      }
    } else {
      if c != s[0] {
        ReplaceAllChars(s[1..], pat, rep, c);
      }
    }
  }

  /** Replacing every occurrence of a one-character pattern removes that character. */
  lemma {:induction false} ReplaceAllRemoves(s: string, p: char, rep: string)
    requires p !in rep
    ensures p !in ReplaceAll(s, [p], rep)
    decreases |s|
  {
    if |s| >= 1 {
      ReplaceAllRemoves(s[1..], p, rep);
    }
  }

  /** A character that is neither in the pattern nor the replacement survives. */
  lemma {:induction false} ReplaceAllKeeps(s: string, pat: string, rep: string, c: char)
    requires pat != [] && c !in pat && c in s
    ensures c in ReplaceAll(s, pat, rep)
    decreases |s|
  {
    if |s| < |pat| {
    } else if s[..|pat|] == pat {
      var k :| 0 <= k < |s| && s[k] == c;
      assert k >= |pat| by { assert c !in s[..|pat|]; }
      assert s[|pat|..][k - |pat|] == c;
      ReplaceAllKeeps(s[|pat|..], pat, rep, c);
    } else if s[0] != c {
      var k :| 0 <= k < |s| && s[k] == c;
      assert s[1..][k - 1] == c;
      ReplaceAllKeeps(s[1..], pat, rep, c);
    }
  }

  /** A pattern with a character the text lacks occurs nowhere: nothing is replaced. */
  lemma {:induction false} ReplaceAllAbsent(s: string, pat: string, rep: string, c: char)
    requires pat != [] && c in pat && c !in s
    ensures ReplaceAll(s, pat, rep) == s
    decreases |s|
  {
    if |s| >= |pat| {
      var k :| 0 <= k < |pat| && pat[k] == c;
      assert s[..|pat|][k] != pat[k];
      assert c !in s[1..];
      ReplaceAllAbsent(s[1..], pat, rep, c);
    }
  }

  /** A two-character pattern that never occurs in the text replaces nothing. */
  lemma {:induction false} ReplaceAllNoPair(s: string, pat: string, rep: string)
    requires |pat| == 2
    requires forall i :: 0 <= i < |s| - 1 ==> s[i] != pat[0] || s[i + 1] != pat[1]
    ensures ReplaceAll(s, pat, rep) == s
    decreases |s|
  {
    if |s| >= 2 {
      assert s[..2][0] == s[0] && s[..2][1] == s[1];
      var t := s[1..];
      assert forall i :: 0 <= i < |t| - 1 ==> t[i] != pat[0] || t[i + 1] != pat[1] by {
        forall i | 0 <= i < |t| - 1 ensures t[i] != pat[0] || t[i + 1] != pat[1] {
          assert t[i] == s[i + 1] && t[i + 1] == s[i + 2];
        }
      }
      ReplaceAllNoPair(t, pat, rep);
    }
  }

  /** Replacement introduces no character that is in neither the text nor the replacement. */
  lemma {:induction false} ReplaceAllAvoids(s: string, pat: string, rep: string, c: char)
    requires pat != [] && c !in s && c !in rep
    ensures c !in ReplaceAll(s, pat, rep)
    decreases |s|
  {
    if |s| >= |pat| {
      if s[..|pat|] == pat {
        assert c !in s[|pat|..];
        ReplaceAllAvoids(s[|pat|..], pat, rep, c);
      } else {
        assert c !in s[1..];
        ReplaceAllAvoids(s[1..], pat, rep, c);
      }
    }
  }

  /** A replacement at least as long as the pattern never shortens the text. */
  lemma {:induction false} ReplaceAllGrows(s: string, pat: string, rep: string)
    requires pat != [] && |rep| >= |pat|
    ensures |ReplaceAll(s, pat, rep)| >= |s|
    decreases |s|
  {
    if |s| >= |pat| {
      if s[..|pat|] == pat {
        ReplaceAllGrows(s[|pat|..], pat, rep);
      } else {
        ReplaceAllGrows(s[1..], pat, rep);
      }
    }
  }

  // --- Two-character patterns -------------------------------------------

  /** `s` has `a` directly followed by `b` at position `k`. */
  predicate PairAt(s: string, k: int, a: char, b: char) {
    0 <= k && k + 1 < |s| && s[k] == a && s[k + 1] == b
  }

  /** `a` is nowhere directly followed by `b` in `s`. */
  predicate NoPair(s: string, a: char, b: char) {
    forall k :: 0 <= k < |s| - 1 ==> !(s[k] == a && s[k + 1] == b)
  }

  lemma NoPairCons(h: char, t: string, a: char, b: char)
    ensures NoPair([h] + t, a, b) <==> NoPair(t, a, b) && !(t != [] && h == a && t[0] == b)
  {
    var s := [h] + t;
    if NoPair(t, a, b) && !(t != [] && h == a && t[0] == b) {
      forall k | 0 <= k < |s| - 1 ensures !(s[k] == a && s[k + 1] == b) {
        if k > 0 {
          assert s[k] == t[k - 1] && s[k + 1] == t[k];
        }
      }
    }
    if NoPair(s, a, b) {
      forall k | 0 <= k < |t| - 1 ensures !(t[k] == a && t[k + 1] == b) {
        assert s[k + 1] == t[k] && s[k + 2] == t[k + 1];
      }
      if t != [] {
        assert s[0] == h && s[1] == t[0];
      }
    }
  }

  lemma NoPairSlice(s: string, i: nat, j: nat, a: char, b: char)
    requires i <= j <= |s| && NoPair(s, a, b)
    ensures NoPair(s[i..j], a, b)
  {
    var t := s[i..j];
    forall k | 0 <= k < |t| - 1 ensures !(t[k] == a && t[k + 1] == b) {
      assert t[k] == s[i + k] && t[k + 1] == s[i + k + 1];
    }
  }

  /** The first character of a replacement's result: the replacement's own
      first character where the pattern starts the text, else the text's. */
  lemma ReplaceAllHead(t: string, pat: string, rep: string)
    requires pat != [] && rep != [] && t != []
    ensures ReplaceAll(t, pat, rep) != []
    ensures ReplaceAll(t, pat, rep)[0] == if |t| >= |pat| && t[..|pat|] == pat then rep[0] else t[0]
  {
  }

  /** A text that does not start like the pattern keeps its first character. */
  lemma ReplaceAllSkip(t: string, pat: string, rep: string)
    requires pat != [] && t != [] && t[0] != pat[0]
    ensures ReplaceAll(t, pat, rep) == [t[0]] + ReplaceAll(t[1..], pat, rep)
  {
    if |t| >= |pat| {
      assert t[..|pat|][0] != pat[0];
    } else {
      assert t == [t[0]] + t[1..];
    }
  }

  lemma ReplaceAllEmpty(t: string, pat: string, rep: string)
    requires pat != [] && rep != []
    ensures ReplaceAll(t, pat, rep) == [] <==> t == []
  {
    if t != [] {
      ReplaceAllHead(t, pat, rep);
    }
  }

  /** `s.replace(/ab/g, x)` with a one-character `x` outside the pairs `ab`
      and `cd`: no `ab` is left, and no `cd` is created. */
  lemma {:induction false} ReplacePairByChar(s: string, a: char, b: char, x: char, c: char, d: char)
    requires x != a && x != b && x != c && x != d
    ensures NoPair(ReplaceAll(s, [a, b], [x]), a, b)
    ensures NoPair(s, c, d) ==> NoPair(ReplaceAll(s, [a, b], [x]), c, d)
    decreases |s|
  {
    var pat, rep := [a, b], [x];
    var r := ReplaceAll(s, pat, rep);
    if |s| >= 2 {
      if s[..2] == pat {
        var t := ReplaceAll(s[2..], pat, rep);
        ReplacePairByChar(s[2..], a, b, x, c, d);
        if NoPair(s, c, d) {
          NoPairSlice(s, 2, |s|, c, d);
        }
        assert r == [x] + t;
        NoPairCons(x, t, a, b);
        NoPairCons(x, t, c, d);
      } else {
        var t := ReplaceAll(s[1..], pat, rep);
        ReplacePairByChar(s[1..], a, b, x, c, d);
        assert r == [s[0]] + t;
        assert s[..2] == [s[0], s[1]];
        ReplaceAllHead(s[1..], pat, rep);
        NoPairCons(s[0], t, a, b);
        if NoPair(s, c, d) {
          NoPairSlice(s, 1, |s|, c, d);
          assert !(s[0] == c && s[1] == d);
        }
        NoPairCons(s[0], t, c, d);
      }
    }
  }

  /** `s.replace(/ab/g, 'a-b')` creates no pair `cd` of characters other than
      `-`. */
  lemma {:induction false} MarkPairKeeps(s: string, a: char, b: char, c: char, d: char)
    requires c != '-' && d != '-' && NoPair(s, c, d)
    ensures NoPair(ReplaceAll(s, [a, b], [a, '-', b]), c, d)
    decreases |s|
  {
    var pat, rep := [a, b], [a, '-', b];
    var r := ReplaceAll(s, pat, rep);
    if |s| >= 2 {
      if s[..2] == pat {
        var t := ReplaceAll(s[2..], pat, rep);
        NoPairSlice(s, 2, |s|, c, d);
        MarkPairKeeps(s[2..], a, b, c, d);
        if s[2..] != [] {
          ReplaceAllHead(s[2..], pat, rep);
          assert !(s[1] == c && s[2] == d);
        }
        assert r == [a] + (['-'] + ([b] + t));
        NoPairCons(b, t, c, d);
        NoPairCons('-', [b] + t, c, d);
        NoPairCons(a, ['-'] + ([b] + t), c, d);
      } else {
        var t := ReplaceAll(s[1..], pat, rep);
        NoPairSlice(s, 1, |s|, c, d);
        MarkPairKeeps(s[1..], a, b, c, d);
        assert r == [s[0]] + t;
        ReplaceAllHead(s[1..], pat, rep);
        assert !(s[0] == c && s[1] == d);
        NoPairCons(s[0], t, c, d);
      }
    }
  }

  /** `s.replace(/ab/g, 'a-b')` for distinct `a` and `b` leaves no `ab`. */
  lemma {:induction false} MarkPairClears(s: string, a: char, b: char)
    requires a != b && a != '-' && b != '-'
    ensures NoPair(ReplaceAll(s, [a, b], [a, '-', b]), a, b)
    decreases |s|
  {
    var pat, rep := [a, b], [a, '-', b];
    var r := ReplaceAll(s, pat, rep);
    if |s| >= 2 {
      if s[..2] == pat {
        var t := ReplaceAll(s[2..], pat, rep);
        MarkPairClears(s[2..], a, b);
        assert r == [a] + (['-'] + ([b] + t));
        NoPairCons(b, t, a, b);
        NoPairCons('-', [b] + t, a, b);
        NoPairCons(a, ['-'] + ([b] + t), a, b);
      } else {
        var t := ReplaceAll(s[1..], pat, rep);
        MarkPairClears(s[1..], a, b);
        assert r == [s[0]] + t;
        assert s[..2] == [s[0], s[1]];
        ReplaceAllHead(s[1..], pat, rep);
        NoPairCons(s[0], t, a, b);
      }
    } else {
      assert r == s;
    }
  }

  /** Every `aa` in `s` that does not start it follows a `-`. */
  predicate InnerDoublesAfterDash(s: string, a: char) {
    forall k :: 0 < k < |s| - 1 && s[k] == a && s[k + 1] == a ==> s[k - 1] == '-'
  }

  /** Every `aa` in `s` follows a `-`; in particular none starts `s`. */
  predicate DoublesAfterDash(s: string, a: char) {
    InnerDoublesAfterDash(s, a) && !PairAt(s, 0, a, a)
  }

  lemma InnerDoublesSuffix(s: string, i: nat, a: char)
    requires i <= |s| && InnerDoublesAfterDash(s, a)
    ensures InnerDoublesAfterDash(s[i..], a)
  {
    var t := s[i..];
    forall k | 0 < k < |t| - 1 && t[k] == a && t[k + 1] == a ensures t[k - 1] == '-' {
      assert t[k] == s[i + k] && t[k + 1] == s[i + k + 1] && t[k - 1] == s[i + k - 1];
    }
  }

  /** `s.replace(/aa/g, 'a-a')`: every `aa` left follows a `-`, the second
      letter of a marked pair. */
  lemma {:induction false} MarkDoubleSplits(s: string, a: char)
    requires a != '-'
    ensures DoublesAfterDash(ReplaceAll(s, [a, a], [a, '-', a]), a)
    decreases |s|
  {
    var pat, rep := [a, a], [a, '-', a];
    var r := ReplaceAll(s, pat, rep);
    if |s| >= 2 {
      if s[..2] == pat {
        var t := ReplaceAll(s[2..], pat, rep);
        MarkDoubleSplits(s[2..], a);
        assert r == rep + t;
        forall k | 0 < k < |r| - 1 && r[k] == a && r[k + 1] == a ensures r[k - 1] == '-' {
          if k >= 3 {
            assert r[k] == t[k - 3] && r[k + 1] == t[k - 2];
            assert r[k - 1] == t[k - 4];
          }
        }
      } else {
        var t := ReplaceAll(s[1..], pat, rep);
        MarkDoubleSplits(s[1..], a);
        assert r == [s[0]] + t;
        assert s[..2] == [s[0], s[1]];
        ReplaceAllHead(s[1..], pat, rep);
        forall k | 0 < k < |r| - 1 && r[k] == a && r[k + 1] == a ensures r[k - 1] == '-' {
          assert r[k] == t[k - 1] && r[k + 1] == t[k];
          assert r[k - 1] == t[k - 2];
        }
      }
    } else {
      assert r == s;
    }
  }

  /** Putting `c` in front keeps every inner `aa` after a `-`, when `c` is a
      `-` in case `t` starts with `aa`. */
  lemma DoublesCons(c: char, t: string, a: char)
    requires InnerDoublesAfterDash(t, a)
    requires PairAt(t, 0, a, a) ==> c == '-'
    ensures InnerDoublesAfterDash([c] + t, a)
  {
    var r := [c] + t;
    forall k | 0 < k < |r| - 1 && r[k] == a && r[k + 1] == a ensures r[k - 1] == '-' {
      if k >= 2 {
        assert r[k] == t[k - 1] && r[k + 1] == t[k] && r[k - 1] == t[k - 2];
      } else {
        assert PairAt(t, 0, a, a);
      }
    }
  }

  /** Marking another pair `pq` of characters other than `-` keeps every
      inner `aa` after a `-`, and creates no `aa` at the start. */
  lemma {:induction false} MarkPairKeepsDoubles(s: string, p: char, q: char, a: char)
    requires p != '-' && q != '-' && InnerDoublesAfterDash(s, a)
    ensures InnerDoublesAfterDash(ReplaceAll(s, [p, q], [p, '-', q]), a)
    ensures PairAt(ReplaceAll(s, [p, q], [p, '-', q]), 0, a, a) ==> PairAt(s, 0, a, a)
    decreases |s|
  {
    var pat, rep := [p, q], [p, '-', q];
    var r := ReplaceAll(s, pat, rep);
    if |s| >= 2 {
      if s[..2] == pat {
        var t := ReplaceAll(s[2..], pat, rep);
        InnerDoublesSuffix(s, 2, a);
        MarkPairKeepsDoubles(s[2..], p, q, a);
        assert r == [p] + (['-'] + ([q] + t));
        assert PairAt(s[2..], 0, a, a) ==> s[1] == '-' by {
          if PairAt(s[2..], 0, a, a) {
            assert s[2] == a && s[3] == a && 2 < |s| - 1;
          }
        }
        DoublesCons(q, t, a);
        DoublesCons('-', [q] + t, a);
        DoublesCons(p, ['-'] + ([q] + t), a);
      } else {
        var t := ReplaceAll(s[1..], pat, rep);
        InnerDoublesSuffix(s, 1, a);
        MarkPairKeepsDoubles(s[1..], p, q, a);
        assert r == [s[0]] + t;
        ReplaceAllHead(s[1..], pat, rep);
        assert t[0] == s[1];
        assert PairAt(s[1..], 0, a, a) ==> s[0] == '-' by {
          if PairAt(s[1..], 0, a, a) {
            assert s[1] == a && s[2] == a && 1 < |s| - 1;
          }
        }
        DoublesCons(s[0], t, a);
      }
    } else {
      assert r == s;
    }
  }

  /** Every `-` of `s` that is neither first nor last lies between the two
      characters of one of `pairs`. */
  predicate InnerDashesBetween(s: string, pairs: set<(char, char)>) {
    forall k :: 0 < k < |s| - 1 && s[k] == '-' ==> (s[k - 1], s[k + 1]) in pairs
  }

  /** Every `-` of `s` lies strictly inside it, between the two characters of
      one of `pairs`. */
  predicate DashesBetween(s: string, pairs: set<(char, char)>) {
    InnerDashesBetween(s, pairs) && (s != [] ==> s[0] != '-' && s[|s| - 1] != '-')
  }

  lemma InnerDashesSuffix(s: string, i: nat, pairs: set<(char, char)>)
    requires i <= |s| && InnerDashesBetween(s, pairs)
    ensures InnerDashesBetween(s[i..], pairs)
  {
    var t := s[i..];
    forall k | 0 < k < |t| - 1 && t[k] == '-' ensures (t[k - 1], t[k + 1]) in pairs {
      assert t[k] == s[i + k] && t[k - 1] == s[i + k - 1] && t[k + 1] == s[i + k + 1];
    }
  }

  /** The last character of `s.replace(/ab/g, 'a-b')` is that of `s`. */
  lemma {:induction false} MarkPairLast(s: string, a: char, b: char)
    requires s != []
    ensures ReplaceAll(s, [a, b], [a, '-', b]) != []
    ensures ReplaceAll(s, [a, b], [a, '-', b])[|ReplaceAll(s, [a, b], [a, '-', b])| - 1] == s[|s| - 1]
    decreases |s|
  {
    var pat, rep := [a, b], [a, '-', b];
    if |s| >= 2 {
      if s[..2] == pat {
        if s[2..] != [] {
          MarkPairLast(s[2..], a, b);
        } else {
          assert s[1] == b;
        }
      } else {
        MarkPairLast(s[1..], a, b);
      }
    }
  }

  /** Putting `c` in front keeps every inner `-` between a pair, when a
      leading `-` of `t` is between `c` and the character after it. */
  lemma DashesCons(c: char, t: string, pairs: set<(char, char)>)
    requires InnerDashesBetween(t, pairs)
    requires |t| >= 2 && t[0] == '-' ==> (c, t[1]) in pairs
    ensures InnerDashesBetween([c] + t, pairs)
  {
    var r := [c] + t;
    forall k | 0 < k < |r| - 1 && r[k] == '-' ensures (r[k - 1], r[k + 1]) in pairs {
      if k >= 2 {
        assert r[k] == t[k - 1] && r[k - 1] == t[k - 2] && r[k + 1] == t[k];
      }
    }
  }

  /** `s.replace(/ab/g, 'a-b')`, with `ab` one of `pairs`, puts every new
      `-` between the two characters of one of `pairs`, keeps those already
      there between theirs, and keeps the first character. */
  lemma {:induction false} MarkPairDashes(s: string, a: char, b: char, pairs: set<(char, char)>)
    requires a != '-' && b != '-' && (a, b) in pairs && InnerDashesBetween(s, pairs)
    ensures InnerDashesBetween(ReplaceAll(s, [a, b], [a, '-', b]), pairs)
    ensures s != [] ==> ReplaceAll(s, [a, b], [a, '-', b]) != [] && ReplaceAll(s, [a, b], [a, '-', b])[0] == s[0]
    decreases |s|
  {
    var pat, rep := [a, b], [a, '-', b];
    var r := ReplaceAll(s, pat, rep);
    if s != [] {
      ReplaceAllHead(s, pat, rep);
    }
    if |s| >= 2 {
      if s[..2] == pat {
        var t := ReplaceAll(s[2..], pat, rep);
        InnerDashesSuffix(s, 2, pairs);
        MarkPairDashes(s[2..], a, b, pairs);
        assert r == rep + t;
        if |t| >= 2 && t[0] == '-' {
          assert s[2] == '-';
          ReplaceAllSkip(s[2..], pat, rep);
          assert s[2..][1..] == s[3..];
          ReplaceAllEmpty(s[3..], pat, rep);
          MarkPairDashes(s[3..], a, b, pairs) by { InnerDashesSuffix(s, 3, pairs); }
          assert s[1] == b && 2 < |s| - 1;
        }
        DashesCons(b, t, pairs);
        DashesCons('-', [b] + t, pairs);
        DashesCons(a, ['-'] + ([b] + t), pairs);
        assert r == [a] + (['-'] + ([b] + t));
      } else {
        var t := ReplaceAll(s[1..], pat, rep);
        InnerDashesSuffix(s, 1, pairs);
        MarkPairDashes(s[1..], a, b, pairs);
        assert r == [s[0]] + t;
        if |t| >= 2 && t[0] == '-' {
          assert s[1] == '-';
          ReplaceAllSkip(s[1..], pat, rep);
          assert s[1..][1..] == s[2..];
          ReplaceAllEmpty(s[2..], pat, rep);
          MarkPairDashes(s[2..], a, b, pairs) by { InnerDashesSuffix(s, 2, pairs); }
          assert 1 < |s| - 1;
        }
        DashesCons(s[0], t, pairs);
      }
    } else {
      assert r == s;
    }
  }

  /** `s` has a character other than `c`. */
  predicate HasOther(s: string, c: char) {
    exists k :: 0 <= k < |s| && s[k] != c
  }

  /** A text with a character other than `c` keeps one after a replacement
      whose replacement text has one too. */
  lemma {:induction false} ReplaceAllHasOther(s: string, pat: string, rep: string, c: char)
    requires pat != [] && HasOther(s, c) && HasOther(rep, c)
    ensures HasOther(ReplaceAll(s, pat, rep), c)
    decreases |s|
  {
    if |s| >= |pat| {
      var r := ReplaceAll(s, pat, rep);
      if s[..|pat|] == pat {
        var k :| 0 <= k < |rep| && rep[k] != c;
        assert r[k] == rep[k];
      } else if s[0] != c {
        assert r[0] == s[0];
      } else {
        var k :| 0 <= k < |s| && s[k] != c;
        assert s[1..][k - 1] != c;
        ReplaceAllHasOther(s[1..], pat, rep, c);
        var m :| 0 <= m < |ReplaceAll(s[1..], pat, rep)| && ReplaceAll(s[1..], pat, rep)[m] != c;
        assert r[m + 1] != c;
      }
    }
  }

  /** Every character of `t` occurs in `s`. */
  predicate CharsFrom(t: string, s: string) {
    forall k :: 0 <= k < |t| ==> t[k] in s
  }

  lemma SliceCharsFrom(s: string, i: nat, e: nat)
    requires i <= e <= |s|
    ensures CharsFrom(s[i..e], s)
  {
    forall k | 0 <= k < e - i ensures s[i..e][k] in s {
      assert s[i..e][k] == s[i + k];
    }
  }

  /** A suffix is its two consecutive slices. */
  lemma SliceAt<T>(s: seq<T>, i: nat, e: nat)
    requires i <= e <= |s|
    ensures s[i..] == s[i..e] + s[e..]
  {
  }

  /** A sequence is its three consecutive slices. */
  lemma SliceThree<T>(s: seq<T>, i: nat, e: nat)
    requires i <= e <= |s|
    ensures s == s[..i] + (s[i..e] + s[e..])
  {
  }

  /** Replacing the last element is cutting it off and appending the new one. */
  lemma UpdateLast<T>(s: seq<T>, x: T)
    requires s != []
    ensures s[|s| - 1 := x] == s[..|s| - 1] + [x]
  {
  }

  /** `arr.join(sep)`. */
  function Join(parts: seq<string>, sep: string): string {
    if parts == [] then ""
    else if |parts| == 1 then parts[0]
    else parts[0] + sep + Join(parts[1..], sep)
  }

  /** Concatenation of a list of strings, `arr.join('')`. */
  function Concat(parts: seq<string>): string {
    if parts == [] then "" else parts[0] + Concat(parts[1..])
  }

  lemma {:induction false} ConcatAppend(a: seq<string>, b: seq<string>)
    ensures Concat(a + b) == Concat(a) + Concat(b)
  {
    if a != [] {
      calc {
        Concat(a + b);
        (a + b)[0] + Concat((a + b)[1..]);
        { assert (a + b)[1..] == a[1..] + b; }
        a[0] + Concat(a[1..] + b);
        { ConcatAppend(a[1..], b); }
        a[0] + (Concat(a[1..]) + Concat(b));
      }
    } else {
      assert a + b == b;
    }
  }

  /** Index of the first occurrence of `c` in `s` at or after `i`, or `|s|`. */
  function IndexFrom(s: string, c: char, i: nat): (r: nat)
    requires i <= |s|
    ensures i <= r <= |s|
    ensures forall k :: i <= k < r ==> s[k] != c
    ensures r < |s| ==> s[r] == c
    decreases |s| - i
  {
    if i == |s| || s[i] == c then i else IndexFrom(s, c, i + 1)
  }

  /** `s.split(c)` for a one-character separator; always at least one piece. */
  function SplitOn(s: string, c: char): (r: seq<string>)
    ensures |r| >= 1
    ensures forall k :: 0 <= k < |r| ==> c !in r[k]
    decreases |s|
  {
    if IndexFrom(s, c, 0) == |s| then [s]
    else [s[..IndexFrom(s, c, 0)]] + SplitOn(s[IndexFrom(s, c, 0) + 1..], c)
  }

  /** A character that is not in the text is in none of the pieces of a split. */
  lemma {:induction false} SplitOnAvoids(s: string, sep: char, d: char)
    requires d !in s
    ensures forall k :: 0 <= k < |SplitOn(s, sep)| ==> d !in SplitOn(s, sep)[k]
    decreases |s|
  {
    var i := IndexFrom(s, sep, 0);
    if i < |s| {
      assert d !in s[i + 1..];
      SplitOnAvoids(s[i + 1..], sep, d);
    }
  }

  /** Joining the pieces of a split with the separator gives the text back. */
  lemma {:induction false} SplitOnJoin(s: string, c: char)
    ensures Join(SplitOn(s, c), [c]) == s
    decreases |s|
  {
    var i := IndexFrom(s, c, 0);
    if i < |s| {
      var rest := s[i + 1..];
      var tail := SplitOn(rest, c);
      var parts := SplitOn(s, c);
      assert parts == [s[..i]] + tail;
      assert |parts| > 1 && parts[0] == s[..i] && parts[1..] == tail;
      assert Join(parts, [c]) == s[..i] + [c] + Join(tail, [c]);
      SplitOnJoin(rest, c);
      assert s == s[..i] + [c] + rest;
    }
  }

  /** Every piece of a split is a slice of the text. */
  lemma {:induction false} SplitOnSlices(s: string, c: char)
    ensures forall k :: 0 <= k < |SplitOn(s, c)| ==>
      exists i, j :: 0 <= i <= j <= |s| && SplitOn(s, c)[k] == s[i..j]
    decreases |s|
  {
    var parts := SplitOn(s, c);
    var i0 := IndexFrom(s, c, 0);
    if i0 == |s| {
      assert parts[0] == s[0..|s|];
    } else {
      var rest := s[i0 + 1..];
      SplitOnSlices(rest, c);
      assert parts == [s[..i0]] + SplitOn(rest, c);
      forall k | 0 <= k < |parts| ensures exists i, j :: 0 <= i <= j <= |s| && parts[k] == s[i..j] {
        if k == 0 {
          assert parts[0] == s[0..i0];
        } else {
          assert parts[k] == SplitOn(rest, c)[k - 1];
          var i, j :| 0 <= i <= j <= |rest| && SplitOn(rest, c)[k - 1] == rest[i..j];
          forall m | 0 <= m < j - i ensures rest[i..j][m] == s[i0 + 1 + i..i0 + 1 + j][m] {
            assert rest[i + m] == s[i0 + 1 + i + m];
          }
          assert rest[i..j] == s[i0 + 1 + i..i0 + 1 + j];
        }
      }
    }
  }

  /** A text with a character other than the separator has a non-empty piece. */
  lemma {:induction false} SplitOnHasNonEmpty(s: string, c: char)
    requires HasOther(s, c)
    ensures exists k :: 0 <= k < |SplitOn(s, c)| && SplitOn(s, c)[k] != []
    decreases |s|
  {
    var i := IndexFrom(s, c, 0);
    if i < |s| {
      if i > 0 {
        assert SplitOn(s, c)[0] == s[..i];
      } else {
        var k :| 0 <= k < |s| && s[k] != c;
        assert s[1..][k - 1] != c;
        SplitOnHasNonEmpty(s[1..], c);
        var m :| 0 <= m < |SplitOn(s[1..], c)| && SplitOn(s[1..], c)[m] != [];
        assert SplitOn(s, c)[m + 1] != [];
      }
    } else {
      assert SplitOn(s, c)[0] == s;
    }
  }

  function DigitChar(d: nat): (r: char)
    requires d < 10
    ensures '0' <= r <= '9'
  {
    ('0' as int + d) as char
  }

  /** `String(n)` for a natural number. */
  function NatToString(n: nat): (r: string)
    ensures r != []
    ensures forall i :: 0 <= i < |r| ==> '0' <= r[i] <= '9'
    ensures n < 10 <==> |r| == 1
  {
    if n < 10 then [DigitChar(n)] else NatToString(n / 10) + [DigitChar(n % 10)]
  }

  /** Distinct numbers print differently. */
  lemma {:induction false} NatToStringInjective(m: nat, n: nat)
    requires NatToString(m) == NatToString(n)
    ensures m == n
  {
    if m >= 10 && n >= 10 {
      var sm, sn := NatToString(m), NatToString(n);
      assert sm[..|sm| - 1] == NatToString(m / 10);
      assert sn[..|sn| - 1] == NatToString(n / 10);
      NatToStringInjective(m / 10, n / 10);
      assert sm[|sm| - 1] == DigitChar(m % 10);
    }
  }
}
