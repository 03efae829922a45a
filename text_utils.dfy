// The syllabifier of utils/textUtils.ts: a heuristic Portuguese syllable
// splitter (`syllabifyWord`) and the sentence tokenizer built on it
// (`splitSentenceIntoSyllables`). The global regular expression of the
// syllabifier is modelled by a hand-written left-to-right scanner.

module TextUtils {
  import opened Types
  import opened Chars

  // --- Character classes of the syllable regular expression -------------

  /** `[aeiouyáéíóúâêîôûãõàü]` */
  predicate IsVowel(c: char) {
    c == 'a' || c == 'e' || c == 'i' || c == 'o' || c == 'u' || c == 'y'
    || c == '\U{00E1}' || c == '\U{00E9}' || c == '\U{00ED}' || c == '\U{00F3}' || c == '\U{00FA}'
    || c == '\U{00E2}' || c == '\U{00EA}' || c == '\U{00EE}' || c == '\U{00F4}' || c == '\U{00FB}'
    || c == '\U{00E3}' || c == '\U{00F5}' || c == '\U{00E0}' || c == '\U{00FC}'
  }

  /** The one-character stand-ins for the digraphs: £ lh, ¢ nh, § ch, ¬ qu, µ gu. */
  predicate IsPlaceholder(c: char) {
    c == '\U{00A3}' || c == '\U{00A2}' || c == '\U{00A7}' || c == '\U{00AC}' || c == '\U{00B5}'
  }

  /** `[^aeiouyáéíóúâêîôûãõàü£¢§¬µ\s-]`: what an onset is made of. */
  predicate IsOnsetChar(c: char) {
    !IsVowel(c) && !IsPlaceholder(c) && !IsSpace(c) && c != '-'
  }

  /** `[nsrzxlm]`: the consonants that may close a syllable. */
  predicate IsCoda(c: char) {
    c == 'n' || c == 's' || c == 'r' || c == 'z' || c == 'x' || c == 'l' || c == 'm'
  }

  // --- One match of the regular expression ------------------------------

  /** End of the run of onset characters starting at `i`. */
  function OnsetEnd(s: string, i: nat): (j: nat)
    requires i <= |s|
    ensures i <= j <= |s|
    ensures forall k :: i <= k < j ==> IsOnsetChar(s[k])
    ensures j < |s| ==> !IsOnsetChar(s[j])
    decreases |s| - i
  {
    if i < |s| && IsOnsetChar(s[i]) then OnsetEnd(s, i + 1) else i
  }

  /** End of the run of vowels starting at `i` (greedy `+`). */
  function VowelEnd(s: string, i: nat): (j: nat)
    requires i <= |s|
    ensures i <= j <= |s|
    ensures forall k :: i <= k < j ==> IsVowel(s[k])
    ensures j < |s| ==> !IsVowel(s[j])
    decreases |s| - i
  {
    if i < |s| && IsVowel(s[i]) then VowelEnd(s, i + 1) else i
  }

  /** The optional coda: one coda consonant, unless a vowel follows it. */
  function CodaEnd(s: string, e: nat): (r: nat)
    requires e <= |s|
    ensures e <= r <= |s|
  {
    if e < |s| && IsCoda(s[e]) && (e + 1 == |s| || !IsVowel(s[e + 1])) then e + 1 else e
  }

  /** Every character of `s[i..j]` is an onset character. */
  predicate AllOnset(s: string, i: nat, j: nat)
    requires i <= j <= |s|
  {
    forall k :: i <= k < j ==> IsOnsetChar(s[k])
  }

  /** The first group of the regular expression can cover `s[i..a]` and the
      nucleus can start at `a`: either onset characters ending in a
      placeholder, or onset characters only, followed by a vowel. */
  predicate SyllableStartsAt(s: string, i: nat, a: nat)
    requires i <= |s|
  {
    i <= a < |s| && IsVowel(s[a]) &&
    (AllOnset(s, i, a) || (i < a && IsPlaceholder(s[a - 1]) && AllOnset(s, i, a - 1)))
  }

  /** The end of the match that starts exactly at `i`, if one does. The
      placeholder alternative of the first group is tried first. */
  function MatchAt(s: string, i: nat): (r: Option<nat>)
    requires i <= |s|
    ensures r.Some? ==> i < r.value <= |s|
  {
    var j := OnsetEnd(s, i);
    if j + 1 < |s| && IsPlaceholder(s[j]) && IsVowel(s[j + 1]) then
      Some(CodaEnd(s, VowelEnd(s, j + 1)))
    else if j < |s| && IsVowel(s[j]) then
      Some(CodaEnd(s, VowelEnd(s, j)))
    else
      None
  }

  /** No character is both a vowel and a placeholder. */
  lemma VowelNotPlaceholder(c: char)
    ensures !(IsVowel(c) && IsPlaceholder(c))
  {
    VowelRange(c);
    PlaceholderRange(c);
  }

  lemma VowelRange(c: char)
    ensures IsVowel(c) ==> c <= 'y' || '\U{00E0}' <= c
  {
  }

  lemma PlaceholderRange(c: char)
    ensures IsPlaceholder(c) ==> '\U{00A2}' <= c <= '\U{00B5}'
  {
  }

  /** An onset run that stops at a non-onset character is the maximal one. */
  lemma OnsetEndAt(s: string, i: nat, a: nat)
    requires i <= a < |s| && AllOnset(s, i, a) && !IsOnsetChar(s[a])
    ensures OnsetEnd(s, i) == a
  {
  }

  /** Where a nucleus can start: right after the maximal onset, or one
      character later when that character is a placeholder. */
  lemma SyllableStartPlace(s: string, i: nat, a: nat)
    requires i <= |s| && SyllableStartsAt(s, i, a)
    ensures a == OnsetEnd(s, i) || (a == OnsetEnd(s, i) + 1 && IsPlaceholder(s[a - 1]))
  {
    if AllOnset(s, i, a) {
      OnsetEndAt(s, i, a);
    } else {
      OnsetEndAt(s, i, a - 1);
    }
  }

  /** A match starts at `i` exactly when an onset followed by a vowel does. */
  lemma MatchAtNoneIff(s: string, i: nat)
    requires i <= |s|
    ensures MatchAt(s, i).None? <==> forall a: nat :: !SyllableStartsAt(s, i, a)
  {
    var j := OnsetEnd(s, i);
    forall a: nat | SyllableStartsAt(s, i, a) ensures MatchAt(s, i).Some? {
      SyllableStartPlace(s, i, a);
    }
    if MatchAt(s, i).Some? {
      if j + 1 < |s| && IsPlaceholder(s[j]) && IsVowel(s[j + 1]) {
        assert SyllableStartsAt(s, i, j + 1);
      } else {
        assert SyllableStartsAt(s, i, j);
      }
    }
  }

  /** The onset of a match is determined by where it starts. */
  lemma SyllableStartUnique(s: string, i: nat, a: nat, b: nat)
    requires i <= |s|
    requires SyllableStartsAt(s, i, a) && SyllableStartsAt(s, i, b)
    ensures a == b
  {
    SyllableStartPlace(s, i, a);
    SyllableStartPlace(s, i, b);
    VowelNotPlaceholder(s[OnsetEnd(s, i)]);
  }

  /** A successful match is onset + maximal vowel run + optional coda. */
  lemma MatchShape(s: string, i: nat)
    requires i <= |s| && MatchAt(s, i).Some?
    ensures exists a: nat, b: nat ::
              (SyllableStartsAt(s, i, a) && a < b <= |s|
               && (forall k :: a <= k < b ==> IsVowel(s[k])) && (b < |s| ==> !IsVowel(s[b]))
               && MatchAt(s, i).value == CodaEnd(s, b))
  {
    var j := OnsetEnd(s, i);
    if j + 1 < |s| && IsPlaceholder(s[j]) && IsVowel(s[j + 1]) {
      assert SyllableStartsAt(s, i, j + 1);
      var b := VowelEnd(s, j + 1);
    } else {
      assert SyllableStartsAt(s, i, j);
      var b := VowelEnd(s, j);
    }
  }

  // --- The global match -------------------------------------------------

  /** `s.match(re)` with the `g` flag, as a list of matched texts, from
      position `i` on: where no match starts the scan moves on by one. */
  function ScanFrom(s: string, i: nat): (r: seq<string>)
    requires i <= |s|
    decreases |s| - i
  {
    if i == |s| then []
    else
      match MatchAt(s, i)
      case Some(e) => [s[i..e]] + ScanFrom(s, e)
      case None => ScanFrom(s, i + 1)
  }

  /** `part.match(re)`: `null` when there is no match at all. */
  function GlobalMatch(s: string): (r: Option<seq<string>>)
    ensures r.Some? ==> r.value != []
  {
    var m := ScanFrom(s, 0);
    if m == [] then None else Some(m)
  }

  /** The vowels of a text, in order. */
  function Vowels(s: string): (r: string)
    ensures |r| <= |s|
  {
    if s == [] then [] else (if IsVowel(s[0]) then [s[0]] else []) + Vowels(s[1..])
  }

  lemma {:induction false} VowelsAppend(a: string, b: string)
    ensures Vowels(a + b) == Vowels(a) + Vowels(b)
  {
    if a != [] {
      assert (a + b)[1..] == a[1..] + b;
      VowelsAppend(a[1..], b);
    } else {
      assert a + b == b;
    }
  }

  lemma {:induction false} VowelsEmpty(s: string)
    ensures Vowels(s) == [] <==> forall k :: 0 <= k < |s| ==> !IsVowel(s[k])
  {
    if s != [] {
      VowelsEmpty(s[1..]);
      assert forall k :: 1 <= k < |s| ==> s[k] == s[1..][k - 1];
    }
  }

  /** Every token of the scan is non-empty and made of the text's characters. */
  lemma {:induction false} ScanTokens(s: string, i: nat)
    requires i <= |s|
    ensures forall t :: t in ScanFrom(s, i) ==> t != [] && CharsFrom(t, s)
    decreases |s| - i
  {
    if i < |s| {
      match MatchAt(s, i)
      case Some(e) =>
        ScanTokens(s, e);
        SliceCharsFrom(s, i, e);
      case None =>
        ScanTokens(s, i + 1);
    }
  }

  /** Every vowel of the text lands in exactly one token, in order. */
  lemma {:induction false} ScanKeepsVowels(s: string, i: nat)
    requires i <= |s|
    ensures Vowels(Concat(ScanFrom(s, i))) == Vowels(s[i..])
    decreases |s| - i
  {
    if i < |s| {
      match MatchAt(s, i)
      case Some(e) =>
        ScanKeepsVowels(s, e);
        SliceAt(s, i, e);
        VowelsAppend(s[i..e], s[e..]);
        assert Concat(ScanFrom(s, i)) == s[i..e] + Concat(ScanFrom(s, e)) by {
          ConcatAppend([s[i..e]], ScanFrom(s, e));
        }
        VowelsAppend(s[i..e], Concat(ScanFrom(s, e)));
      case None =>
        ScanKeepsVowels(s, i + 1);
        assert !IsVowel(s[i]) by {
          MatchAtNoneIff(s, i);
          assert !SyllableStartsAt(s, i, i);
        }
        SliceAt(s, i, i + 1);
        VowelsAppend(s[i..i + 1], s[i + 1..]);
    }
  }

  /** The global match fails exactly on texts without a vowel. */
  lemma GlobalMatchNoneIff(s: string)
    ensures GlobalMatch(s).None? <==> forall k :: 0 <= k < |s| ==> !IsVowel(s[k])
  {
    if ScanFrom(s, 0) == [] {
      ScanKeepsVowels(s, 0);
      assert s[0..] == s;
      VowelsEmpty(s);
    } else {
      ScanHasVowel(s, 0);
    }
  }

  /** A non-empty scan has matched a vowel. */
  lemma {:induction false} ScanHasVowel(s: string, i: nat)
    requires i <= |s| && ScanFrom(s, i) != []
    ensures exists k :: i <= k < |s| && IsVowel(s[k])
    decreases |s| - i
  {
    var j := OnsetEnd(s, i);
    match MatchAt(s, i)
    case Some(e) =>
      if j + 1 < |s| && IsPlaceholder(s[j]) && IsVowel(s[j + 1]) {
        assert IsVowel(s[j + 1]);
      } else {
        assert IsVowel(s[j]);
      }
    case None =>
      ScanHasVowel(s, i + 1);
  }

  // --- The rewriting pipeline around the scan -----------------------------

  /** Hide the inseparable digraphs lh, nh, ch, qu, gu behind placeholders. */
  function HideDigraphs(w: string): string {
    var w1 := ReplaceAll(w, "lh", "\U{00A3}");
    var w2 := ReplaceAll(w1, "nh", "\U{00A2}");
    var w3 := ReplaceAll(w2, "ch", "\U{00A7}");
    var w4 := ReplaceAll(w3, "qu", "\U{00AC}");
    ReplaceAll(w4, "gu", "\U{00B5}")
  }

  /** Put a `-` inside the clusters rr, ss, sc, sç, xc. */
  function MarkClusters(w: string): string {
    var w1 := ReplaceAll(w, "rr", "r-r");
    var w2 := ReplaceAll(w1, "ss", "s-s");
    var w3 := ReplaceAll(w2, "sc", "s-c");
    var w4 := ReplaceAll(w3, "s\U{00E7}", "s-\U{00E7}");
    ReplaceAll(w4, "xc", "x-c")
  }

  /** The lower-cased, rewritten word that is split at `-`. */
  function Prepare(word: string): string {
    MarkClusters(HideDigraphs(Lower(word)))
  }

  /** `restore`: put the digraphs back. */
  function Restore(t: string): string {
    var t1 := ReplaceAll(t, "\U{00A3}", "lh");
    var t2 := ReplaceAll(t1, "\U{00A2}", "nh");
    var t3 := ReplaceAll(t2, "\U{00A7}", "ch");
    var t4 := ReplaceAll(t3, "\U{00AC}", "qu");
    ReplaceAll(t4, "\U{00B5}", "gu")
  }

  /** The tokens one part contributes: its matches, or the whole part when
      there is no match, or nothing when the part is empty. */
  function PartTokens(part: string): seq<string> {
    match GlobalMatch(part)
    case Some(m) => m
    case None => if part == "" then [] else [part]
  }

  /** The tokens of the first `|parts|` parts, in order. */
  function PartsTokens(parts: seq<string>): seq<string>
    decreases |parts|
  {
    if parts == [] then [] else PartsTokens(parts[..|parts| - 1]) + PartTokens(parts[|parts| - 1])
  }

  /** A raw token as it is returned: restored and upper-cased. */
  function Finish(t: string): string {
    Upper(Restore(t))
  }

  function FinishAll(ts: seq<string>): (r: seq<string>)
    ensures |r| == |ts| && forall k :: 0 <= k < |ts| ==> r[k] == Finish(ts[k])
  {
    seq(|ts|, k requires 0 <= k < |ts| => Finish(ts[k]))
  }

  /** The syllables `syllabifyWord` returns for `word`. */
  function Syllabify(word: string): seq<string> {
    if word == "" then [] else FinishAll(PartsTokens(SplitOn(Prepare(word), '-')))
  }

  /** `syllabifyWord`: the same pipeline, collecting the matches of each
      part in a list as the source does. */
  method SyllabifyWord(word: string) returns (syllables: seq<string>)
    ensures syllables == Syllabify(word)
  {
    if word == "" {
      return [];
    }
    var w := Lower(word);
    w := ReplaceAll(w, "lh", "\U{00A3}");
    w := ReplaceAll(w, "nh", "\U{00A2}");
    w := ReplaceAll(w, "ch", "\U{00A7}");
    w := ReplaceAll(w, "qu", "\U{00AC}");
    w := ReplaceAll(w, "gu", "\U{00B5}");
    w := ReplaceAll(w, "rr", "r-r");
    w := ReplaceAll(w, "ss", "s-s");
    w := ReplaceAll(w, "sc", "s-c");
    w := ReplaceAll(w, "s\U{00E7}", "s-\U{00E7}");
    w := ReplaceAll(w, "xc", "x-c");
    var parts := SplitOn(w, '-');
    var raw: seq<string> := [];
    for k := 0 to |parts|
      invariant raw == PartsTokens(parts[..k])
    {
      assert parts[..k + 1][..k] == parts[..k];
      var matches := GlobalMatch(parts[k]);
      if matches.Some? {
        raw := raw + matches.value;
      } else if parts[k] != "" {
        raw := raw + [parts[k]];
      }
    }
    assert parts[..|parts|] == parts;
    syllables := FinishAll(raw);
  }

  // --- What every syllable looks like -------------------------------------

  /** The tokens of a part are non-empty and made of the part's characters. */
  lemma PartTokensChars(part: string)
    ensures forall t :: t in PartTokens(part) ==> t != [] && CharsFrom(t, part)
  {
    ScanTokens(part, 0);
  }

  /** A character in none of the parts is in none of their tokens, and every
      token is non-empty. */
  lemma {:induction false} PartsTokensAvoid(parts: seq<string>, c: char)
    requires forall i :: 0 <= i < |parts| ==> c !in parts[i]
    ensures forall t :: t in PartsTokens(parts) ==> t != [] && c !in t
    decreases |parts|
  {
    if parts != [] {
      var init, last := parts[..|parts| - 1], parts[|parts| - 1];
      PartsTokensAvoid(init, c);
      PartTokensChars(last);
    }
  }

  /** Restoring removes every placeholder. */
  lemma RestoreHasNoPlaceholder(t: string)
    ensures forall k :: 0 <= k < |Restore(t)| ==> !IsPlaceholder(Restore(t)[k])
  {
    var t1 := ReplaceAll(t, "\U{00A3}", "lh");
    var t2 := ReplaceAll(t1, "\U{00A2}", "nh");
    var t3 := ReplaceAll(t2, "\U{00A7}", "ch");
    var t4 := ReplaceAll(t3, "\U{00AC}", "qu");
    var t5 := ReplaceAll(t4, "\U{00B5}", "gu");
    ReplaceAllRemoves(t, '\U{00A3}', "lh");
    ReplaceAllAvoids(t1, "\U{00A2}", "nh", '\U{00A3}');
    ReplaceAllAvoids(t2, "\U{00A7}", "ch", '\U{00A3}');
    ReplaceAllAvoids(t3, "\U{00AC}", "qu", '\U{00A3}');
    ReplaceAllAvoids(t4, "\U{00B5}", "gu", '\U{00A3}');
    ReplaceAllRemoves(t1, '\U{00A2}', "nh");
    ReplaceAllAvoids(t2, "\U{00A7}", "ch", '\U{00A2}');
    ReplaceAllAvoids(t3, "\U{00AC}", "qu", '\U{00A2}');
    ReplaceAllAvoids(t4, "\U{00B5}", "gu", '\U{00A2}');
    ReplaceAllRemoves(t2, '\U{00A7}', "ch");
    ReplaceAllAvoids(t3, "\U{00AC}", "qu", '\U{00A7}');
    ReplaceAllAvoids(t4, "\U{00B5}", "gu", '\U{00A7}');
    ReplaceAllRemoves(t3, '\U{00AC}', "qu");
    ReplaceAllAvoids(t4, "\U{00B5}", "gu", '\U{00AC}');
    ReplaceAllRemoves(t4, '\U{00B5}', "gu");
    assert Restore(t) == t5;
  }

  /** Restoring adds no character but the letters of the digraphs. */
  lemma RestoreAvoids(t: string, c: char)
    requires c !in t && c !in "lhncqug"
    ensures c !in Restore(t)
  {
    var t1 := ReplaceAll(t, "\U{00A3}", "lh");
    var t2 := ReplaceAll(t1, "\U{00A2}", "nh");
    var t3 := ReplaceAll(t2, "\U{00A7}", "ch");
    var t4 := ReplaceAll(t3, "\U{00AC}", "qu");
    ReplaceAllAvoids(t, "\U{00A3}", "lh", c);
    ReplaceAllAvoids(t1, "\U{00A2}", "nh", c);
    ReplaceAllAvoids(t2, "\U{00A7}", "ch", c);
    ReplaceAllAvoids(t3, "\U{00AC}", "qu", c);
    ReplaceAllAvoids(t4, "\U{00B5}", "gu", c);
  }

  /** A word with neither `h` nor `u` has no digraph to hide. */
  lemma HideDigraphsKeeps(w: string)
    requires 'h' !in w && 'u' !in w
    ensures HideDigraphs(w) == w
  {
    ReplaceAllAbsent(w, "lh", "\U{00A3}", 'h');
    ReplaceAllAbsent(w, "nh", "\U{00A2}", 'h');
    ReplaceAllAbsent(w, "ch", "\U{00A7}", 'h');
    ReplaceAllAbsent(w, "qu", "\U{00AC}", 'u');
    ReplaceAllAbsent(w, "gu", "\U{00B5}", 'u');
  }

  /** A word with none of the five clusters has nothing to mark. */
  lemma MarkClustersKeeps(w: string)
    requires NoPair(w, 'r', 'r') && NoPair(w, 's', 's') && NoPair(w, 's', 'c')
    requires NoPair(w, 's', '\U{00E7}') && NoPair(w, 'x', 'c')
    ensures MarkClusters(w) == w
  {
    ReplaceAllNoPair(w, "rr", "r-r");
    ReplaceAllNoPair(w, "ss", "s-s");
    ReplaceAllNoPair(w, "sc", "s-c");
    ReplaceAllNoPair(w, "s\U{00E7}", "s-\U{00E7}");
    ReplaceAllNoPair(w, "xc", "x-c");
  }

  /** A token without placeholders is left alone by restoring. */
  lemma RestoreKeeps(t: string)
    requires forall k :: 0 <= k < |t| ==> !IsPlaceholder(t[k])
    ensures Restore(t) == t
  {
    ReplaceAllAbsent(t, "\U{00A3}", "lh", '\U{00A3}');
    ReplaceAllAbsent(t, "\U{00A2}", "nh", '\U{00A2}');
    ReplaceAllAbsent(t, "\U{00A7}", "ch", '\U{00A7}');
    ReplaceAllAbsent(t, "\U{00AC}", "qu", '\U{00AC}');
    ReplaceAllAbsent(t, "\U{00B5}", "gu", '\U{00B5}');
  }

  /** Restoring never shortens a token. */
  lemma RestoreGrows(t: string)
    ensures |Restore(t)| >= |t|
  {
    var t1 := ReplaceAll(t, "\U{00A3}", "lh");
    var t2 := ReplaceAll(t1, "\U{00A2}", "nh");
    var t3 := ReplaceAll(t2, "\U{00A7}", "ch");
    var t4 := ReplaceAll(t3, "\U{00AC}", "qu");
    ReplaceAllGrows(t, "\U{00A3}", "lh");
    ReplaceAllGrows(t1, "\U{00A2}", "nh");
    ReplaceAllGrows(t2, "\U{00A7}", "ch");
    ReplaceAllGrows(t3, "\U{00AC}", "qu");
    ReplaceAllGrows(t4, "\U{00B5}", "gu");
  }

  /** A finished token that came from a non-empty raw token without `c`
      (a character below `A` that no digraph contains) has no `c` either. */
  lemma FinishAvoids(t: string, c: char)
    requires c < 'A' && c !in t
    ensures c !in Finish(t)
  {
    RestoreAvoids(t, c);
    UpperCharKeepsNonLetters(c);
  }

  /** Upper-casing creates no placeholder. */
  lemma UpperCharPlaceholder(d: char)
    ensures IsPlaceholder(UpperChar(d)) ==> IsPlaceholder(d)
  {
  }

  /** The shape of one finished token. */
  lemma FinishShape(r: string)
    requires r != [] && '-' !in r
    ensures Finish(r) != [] && IsUpperText(Finish(r)) && '-' !in Finish(r)
    ensures forall k :: 0 <= k < |Finish(r)| ==> !IsPlaceholder(Finish(r)[k])
  {
    RestoreGrows(r);
    UpperIsUpperText(Restore(r));
    FinishAvoids(r, '-');
    RestoreHasNoPlaceholder(r);
    forall k | 0 <= k < |Finish(r)| ensures !IsPlaceholder(Finish(r)[k]) {
      UpperCharPlaceholder(Restore(r)[k]);
    }
  }

  /** Every syllable is non-empty, upper-case, free of `-` and free of
      placeholders: each placeholder has been turned back into its digraph. */
  lemma SyllableShape(word: string)
    ensures forall t :: t in Syllabify(word) ==> FinishedShape(t)
  {
    if word != "" {
      var parts := SplitOn(Prepare(word), '-');
      var raw := PartsTokens(parts);
      PartsTokensAvoid(parts, '-');
      forall i | 0 <= i < |raw| ensures FinishedShape(Finish(raw[i])) {
        assert raw[i] in raw;
        FinishShape(raw[i]);
      }
    }
  }

  /** Non-empty, upper-case, without `-` and without placeholders. */
  predicate FinishedShape(t: string) {
    t != [] && IsUpperText(t) && '-' !in t && forall k :: 0 <= k < |t| ==> !IsPlaceholder(t[k])
  }

  /** A part with a vowel yields its matches; a part without one yields
      itself whole, or nothing when it is empty. */
  lemma PartTokensCases(part: string)
    ensures (exists k :: 0 <= k < |part| && IsVowel(part[k])) ==> PartTokens(part) == ScanFrom(part, 0)
    ensures (forall k :: 0 <= k < |part| ==> !IsVowel(part[k])) ==>
      PartTokens(part) == if part == "" then [] else [part]
  {
    GlobalMatchNoneIff(part);
  }

  /** The tokens of a part keep all its vowels, in order. */
  lemma PartKeepsVowels(part: string)
    ensures Vowels(Concat(PartTokens(part))) == Vowels(part)
  {
    match GlobalMatch(part)
    case Some(m) =>
      ScanKeepsVowels(part, 0);
      assert part[0..] == part;
    case None =>
      if part != "" {
        assert [part][1..] == [];
        assert Concat([part]) == part + Concat([]);
        assert part + [] == part;
      }
  }

  // --- Digraphs stay whole, clusters are cut -----------------------------

  /** `s` holds none of the digraphs lh, nh, ch, qu, gu as two letters. */
  predicate NoDigraph(s: string) {
    NoPair(s, 'l', 'h') && NoPair(s, 'n', 'h') && NoPair(s, 'c', 'h') && NoPair(s, 'q', 'u') && NoPair(s, 'g', 'u')
  }

  lemma NoDigraphSlice(s: string, i: nat, j: nat)
    requires i <= j <= |s| && NoDigraph(s)
    ensures NoDigraph(s[i..j])
  {
    NoPairSlice(s, i, j, 'l', 'h');
    NoPairSlice(s, i, j, 'n', 'h');
    NoPairSlice(s, i, j, 'c', 'h');
    NoPairSlice(s, i, j, 'q', 'u');
    NoPairSlice(s, i, j, 'g', 'u');
  }

  /** Once the digraphs are hidden, none of them is left as two letters, so
      the scan can never cut one. */
  lemma HideDigraphsClean(w: string)
    ensures NoDigraph(HideDigraphs(w))
  {
    var w1 := ReplaceAll(w, "lh", "\U{00A3}");
    var w2 := ReplaceAll(w1, "nh", "\U{00A2}");
    var w3 := ReplaceAll(w2, "ch", "\U{00A7}");
    var w4 := ReplaceAll(w3, "qu", "\U{00AC}");
    var w5 := ReplaceAll(w4, "gu", "\U{00B5}");
    ReplacePairByChar(w, 'l', 'h', '\U{00A3}', 'l', 'h');
    ReplacePairByChar(w1, 'n', 'h', '\U{00A2}', 'l', 'h');
    ReplacePairByChar(w2, 'c', 'h', '\U{00A7}', 'l', 'h');
    ReplacePairByChar(w2, 'c', 'h', '\U{00A7}', 'n', 'h');
    ReplacePairByChar(w3, 'q', 'u', '\U{00AC}', 'l', 'h');
    ReplacePairByChar(w3, 'q', 'u', '\U{00AC}', 'n', 'h');
    ReplacePairByChar(w3, 'q', 'u', '\U{00AC}', 'c', 'h');
    ReplacePairByChar(w4, 'g', 'u', '\U{00B5}', 'l', 'h');
    ReplacePairByChar(w4, 'g', 'u', '\U{00B5}', 'n', 'h');
    ReplacePairByChar(w4, 'g', 'u', '\U{00B5}', 'c', 'h');
    ReplacePairByChar(w4, 'g', 'u', '\U{00B5}', 'q', 'u');
  }

  /** Marking one cluster creates no digraph. */
  lemma MarkKeepsNoDigraph(s: string, a: char, b: char)
    requires NoDigraph(s)
    ensures NoDigraph(ReplaceAll(s, [a, b], [a, '-', b]))
  {
    MarkPairKeeps(s, a, b, 'l', 'h');
    MarkPairKeeps(s, a, b, 'n', 'h');
    MarkPairKeeps(s, a, b, 'c', 'h');
    MarkPairKeeps(s, a, b, 'q', 'u');
    MarkPairKeeps(s, a, b, 'g', 'u');
  }

  /** Marking the clusters creates no digraph. */
  lemma MarkClustersKeepsNoDigraph(w: string)
    requires NoDigraph(w)
    ensures NoDigraph(MarkClusters(w))
  {
    var w1 := ReplaceAll(w, "rr", "r-r");
    var w2 := ReplaceAll(w1, "ss", "s-s");
    var w3 := ReplaceAll(w2, "sc", "s-c");
    var w4 := ReplaceAll(w3, "s\U{00E7}", "s-\U{00E7}");
    MarkKeepsNoDigraph(w, 'r', 'r');
    MarkKeepsNoDigraph(w1, 's', 's');
    MarkKeepsNoDigraph(w2, 's', 'c');
    MarkKeepsNoDigraph(w3, 's', '\U{00E7}');
    MarkKeepsNoDigraph(w4, 'x', 'c');
  }

  /** The prepared word, and so every part it is split into, holds no
      digraph as two letters: each one is a single placeholder. */
  lemma PrepareNoDigraph(word: string)
    ensures NoDigraph(Prepare(word))
    ensures forall k :: 0 <= k < |SplitOn(Prepare(word), '-')| ==> NoDigraph(SplitOn(Prepare(word), '-')[k])
  {
    var p := Prepare(word);
    HideDigraphsClean(Lower(word));
    MarkClustersKeepsNoDigraph(HideDigraphs(Lower(word)));
    SplitOnSlices(p, '-');
    forall k | 0 <= k < |SplitOn(p, '-')| ensures NoDigraph(SplitOn(p, '-')[k]) {
      var i, j :| 0 <= i <= j <= |p| && SplitOn(p, '-')[k] == p[i..j];
      NoDigraphSlice(p, i, j);
    }
  }

  /** The clusters the source separates. */
  const Clusters: set<(char, char)> := {('r', 'r'), ('s', 's'), ('s', 'c'), ('s', '\U{00E7}'), ('x', 'c')}

  /** After marking, no sc, sç or xc is left whole, and every rr or ss that
      is left follows a `-` (the second letter of a split pair, as in rrr). */
  predicate ClustersMarked(s: string) {
    NoPair(s, 's', 'c') && NoPair(s, 's', '\U{00E7}') && NoPair(s, 'x', 'c')
    && DoublesAfterDash(s, 'r') && DoublesAfterDash(s, 's')
  }

  /** `MarkClusters` cuts every cluster it finds with a `-`. */
  lemma MarkClustersSplits(w: string)
    ensures ClustersMarked(MarkClusters(w))
  {
    var w1 := ReplaceAll(w, "rr", "r-r");
    var w2 := ReplaceAll(w1, "ss", "s-s");
    var w3 := ReplaceAll(w2, "sc", "s-c");
    var w4 := ReplaceAll(w3, "s\U{00E7}", "s-\U{00E7}");
    var w5 := ReplaceAll(w4, "xc", "x-c");
    MarkDoubleSplits(w, 'r');
    MarkDoubleSplits(w1, 's');
    MarkPairKeepsDoubles(w1, 's', 's', 'r');
    MarkPairClears(w2, 's', 'c');
    MarkPairKeepsDoubles(w2, 's', 'c', 'r');
    MarkPairKeepsDoubles(w2, 's', 'c', 's');
    MarkPairClears(w3, 's', '\U{00E7}');
    MarkPairKeeps(w3, 's', '\U{00E7}', 's', 'c');
    MarkPairKeepsDoubles(w3, 's', '\U{00E7}', 'r');
    MarkPairKeepsDoubles(w3, 's', '\U{00E7}', 's');
    MarkPairClears(w4, 'x', 'c');
    MarkPairKeeps(w4, 'x', 'c', 's', 'c');
    MarkPairKeeps(w4, 'x', 'c', 's', '\U{00E7}');
    MarkPairKeepsDoubles(w4, 'x', 'c', 'r');
    MarkPairKeepsDoubles(w4, 'x', 'c', 's');
    assert MarkClusters(w) == w5;
  }

  /** Marking one cluster keeps every `-` strictly inside the text, between
      the two letters of a cluster. */
  lemma MarkStepDashes(s: string, a: char, b: char)
    requires (a, b) in Clusters && DashesBetween(s, Clusters)
    ensures DashesBetween(ReplaceAll(s, [a, b], [a, '-', b]), Clusters)
  {
    MarkPairDashes(s, a, b, Clusters);
    if s != [] {
      MarkPairLast(s, a, b);
    }
  }

  /** In a word without `-`, every `-` that marking puts in lies strictly
      inside the word, between the two letters of a cluster. */
  lemma MarkClustersDashes(w: string)
    requires '-' !in w
    ensures DashesBetween(MarkClusters(w), Clusters)
  {
    var w1 := ReplaceAll(w, "rr", "r-r");
    var w2 := ReplaceAll(w1, "ss", "s-s");
    var w3 := ReplaceAll(w2, "sc", "s-c");
    var w4 := ReplaceAll(w3, "s\U{00E7}", "s-\U{00E7}");
    assert DashesBetween(w, Clusters) by {
      if w != [] {
        assert w[0] in w && w[|w| - 1] in w;
      }
    }
    MarkStepDashes(w, 'r', 'r');
    MarkStepDashes(w1, 's', 's');
    MarkStepDashes(w2, 's', 'c');
    MarkStepDashes(w3, 's', '\U{00E7}');
    MarkStepDashes(w4, 'x', 'c');
  }

  /** Every match of the scan is a slice of the scanned text. */
  lemma {:induction false} ScanSlices(s: string, i: nat)
    requires i <= |s|
    ensures forall t :: t in ScanFrom(s, i) ==> exists a, b :: i <= a <= b <= |s| && t == s[a..b]
    decreases |s| - i
  {
    if i < |s| {
      match MatchAt(s, i)
      case Some(e) =>
        ScanSlices(s, e);
      case None =>
        ScanSlices(s, i + 1);
    }
  }

  lemma PartTokensSlices(part: string)
    ensures forall t :: t in PartTokens(part) ==> exists a, b :: 0 <= a <= b <= |part| && t == part[a..b]
  {
    ScanSlices(part, 0);
    assert part[0..|part|] == part;
  }

  /** Every token of the parts is a slice of one part. */
  lemma {:induction false} PartsTokensSlices(parts: seq<string>)
    ensures forall t :: t in PartsTokens(parts) ==>
      exists j, a, b :: 0 <= j < |parts| && 0 <= a <= b <= |parts[j]| && t == parts[j][a..b]
    decreases |parts|
  {
    if parts != [] {
      var init, last := parts[..|parts| - 1], parts[|parts| - 1];
      PartsTokensSlices(init);
      PartTokensSlices(last);
      forall t | t in PartsTokens(parts)
        ensures exists j, a, b :: 0 <= j < |parts| && 0 <= a <= b <= |parts[j]| && t == parts[j][a..b]
      {
        if t in PartsTokens(init) {
          var j, a, b :| 0 <= j < |init| && 0 <= a <= b <= |init[j]| && t == init[j][a..b];
          assert init[j] == parts[j];
        } else {
          var a, b :| 0 <= a <= b <= |last| && t == last[a..b];
          assert parts[|parts| - 1] == last;
        }
      }
    }
  }

  /** Where each syllable comes from: it is the restored, upper-cased text of
      a contiguous piece of one `-`-separated part of the prepared word, and
      that piece holds no digraph as two letters. So every digraph is in one
      syllable whole, as a placeholder that restoring turns back into its
      two letters. */
  lemma SyllableSources(word: string)
    ensures forall k :: 0 <= k < |Syllabify(word)| ==>
      FromPart(Syllabify(word)[k], SplitOn(Prepare(word), '-'))
  {
    if word != "" {
      var parts := SplitOn(Prepare(word), '-');
      var raw := PartsTokens(parts);
      var syl := Syllabify(word);
      PartsTokensSlices(parts);
      PrepareNoDigraph(word);
      assert syl == FinishAll(raw);
      forall k | 0 <= k < |syl| ensures FromPart(syl[k], parts) {
        assert raw[k] in raw;
        var j, a, b :| 0 <= j < |parts| && 0 <= a <= b <= |parts[j]| && raw[k] == parts[j][a..b];
        NoDigraphSlice(parts[j], a, b);
        assert syl[k] == Finish(parts[j][a..b]);
      }
    }
  }

  /** `t` is the finished form of a digraph-free slice of one of `parts`. */
  ghost predicate FromPart(t: string, parts: seq<string>) {
    exists j, a, b :: 0 <= j < |parts| && 0 <= a <= b <= |parts[j]|
      && t == Finish(parts[j][a..b]) && NoDigraph(parts[j][a..b])
  }

  /** Parts yield at least one token as soon as one of them is non-empty. */
  lemma {:induction false} PartsTokensNonEmpty(parts: seq<string>, k: nat)
    requires k < |parts| && parts[k] != []
    ensures PartsTokens(parts) != []
    decreases |parts|
  {
    if k < |parts| - 1 {
      assert parts[..|parts| - 1][k] == parts[k];
      PartsTokensNonEmpty(parts[..|parts| - 1], k);
    }
  }

  /** A word with a character other than `-` has at least one syllable. */
  lemma SyllabifyNonEmpty(word: string)
    requires HasOther(word, '-')
    ensures Syllabify(word) != []
  {
    var k :| 0 <= k < |word| && word[k] != '-';
    UpperCharKeepsNonLetters('-');
    var w0 := Lower(word);
    assert w0[k] != '-';
    var w1 := ReplaceAll(w0, "lh", "\U{00A3}");
    var w2 := ReplaceAll(w1, "nh", "\U{00A2}");
    var w3 := ReplaceAll(w2, "ch", "\U{00A7}");
    var w4 := ReplaceAll(w3, "qu", "\U{00AC}");
    var w5 := ReplaceAll(w4, "gu", "\U{00B5}");
    assert "\U{00A3}"[0] != '-' && "\U{00A2}"[0] != '-' && "\U{00A7}"[0] != '-';
    assert "\U{00AC}"[0] != '-' && "\U{00B5}"[0] != '-';
    ReplaceAllHasOther(w0, "lh", "\U{00A3}", '-');
    ReplaceAllHasOther(w1, "nh", "\U{00A2}", '-');
    ReplaceAllHasOther(w2, "ch", "\U{00A7}", '-');
    ReplaceAllHasOther(w3, "qu", "\U{00AC}", '-');
    ReplaceAllHasOther(w4, "gu", "\U{00B5}", '-');
    var v1 := ReplaceAll(w5, "rr", "r-r");
    var v2 := ReplaceAll(v1, "ss", "s-s");
    var v3 := ReplaceAll(v2, "sc", "s-c");
    var v4 := ReplaceAll(v3, "s\U{00E7}", "s-\U{00E7}");
    var v5 := ReplaceAll(v4, "xc", "x-c");
    assert "r-r"[0] != '-' && "s-s"[0] != '-' && "s-c"[0] != '-';
    assert "s-\U{00E7}"[0] != '-' && "x-c"[0] != '-';
    ReplaceAllHasOther(w5, "rr", "r-r", '-');
    ReplaceAllHasOther(v1, "ss", "s-s", '-');
    ReplaceAllHasOther(v2, "sc", "s-c", '-');
    ReplaceAllHasOther(v3, "s\U{00E7}", "s-\U{00E7}", '-');
    ReplaceAllHasOther(v4, "xc", "x-c", '-');
    assert Prepare(word) == v5;
    var parts := SplitOn(v5, '-');
    SplitOnHasNonEmpty(v5, '-');
    var j :| 0 <= j < |parts| && parts[j] != [];
    PartsTokensNonEmpty(parts, j);
  }

  /** A character below `A` other than `-` that is not in the word is in
      none of its syllables. */
  lemma SyllabifyAvoids(word: string, c: char)
    requires c < 'A' && c != '-' && c !in word
    ensures forall t :: t in Syllabify(word) ==> c !in t
  {
    if word != "" {
      UpperCharKeepsNonLetters(c);
      var w0 := Lower(word);
      assert c !in w0;
      var w1 := ReplaceAll(w0, "lh", "\U{00A3}");
      var w2 := ReplaceAll(w1, "nh", "\U{00A2}");
      var w3 := ReplaceAll(w2, "ch", "\U{00A7}");
      var w4 := ReplaceAll(w3, "qu", "\U{00AC}");
      var w5 := ReplaceAll(w4, "gu", "\U{00B5}");
      ReplaceAllAvoids(w0, "lh", "\U{00A3}", c);
      ReplaceAllAvoids(w1, "nh", "\U{00A2}", c);
      ReplaceAllAvoids(w2, "ch", "\U{00A7}", c);
      ReplaceAllAvoids(w3, "qu", "\U{00AC}", c);
      ReplaceAllAvoids(w4, "gu", "\U{00B5}", c);
      var v1 := ReplaceAll(w5, "rr", "r-r");
      var v2 := ReplaceAll(v1, "ss", "s-s");
      var v3 := ReplaceAll(v2, "sc", "s-c");
      var v4 := ReplaceAll(v3, "s\U{00E7}", "s-\U{00E7}");
      var v5 := ReplaceAll(v4, "xc", "x-c");
      ReplaceAllAvoids(w5, "rr", "r-r", c);
      ReplaceAllAvoids(v1, "ss", "s-s", c);
      ReplaceAllAvoids(v2, "sc", "s-c", c);
      ReplaceAllAvoids(v3, "s\U{00E7}", "s-\U{00E7}", c);
      ReplaceAllAvoids(v4, "xc", "x-c", c);
      assert Prepare(word) == v5;
      var parts := SplitOn(v5, '-');
      SplitOnAvoids(v5, '-', c);
      PartsTokensAvoid(parts, c);
      var raw := PartsTokens(parts);
      forall i | 0 <= i < |raw| ensures c !in Finish(raw[i]) {
        assert raw[i] in raw;
        FinishAvoids(raw[i], c);
      }
    }
  }

  // --- Sentences --------------------------------------------------------

  /** `trimStart`: drop leading white space. */
  function TrimStart(s: string): (r: string)
    ensures |r| <= |s| && r == s[|s| - |r|..]
    ensures r != [] ==> !IsSpace(r[0])
    ensures forall k :: 0 <= k < |s| - |r| ==> IsSpace(s[k])
    decreases |s|
  {
    if s != [] && IsSpace(s[0]) then TrimStart(s[1..]) else s
  }

  /** `trimEnd`: drop trailing white space. */
  function TrimEnd(s: string): (r: string)
    ensures |r| <= |s| && r == s[..|r|]
    ensures r != [] ==> !IsSpace(r[|r| - 1])
    ensures forall k :: |r| <= k < |s| ==> IsSpace(s[k])
    decreases |s|
  {
    if s != [] && IsSpace(s[|s| - 1]) then TrimEnd(s[..|s| - 1]) else s
  }

  function Trim(s: string): string {
    TrimEnd(TrimStart(s))
  }

  /** First white-space position at or after `i`, or `|s|`. */
  function SpaceIndex(s: string, i: nat): (r: nat)
    requires i <= |s|
    ensures i <= r <= |s|
    ensures forall k :: i <= k < r ==> !IsSpace(s[k])
    ensures r < |s| ==> IsSpace(s[r])
    decreases |s| - i
  {
    if i == |s| || IsSpace(s[i]) then i else SpaceIndex(s, i + 1)
  }

  /** End of the white-space run starting at `i`. */
  function SpaceRunEnd(s: string, i: nat): (r: nat)
    requires i <= |s|
    ensures i <= r <= |s|
    ensures forall k :: i <= k < r ==> IsSpace(s[k])
    ensures r < |s| ==> !IsSpace(s[r])
    decreases |s| - i
  {
    if i < |s| && IsSpace(s[i]) then SpaceRunEnd(s, i + 1) else i
  }

  /** `s.split(/\s+/)`: the pieces between maximal runs of white space. */
  function SplitWs(s: string): (r: seq<string>)
    ensures |r| >= 1
    decreases |s|
  {
    if SpaceIndex(s, 0) == |s| then [s]
    else [s[..SpaceIndex(s, 0)]] + SplitWs(s[SpaceRunEnd(s, SpaceIndex(s, 0))..])
  }

  /** No piece of the split holds white space. */
  lemma {:induction false} SplitWsNoSpace(s: string)
    ensures forall k, j :: 0 <= k < |SplitWs(s)| && 0 <= j < |SplitWs(s)[k]| ==> !IsSpace(SplitWs(s)[k][j])
    decreases |s|
  {
    var i := SpaceIndex(s, 0);
    if i < |s| {
      SplitWsNoSpace(s[SpaceRunEnd(s, i)..]);
    }
  }

  /** The text without its white space. */
  function NonSpace(s: string): (r: string)
    ensures |r| <= |s|
  {
    if s == [] then [] else (if IsSpace(s[0]) then [] else [s[0]]) + NonSpace(s[1..])
  }

  lemma {:induction false} NonSpaceAppend(a: string, b: string)
    ensures NonSpace(a + b) == NonSpace(a) + NonSpace(b)
  {
    if a != [] {
      assert (a + b)[1..] == a[1..] + b;
      NonSpaceAppend(a[1..], b);
    } else {
      assert a + b == b;
    }
  }

  lemma {:induction false} NonSpaceOfSpaces(s: string)
    requires forall k :: 0 <= k < |s| ==> IsSpace(s[k])
    ensures NonSpace(s) == []
  {
    if s != [] {
      NonSpaceOfSpaces(s[1..]);
    }
  }

  lemma {:induction false} NonSpaceOfWord(s: string)
    requires forall k :: 0 <= k < |s| ==> !IsSpace(s[k])
    ensures NonSpace(s) == s
  {
    if s != [] {
      NonSpaceOfWord(s[1..]);
    }
  }

  lemma NonSpaceJoin(w: string, sp: string, rest: string)
    requires NonSpace(w) == w && NonSpace(sp) == []
    ensures NonSpace(w + (sp + rest)) == w + NonSpace(rest)
  {
    var x := NonSpace(rest);
    calc {
      NonSpace(w + (sp + rest));
      { NonSpaceAppend(w, sp + rest); }
      NonSpace(w) + NonSpace(sp + rest);
      { NonSpaceAppend(sp, rest); }
      w + (NonSpace(sp) + x);
      { assert NonSpace(sp) + x == x; }
      w + x;
    }
  }

  /** The pieces of the split, put back together, are exactly the text's
      non-space characters in order. */
  lemma {:induction false} SplitWsKeepsText(s: string)
    ensures Concat(SplitWs(s)) == NonSpace(s)
    decreases |s|
  {
    var i := SpaceIndex(s, 0);
    if i == |s| {
      NonSpaceOfWord(s);
    } else {
      var e := SpaceRunEnd(s, i);
      var rest := SplitWs(s[e..]);
      assert SplitWs(s) == [s[..i]] + rest;
      assert ([s[..i]] + rest)[1..] == rest;
      SplitWsKeepsText(s[e..]);
      assert NonSpace(s[..i]) == s[..i] by { NonSpaceOfWord(s[..i]); }
      assert NonSpace(s[i..e]) == [] by { NonSpaceOfSpaces(s[i..e]); }
      SliceThree(s, i, e);
      NonSpaceJoin(s[..i], s[i..e], s[e..]);
    }
  }

  /** `.,!?;:` */
  predicate IsPunct(c: char) {
    c == '.' || c == ',' || c == '!' || c == '?' || c == ';' || c == ':'
  }

  /** The characters `.` does not match. */
  predicate IsLineTerminator(c: char) {
    c == '\n' || c == '\r' || c == '\U{2028}' || c == '\U{2029}'
  }

  /** Start of the run of punctuation that ends the word. */
  function PunctRunStart(w: string): (r: nat)
    ensures r <= |w|
    ensures forall k :: r <= k < |w| ==> IsPunct(w[k])
    ensures r > 0 ==> !IsPunct(w[r - 1])
    decreases |w|
  {
    if w != [] && IsPunct(w[|w| - 1]) then PunctRunStart(w[..|w| - 1]) else |w|
  }

  /** `word.match(/^(.+?)([.,!?;:]*)$/)`: the word and its trailing
      punctuation; with no match the word is kept whole. */
  function PunctSplit(w: string): (r: (string, string))
    ensures r.0 + r.1 == w
    ensures forall k :: 0 <= k < |r.1| ==> IsPunct(r.1[k])
    ensures (w != [] && forall k :: 0 <= k < |w| ==> !IsLineTerminator(w[k])) ==>
      |r.0| >= 1 && (|r.0| > 1 ==> !IsPunct(r.0[|r.0| - 1]))
  {
    if w == [] || exists k :: 0 <= k < |w| && IsLineTerminator(w[k]) then (w, [])
    else
      var k := if PunctRunStart(w) == 0 then 1 else PunctRunStart(w);
      (w[..k], w[k..])
  }

  /** Glue the punctuation to the last syllable, or make it a token of its
      own when there is no syllable. */
  function Attach(syllables: seq<string>, punctuation: string): seq<string> {
    if punctuation != [] && |syllables| > 0 then
      syllables[..|syllables| - 1] + [syllables[|syllables| - 1] + punctuation]
    else if punctuation != [] then
      [punctuation]
    else
      syllables
  }

  /** The tokens one word contributes. */
  function WordTokens(word: string): seq<string> {
    Attach(Syllabify(PunctSplit(word).0), PunctSplit(word).1)
  }

  /** Groups of tokens in order, with a `" "` token between neighbours. */
  function Interleave(groups: seq<seq<string>>): seq<string>
    decreases |groups|
  {
    if groups == [] then []
    else if |groups| == 1 then groups[0]
    else groups[0] + [" "] + Interleave(groups[1..])
  }

  /** The tokens of each word. */
  function WordGroups(ws: seq<string>): (r: seq<seq<string>>)
    ensures |r| == |ws| && forall i :: 0 <= i < |ws| ==> r[i] == WordTokens(ws[i])
  {
    seq(|ws|, i requires 0 <= i < |ws| => WordTokens(ws[i]))
  }

  /** The whitespace-separated words of a sentence. */
  function Words(sentence: string): seq<string> {
    SplitWs(Trim(sentence))
  }

  /** The tokens `splitSentenceIntoSyllables` returns. */
  function SplitSentence(sentence: string): seq<string> {
    if sentence == "" then [] else Interleave(WordGroups(Words(sentence)))
  }

  /** One step of the loop over the words: group `i` and, unless it is the
      last one, a space token. */
  lemma InterleaveStep(groups: seq<seq<string>>, i: nat)
    requires i < |groups|
    ensures Interleave(groups[i..]) ==
      if i < |groups| - 1 then groups[i] + [" "] + Interleave(groups[i + 1..]) else groups[i]
  {
    assert groups[i..][0] == groups[i];
    if i < |groups| - 1 {
      assert groups[i..][1..] == groups[i + 1..];
    }
  }

  /** The body of the loop for one word: peel the punctuation, syllabify,
      re-attach the punctuation. */
  method WordSyllables(word: string) returns (syllables: seq<string>)
    ensures syllables == WordTokens(word)
  {
    var split := PunctSplit(word);
    var cleanWord, punctuation := split.0, split.1;
    syllables := SyllabifyWord(cleanWord);
    ghost var syl := syllables;
    if punctuation != [] && |syllables| > 0 {
      UpdateLast(syl, syl[|syl| - 1] + punctuation);
      syllables := syllables[|syllables| - 1 := syllables[|syllables| - 1] + punctuation];
    } else if punctuation != [] {
      syllables := syllables + [punctuation];
    }
    assert syllables == Attach(syl, punctuation);
  }

  /** The loop's step, on abstract token groups: after appending group `i`
      (and a space unless it is the last), the rest still completes the
      interleaving. */
  lemma InterleaveAppend(groups: seq<seq<string>>, i: nat, acc: seq<string>)
    requires i < |groups|
    requires acc + Interleave(groups[i..]) == Interleave(groups)
    ensures i < |groups| - 1 ==> (acc + groups[i] + [" "]) + Interleave(groups[i + 1..]) == Interleave(groups)
    ensures i == |groups| - 1 ==> acc + groups[i] == Interleave(groups)
  {
    InterleaveStep(groups, i);
    if i < |groups| - 1 {
      AppendShift(acc, groups[i], [" "], Interleave(groups[i + 1..]));
    }
  }

  lemma AppendShift<T>(a: seq<T>, b: seq<T>, c: seq<T>, d: seq<T>)
    ensures a + (b + c + d) == (a + b + c) + d
  {
  }

  /** `splitSentenceIntoSyllables`: the loop over the words of the source. */
  method SplitSentenceIntoSyllables(sentence: string) returns (allSyllables: seq<string>)
    ensures allSyllables == SplitSentence(sentence)
    ensures sentence == "" ==> allSyllables == []
  {
    if sentence == "" {
      return [];
    }
    var words := Words(sentence);
    ghost var groups := WordGroups(words);
    allSyllables := [];
    for index := 0 to |words|
      invariant index < |words| ==> allSyllables + Interleave(groups[index..]) == Interleave(groups)
      invariant index == |words| ==> allSyllables == Interleave(groups)
    {
      var syllables := WordSyllables(words[index]);
      assert syllables == groups[index];
      InterleaveAppend(groups, index, allSyllables);
      if index < |words| - 1 {
        allSyllables := allSyllables + syllables + [" "];
      } else {
        allSyllables := allSyllables + syllables;
      }
    }
  }

  // --- What the sentence tokens look like -------------------------------

  /** How many tokens equal `x`. */
  function CountOf(ts: seq<string>, x: string): (r: nat)
    ensures r <= |ts|
  {
    if ts == [] then 0 else (if ts[0] == x then 1 else 0) + CountOf(ts[1..], x)
  }

  lemma {:induction false} CountOfAppend(a: seq<string>, b: seq<string>, x: string)
    ensures CountOf(a + b, x) == CountOf(a, x) + CountOf(b, x)
  {
    if a != [] {
      assert (a + b)[1..] == a[1..] + b;
      CountOfAppend(a[1..], b, x);
    } else {
      assert a + b == b;
    }
  }

  lemma {:induction false} CountOfAbsent(ts: seq<string>, x: string)
    requires x !in ts
    ensures CountOf(ts, x) == 0
  {
    if ts != [] {
      CountOfAbsent(ts[1..], x);
    }
  }

  /** Groups without space tokens give exactly one space token per gap. */
  lemma {:induction false} InterleaveSpaces(groups: seq<seq<string>>)
    requires groups != [] && forall i :: 0 <= i < |groups| ==> " " !in groups[i]
    ensures CountOf(Interleave(groups), " ") == |groups| - 1
    decreases |groups|
  {
    CountOfAbsent(groups[0], " ");
    if |groups| > 1 {
      InterleaveSpaces(groups[1..]);
      CountOfAppend(groups[0] + [" "], Interleave(groups[1..]), " ");
      CountOfAppend(groups[0], [" "], " ");
      assert CountOf([" "], " ") == 1 by { assert [" "][1..] == []; }
    }
  }

  /** No space token at either end and never two in a row. */
  predicate WellSpaced(ts: seq<string>) {
    (ts != [] ==> ts[0] != " " && ts[|ts| - 1] != " ")
    && forall k :: 0 <= k < |ts| - 1 && ts[k] == " " ==> ts[k + 1] != " "
  }

  /** Non-empty groups without space tokens interleave well spaced. */
  lemma {:induction false} InterleaveWellSpaced(groups: seq<seq<string>>)
    requires forall i :: 0 <= i < |groups| ==> groups[i] != [] && " " !in groups[i]
    ensures WellSpaced(Interleave(groups))
    ensures groups != [] ==> Interleave(groups) != []
    decreases |groups|
  {
    if |groups| > 1 {
      var a, b := groups[0], Interleave(groups[1..]);
      InterleaveWellSpaced(groups[1..]);
      var r := a + [" "] + b;
      assert |b| > 0;
      forall k | 0 <= k < |r| - 1 && r[k] == " " ensures r[k + 1] != " " {
        if k > |a| {
          assert r[k] == b[k - |a| - 1] && r[k + 1] == b[k - |a|];
        }
      }
      assert r[0] == a[0] && r[|r| - 1] == b[|b| - 1];
    }
  }

  /** Attaching punctuation keeps the tokens non-empty and upper-case and
      brings in no character the punctuation does not have. */
  lemma AttachShape(syl: seq<string>, punct: string, c: char)
    requires forall t :: t in syl ==> t != [] && IsUpperText(t) && c !in t
    requires forall k :: 0 <= k < |punct| ==> IsPunct(punct[k])
    ensures forall t :: t in Attach(syl, punct) ==> t != [] && IsUpperText(t)
    ensures !IsPunct(c) ==> forall t :: t in Attach(syl, punct) ==> c !in t
    ensures (syl != [] || punct != []) ==> Attach(syl, punct) != []
  {
    if punct != [] && syl != [] {
      var n := |syl| - 1;
      assert syl[n] in syl;
      assert IsUpperText(syl[n] + punct);
      assert forall t :: t in syl[..n] ==> t in syl;
    }
  }

  /** Trailing punctuation ends up after the syllables: at the end of the
      last one, or as a token of its own when there is none. */
  lemma AttachPunctuation(syl: seq<string>, punct: string)
    ensures Concat(Attach(syl, punct)) == Concat(syl) + punct
    ensures |Attach(syl, punct)| == if syl == [] && punct != [] then 1 else |syl|
  {
    if punct != [] && syl != [] {
      var n := |syl| - 1;
      ConcatAppend(syl[..n], [syl[n]]);
      ConcatAppend(syl[..n], [syl[n] + punct]);
      assert syl == syl[..n] + [syl[n]];
      assert [syl[n]][1..] == [] && [syl[n] + punct][1..] == [];
    } else if punct != [] {
      assert [punct][1..] == [];
    }
  }

  /** Every token of a word is non-empty and upper-case. */
  lemma WordTokensUpper(w: string)
    ensures forall t :: t in WordTokens(w) ==> t != [] && IsUpperText(t)
  {
    var clean, punct := PunctSplit(w).0, PunctSplit(w).1;
    SyllableShape(clean);
    AttachShape(Syllabify(clean), punct, '-');
  }

  /** A word without white space has no token holding a space. */
  lemma WordTokensNoSpace(w: string)
    requires forall k :: 0 <= k < |w| ==> !IsSpace(w[k])
    ensures forall t :: t in WordTokens(w) ==> ' ' !in t
  {
    var clean, punct := PunctSplit(w).0, PunctSplit(w).1;
    assert ' ' !in clean by {
      assert forall k :: 0 <= k < |clean| ==> clean[k] == w[k];
    }
    SyllableShape(clean);
    SyllabifyAvoids(clean, ' ');
    AttachShape(Syllabify(clean), punct, ' ');
  }

  /** A word with a character other than `-` contributes at least one token. */
  lemma WordTokensNonEmpty(w: string)
    requires HasOther(w, '-')
    ensures WordTokens(w) != []
  {
    var clean, punct := PunctSplit(w).0, PunctSplit(w).1;
    if punct == [] {
      assert clean == w;
      SyllabifyNonEmpty(clean);
    }
  }

  /** A sentence of n words has exactly n - 1 space tokens. */
  lemma SentenceSpaces(sentence: string)
    requires sentence != ""
    ensures CountOf(SplitSentence(sentence), " ") == |Words(sentence)| - 1
  {
    var ws := Words(sentence);
    var groups := WordGroups(ws);
    SplitWsNoSpace(Trim(sentence));
    forall i | 0 <= i < |groups| ensures " " !in groups[i] {
      WordTokensNoSpace(ws[i]);
    }
    InterleaveSpaces(groups);
  }

  /** When every word has a character other than `-`, no space token leads,
      trails or follows another. */
  lemma SentenceWellSpaced(sentence: string)
    requires forall i :: 0 <= i < |Words(sentence)| ==> HasOther(Words(sentence)[i], '-')
    ensures WellSpaced(SplitSentence(sentence))
  {
    if sentence != "" {
      var ws := Words(sentence);
      var groups := WordGroups(ws);
      SplitWsNoSpace(Trim(sentence));
      forall i | 0 <= i < |groups| ensures groups[i] != [] && " " !in groups[i] {
        WordTokensNonEmpty(ws[i]);
        WordTokensNoSpace(ws[i]);
      }
      InterleaveWellSpaced(groups);
    }
  }

  /** Every token of a sentence is non-empty and upper-case. */
  lemma SentenceTokensUpper(sentence: string)
    ensures forall t :: t in SplitSentence(sentence) ==> t != [] && IsUpperText(t)
  {
    if sentence != "" {
      var groups := WordGroups(Words(sentence));
      forall i | 0 <= i < |groups| ensures forall t :: t in groups[i] ==> t != [] && IsUpperText(t) {
        WordTokensUpper(Words(sentence)[i]);
      }
      InterleaveTokens(groups);
    }
  }

  /** A token of the interleaving is a space or a token of some group. */
  lemma {:induction false} InterleaveTokens(groups: seq<seq<string>>)
    ensures forall t :: t in Interleave(groups) ==> t == " " || exists i :: 0 <= i < |groups| && t in groups[i]
    decreases |groups|
  {
    if |groups| > 1 {
      InterleaveTokens(groups[1..]);
      forall t | t in Interleave(groups[1..]) && t != " "
        ensures exists i :: 0 <= i < |groups| && t in groups[i]
      {
        var i :| 0 <= i < |groups[1..]| && t in groups[1..][i];
        assert t in groups[i + 1];
      }
    }
  }

  /** A sentence made only of white space has no tokens. */
  lemma BlankSentence(sentence: string)
    requires forall k :: 0 <= k < |sentence| ==> IsSpace(sentence[k])
    ensures SplitSentence(sentence) == []
  {
    if sentence != "" {
      assert TrimStart(sentence) == [];
      assert Words(sentence) == [""];
      assert PunctSplit("") == ("", "");
    }
  }
}
