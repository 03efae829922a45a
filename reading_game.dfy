// The guided-reading board (ReadingGame.tsx): the sentence is split into
// syllable tokens and a cursor `visibleIndex` reveals them one at a time,
// stepping over the `" "` tokens between words.

module ReadingGame {
  import opened Types
  import opened Chars
  import opened TextUtils

  /** The cursor lies on a token or just before the first one. */
  predicate InRange(ts: seq<string>, vi: int) {
    -1 <= vi <= |ts| - 1
  }

  /** The cursor does not rest on a space token. */
  predicate OffSpace(ts: seq<string>, vi: int) {
    vi == -1 || (0 <= vi < |ts| && ts[vi] != " ")
  }

  /** Everything has been revealed. */
  predicate FullyVisible(ts: seq<string>, vi: int) {
    vi >= |ts| - 1
  }

  /** Where `handleNextSyllable` moves the cursor: one token on, or two
      when the next one is a space, never past the last token; nothing
      happens once the last token is visible. */
  function NextIndex(ts: seq<string>, vi: int): (r: int)
    ensures FullyVisible(ts, vi) ==> r == vi
    ensures !FullyVisible(ts, vi) ==> vi < r <= |ts| - 1
    ensures !FullyVisible(ts, vi) && r != vi + 1 ==> r == vi + 2 && 0 <= vi + 1 && ts[vi + 1] == " "
    ensures InRange(ts, vi) ==> InRange(ts, r)
  {
    if vi < |ts| - 1 then
      var n := vi + 1;
      var skip := if 0 <= n && ts[n] == " " then n + 1 else n;
      if skip < |ts| - 1 then skip else |ts| - 1
    else vi
  }

  /** Where `handlePrevSyllable` moves the cursor: one token back, or two
      when that would land on a space, never before -1; nothing happens
      while nothing is visible. */
  function PrevIndex(ts: seq<string>, vi: int): (r: int)
    ensures vi < 0 ==> r == vi
    ensures vi >= 0 ==> -1 <= r < vi
    ensures vi >= 0 && r != vi - 1 ==> r == vi - 2 && vi - 1 < |ts| && ts[vi - 1] == " "
    ensures InRange(ts, vi) ==> InRange(ts, r)
  {
    if vi >= 0 then
      var p := vi - 1;
      var skip := if 0 <= p < |ts| && ts[p] == " " then p - 1 else p;
      if skip > -1 then skip else -1
    else vi
  }

  /** In a well-spaced token list the cursor never comes to rest on a
      space going forward. */
  lemma NextOffSpace(ts: seq<string>, vi: int)
    requires WellSpaced(ts) && InRange(ts, vi) && OffSpace(ts, vi)
    ensures OffSpace(ts, NextIndex(ts, vi))
  {
    if vi < |ts| - 1 && ts[vi + 1] == " " {
      assert vi + 1 < |ts| - 1;
      assert ts[vi + 2] != " ";
    }
  }

  /** Nor going back. */
  lemma PrevOffSpace(ts: seq<string>, vi: int)
    requires WellSpaced(ts) && InRange(ts, vi) && OffSpace(ts, vi)
    ensures OffSpace(ts, PrevIndex(ts, vi))
  {
    if vi >= 1 && ts[vi - 1] == " " {
      assert vi - 1 > 0;
      assert ts[vi - 2] != " ";
    }
  }

  /** Nor after revealing everything. */
  lemma ShowAllOffSpace(ts: seq<string>)
    requires WellSpaced(ts)
    ensures OffSpace(ts, |ts| - 1)
  {
  }

  /** Going back undoes a step forward. */
  lemma PrevUndoesNext(ts: seq<string>, vi: int)
    requires InRange(ts, vi) && OffSpace(ts, vi) && !FullyVisible(ts, vi)
    requires WellSpaced(ts)
    ensures PrevIndex(ts, NextIndex(ts, vi)) == vi
  {
    if ts[vi + 1] == " " {
      assert vi + 1 < |ts| - 1;
    }
  }

  /** Going forward undoes a step back. */
  lemma NextUndoesPrev(ts: seq<string>, vi: int)
    requires InRange(ts, vi) && OffSpace(ts, vi) && vi >= 0
    ensures NextIndex(ts, PrevIndex(ts, vi)) == vi
  {
  }

  /** The text is fully visible exactly when a step forward does nothing. */
  lemma FullIffNextStays(ts: seq<string>, vi: int)
    requires InRange(ts, vi)
    ensures FullyVisible(ts, vi) <==> NextIndex(ts, vi) == vi
  {
  }

  /** The cursor after `n` presses of the next button. */
  function NextTimes(ts: seq<string>, vi: int, n: nat): (r: int)
    ensures InRange(ts, vi) ==> InRange(ts, r)
    decreases n
  {
    if n == 0 then vi else NextTimes(ts, NextIndex(ts, vi), n - 1)
  }

  /** From the start, `|ts|` presses of the next button reveal everything. */
  lemma {:induction false} NextTimesReachesEnd(ts: seq<string>, vi: int, n: nat)
    requires InRange(ts, vi) && n >= |ts| - 1 - vi
    ensures FullyVisible(ts, NextTimes(ts, vi, n))
    decreases n
  {
    if n > 0 {
      NextTimesReachesEnd(ts, NextIndex(ts, vi), n - 1);
    }
  }

  /** The reading board's state. */
  class Reader {
    var syllables: seq<string>
    var visibleIndex: int
    var isCompleted: bool
    /** The arena turns the helper's word picking on. */
    const wolfMode: bool
    /** Whether the arena passed an `onWolfInteract` callback. */
    const hasWolfHandler: bool

    ghost predicate Valid()
      reads this
    {
      InRange(syllables, visibleIndex)
    }

    /** Mounting with an item runs the item effect. */
    constructor(fullText: Option<string>, wolfMode: bool, hasWolfHandler: bool)
      ensures Valid()
      ensures syllables == SplitSentence(if fullText.Some? then fullText.value else "")
      ensures visibleIndex == -1 && !isCompleted
      ensures this.wolfMode == wolfMode && this.hasWolfHandler == hasWolfHandler
    {
      this.wolfMode := wolfMode;
      this.hasWolfHandler := hasWolfHandler;
      var text := if fullText.Some? then fullText.value else "";
      var split := SplitSentenceIntoSyllables(text);
      syllables := split;
      visibleIndex := -1;
      isCompleted := false;
    }

    /** A new item: re-split its text and hide everything again. */
    method LoadItem(fullText: Option<string>)
      modifies this
      ensures Valid()
      ensures syllables == SplitSentence(if fullText.Some? then fullText.value else "")
      ensures visibleIndex == -1 && !isCompleted
    {
      var text := if fullText.Some? then fullText.value else "";
      var split := SplitSentenceIntoSyllables(text);
      syllables := split;
      visibleIndex := -1;
      isCompleted := false;
    }

    method HandleNextSyllable()
      requires Valid()
      modifies this
      ensures Valid()
      ensures syllables == old(syllables) && isCompleted == old(isCompleted)
      ensures visibleIndex == NextIndex(syllables, old(visibleIndex))
    {
      if visibleIndex < |syllables| - 1 {
        var nextIdx := visibleIndex + 1;
        if syllables[nextIdx] == " " {
          nextIdx := nextIdx + 1;
        }
        visibleIndex := if nextIdx < |syllables| - 1 then nextIdx else |syllables| - 1;
      }
    }

    method HandlePrevSyllable()
      requires Valid()
      modifies this
      ensures Valid()
      ensures syllables == old(syllables) && isCompleted == old(isCompleted)
      ensures visibleIndex == PrevIndex(syllables, old(visibleIndex))
    {
      if visibleIndex >= 0 {
        var prevIdx := visibleIndex - 1;
        // index -1 reads `undefined` in the source, which is not a space
        if prevIdx >= 0 && syllables[prevIdx] == " " {
          prevIdx := prevIdx - 1;
        }
        visibleIndex := if prevIdx > -1 then prevIdx else -1;
      }
    }

    method HandleShowAll()
      requires Valid()
      modifies this
      ensures Valid() && FullyVisible(syllables, visibleIndex)
      ensures syllables == old(syllables) && isCompleted == old(isCompleted)
      ensures visibleIndex == |syllables| - 1
    {
      visibleIndex := |syllables| - 1;
    }

    /** `isFullTextVisible`. */
    function IsFullTextVisible(): (r: bool)
      reads this
      ensures r <==> FullyVisible(syllables, visibleIndex)
    {
      visibleIndex >= |syllables| - 1
    }

    /** The confirm button is on screen only once the whole text is
        visible; pressing it reports completion to the arena. */
    method HandleConfirm() returns (completes: bool)
      ensures completes <==> FullyVisible(syllables, visibleIndex)
    {
      completes := IsFullTextVisible();
    }

    /** A click on a token reaches the helper only in wolf mode, with a
        callback, and never for a space. */
    method HandleSyllableClick(syl: string) returns (forwarded: Option<string>)
      ensures forwarded.Some? <==> wolfMode && hasWolfHandler && syl != " "
      ensures forwarded.Some? ==> forwarded.value == syl
    {
      if wolfMode && hasWolfHandler && syl != " " {
        forwarded := Some(syl);
      } else {
        forwarded := None;
      }
    }
  }

  /** Reading a sentence whose words all have a letter: from a fresh load,
      any sequence of next and back presses keeps the cursor off the
      spaces. */
  lemma SentenceCursorOffSpace(sentence: string, vi: int, forward: bool)
    requires forall i :: 0 <= i < |Words(sentence)| ==> HasOther(Words(sentence)[i], '-')
    requires InRange(SplitSentence(sentence), vi) && OffSpace(SplitSentence(sentence), vi)
    ensures OffSpace(SplitSentence(sentence),
      if forward then NextIndex(SplitSentence(sentence), vi) else PrevIndex(SplitSentence(sentence), vi))
  {
    SentenceWellSpaced(sentence);
    if forward {
      NextOffSpace(SplitSentence(sentence), vi);
    } else {
      PrevOffSpace(SplitSentence(sentence), vi);
    }
  }
}
