// The adaptive difficulty tracker (adaptiveSystem.ts): after every answer
// the statistics record counts the question, folds the response time into a
// rolling average, counts the error under the content's family and nudges
// the difficulty multiplier; the multiplier then picks a hint for the
// content generator. JavaScript numbers are modelled as exact reals.

module AdaptiveSystem {
  import opened Types
  import opened Chars

  const MinMultiplier: real := 0.7
  const MaxMultiplier: real := 1.5
  /** Answers faster than this many milliseconds count as fast. */
  const FastAnswerMs: real := 3000.0

  /** `INITIAL_ADAPTIVE_STATS`: a 5 s baseline and a neutral multiplier. */
  const InitialStats: AdaptiveStats := AdaptiveStats(map[], 5000.0, 0, 1.0)

  /** The bucket an error is counted under: the content id up to its first
      `_`, or `general` when that part is empty. */
  function ErrorKey(contentId: string): (r: string)
    ensures '_' !in r
    ensures (contentId == [] || contentId[0] == '_') ==> r == "general"
    ensures contentId != [] && contentId[0] != '_' ==>
      0 < |r| <= |contentId| && r == contentId[..|r|] && (|r| == |contentId| || contentId[|r|] == '_')
  {
    var head := SplitOn(contentId, '_')[0];
    assert head == contentId[..IndexFrom(contentId, '_', 0)];
    if head == "" then "general" else head
  }

  /** The statistics after an answer (the record `updateAdaptiveStats`
      returns). */
  function Updated(stats: AdaptiveStats, isCorrect: bool, responseTimeMs: real, contentId: Option<string>): (r: AdaptiveStats)
    ensures r.totalQuestions == stats.totalQuestions + 1
    ensures r.averageResponseTime == stats.averageResponseTime * 0.9 + responseTimeMs * 0.1
    ensures (isCorrect || !Truthy(contentId)) ==> r.errorCount == stats.errorCount
    ensures !isCorrect && Truthy(contentId) ==>
      var key := ErrorKey(contentId.value);
      r.errorCount.Keys == stats.errorCount.Keys + {key}
      && r.errorCount[key] == (if key in stats.errorCount then stats.errorCount[key] else 0) + 1
      && forall k :: k in stats.errorCount && k != key ==> r.errorCount[k] == stats.errorCount[k]
    ensures isCorrect && responseTimeMs < FastAnswerMs ==>
      r.difficultyMultiplier == (if stats.difficultyMultiplier + 0.05 < MaxMultiplier then stats.difficultyMultiplier + 0.05 else MaxMultiplier)
    ensures isCorrect && responseTimeMs >= FastAnswerMs ==> r.difficultyMultiplier == stats.difficultyMultiplier
    ensures !isCorrect ==>
      r.difficultyMultiplier == (if stats.difficultyMultiplier - 0.1 > MinMultiplier then stats.difficultyMultiplier - 0.1 else MinMultiplier)
  {
    var errors :=
      if !isCorrect && Truthy(contentId) then
        var key := ErrorKey(contentId.value);
        stats.errorCount[key := (if key in stats.errorCount then stats.errorCount[key] else 0) + 1]
      else stats.errorCount;
    var m := stats.difficultyMultiplier;
    var m' :=
      if isCorrect then (if responseTimeMs < FastAnswerMs then Min(MaxMultiplier, m + 0.05) else m)
      else Max(MinMultiplier, m - 0.1);
    AdaptiveStats(errors, stats.averageResponseTime * 0.9 + responseTimeMs * 0.1, stats.totalQuestions + 1, m')
  }

  function Min(a: real, b: real): real { if a <= b then a else b }
  function Max(a: real, b: real): real { if a >= b then a else b }

  /** `updateAdaptiveStats`: copy the record, then update it field by field. */
  method UpdateAdaptiveStats(currentStats: AdaptiveStats, isCorrect: bool, responseTimeMs: real, contentId: Option<string>)
    returns (newStats: AdaptiveStats)
    ensures newStats == Updated(currentStats, isCorrect, responseTimeMs, contentId)
  {
    newStats := currentStats;
    newStats := newStats.(totalQuestions := newStats.totalQuestions + 1);
    newStats := newStats.(averageResponseTime := newStats.averageResponseTime * 0.9 + responseTimeMs * 0.1);
    if !isCorrect && contentId.Some? && contentId.value != "" {
      var key := ErrorKey(contentId.value);
      var previous := if key in newStats.errorCount then newStats.errorCount[key] else 0;
      newStats := newStats.(errorCount := newStats.errorCount[key := previous + 1]);
    }
    if isCorrect {
      if responseTimeMs < FastAnswerMs {
        newStats := newStats.(difficultyMultiplier := Min(MaxMultiplier, newStats.difficultyMultiplier + 0.05));
      }
    } else {
      newStats := newStats.(difficultyMultiplier := Max(MinMultiplier, newStats.difficultyMultiplier - 0.1));
    }
  }

  predicate MultiplierInRange(stats: AdaptiveStats) {
    MinMultiplier <= stats.difficultyMultiplier <= MaxMultiplier
  }

  /** Once in [0.7, 1.5], the multiplier stays there whatever the answer. */
  lemma UpdateKeepsRange(stats: AdaptiveStats, isCorrect: bool, responseTimeMs: real, contentId: Option<string>)
    requires MultiplierInRange(stats)
    ensures MultiplierInRange(Updated(stats, isCorrect, responseTimeMs, contentId))
  {
  }

  /** The multiplier never moves by more than one step: up 0.05 or down 0.1. */
  lemma UpdateStepBounded(stats: AdaptiveStats, isCorrect: bool, responseTimeMs: real, contentId: Option<string>)
    requires MultiplierInRange(stats)
    ensures var m := stats.difficultyMultiplier; var m' := Updated(stats, isCorrect, responseTimeMs, contentId).difficultyMultiplier;
      (isCorrect ==> m <= m' <= m + 0.05) && (!isCorrect ==> m - 0.1 <= m' <= m)
  {
  }

  /** The first correct fast answer from the initial record. */
  lemma InitialFastAnswer()
    ensures Updated(InitialStats, true, 1000.0, None).difficultyMultiplier == 1.05
    ensures Updated(InitialStats, true, 1000.0, None).averageResponseTime == 4600.0
    ensures Updated(InitialStats, true, 1000.0, None).totalQuestions == 1
    ensures MultiplierInRange(InitialStats)
  {
  }

  /** `getDifficultyPromptModifier`. */
  function DifficultyPromptModifier(stats: AdaptiveStats): (r: string)
    ensures r == ComplexHint <==> stats.difficultyMultiplier > 1.2
    ensures r == SimpleHint <==> stats.difficultyMultiplier < 0.9
    ensures r == "" <==> 0.9 <= stats.difficultyMultiplier <= 1.2
  {
    if stats.difficultyMultiplier > 1.2 then ComplexHint
    else if stats.difficultyMultiplier < 0.9 then SimpleHint
    else ""
  }

  const ComplexHint: string := " Include slightly more complex words with complex syllables (LH, NH, TR, PL)."
  const SimpleHint: string := " Use very simple CV (Consonant-Vowel) words only. Avoid complex digraphs."

  /** From the initial record two wrong answers bring the simple-word hint,
      and five fast right ones the complex-syllable hint. */
  lemma HintAfterStreaks(id: Option<string>)
    ensures DifficultyPromptModifier(Updated(Updated(InitialStats, false, 4000.0, id), false, 4000.0, id)) == SimpleHint
    ensures DifficultyPromptModifier(Updated(InitialStats, false, 4000.0, id)) == ""
    ensures var s1 := Updated(InitialStats, true, 1000.0, id); var s2 := Updated(s1, true, 1000.0, id);
      var s3 := Updated(s2, true, 1000.0, id); var s4 := Updated(s3, true, 1000.0, id);
      DifficultyPromptModifier(s4) == "" && DifficultyPromptModifier(Updated(s4, true, 1000.0, id)) == ComplexHint
  {
  }
}
