// The game arena (GameArena.tsx): one play session over a list of
// challenges, the helper wolf's state machine, the end-of-level rewards and
// the card drop. Every `setTimeout` becomes a pending-timeout counter and a
// method that fires it; every `Math.random()` draw is a parameter.

module GameArena {
  import opened Types
  import opened Chars
  import opened Constants
  import opened AdaptiveSystem
  import opened ContentProvider

  // --- Rewards ------------------------------------------------------------------

  function XpMultiplier(t: Option<TimeOfDay>): real {
    if t == Some(Morning) then 1.5 else 1.0
  }

  function EmeraldMultiplier(t: Option<TimeOfDay>): nat {
    if t == Some(Afternoon) then 2 else 1
  }

  /** `Math.floor((finalScore * 10 + 50) * xpMultiplier)`. The base is always
      even, so the morning bonus is exact. */
  function LevelXp(finalScore: nat, t: Option<TimeOfDay>): (r: int)
    ensures t != Some(Morning) ==> r == finalScore * 10 + 50
    ensures t == Some(Morning) ==> r == finalScore * 15 + 75
  {
    var base := finalScore * 10 + 50;
    assert (base as real) * 1.5 == (finalScore * 15 + 75) as real;
    ((base as real) * XpMultiplier(t)).Floor
  }

  /** `module.emeraldReward * emeraldMultiplier`. */
  function LevelEmeralds(reward: nat, t: Option<TimeOfDay>): (r: nat)
    ensures r == reward || r == 2 * reward
    ensures r == 2 * reward && reward > 0 <==> t == Some(Afternoon) && reward > 0
  {
    reward * EmeraldMultiplier(t)
  }

  /** A level played in the morning earns half as much xp again, and more
      score never earns less. */
  lemma LevelXpOrder(s: nat, s': nat, t: Option<TimeOfDay>)
    requires s <= s'
    ensures LevelXp(s, t) <= LevelXp(s', t)
    ensures 2 * LevelXp(s, Some(Morning)) == 3 * LevelXp(s, t) || t == Some(Morning)
  {
  }

  /** The rarity ladder of `calculateCardDrop`. */
  function DropRarity(roll: real): (r: CardRarity)
    ensures r == Legendary <==> roll > 0.95
    ensures r == Epic <==> 0.85 < roll <= 0.95
    ensures r == Rare <==> 0.60 < roll <= 0.85
    ensures r == Common <==> roll <= 0.60
  {
    if roll > 0.95 then Legendary
    else if roll > 0.85 then Epic
    else if roll > 0.60 then Rare
    else Common
  }

  function RarityRank(r: CardRarity): nat {
    match r
    case Common => 0
    case Rare => 1
    case Epic => 2
    case Legendary => 3
  }

  /** A higher roll never gives a commoner card. */
  lemma DropRarityMonotone(roll: real, roll': real)
    requires roll <= roll'
    ensures RarityRank(DropRarity(roll)) <= RarityRank(DropRarity(roll'))
  {
  }

  const DropChance: real := 0.35

  /** The three `Math.random()` draws of a card drop. */
  datatype Draws = Draws(chance: real, roll: real, pick: real)

  predicate ValidDraws(d: Draws) {
    0.0 <= d.pick < 1.0
  }

  lemma FloorIndex(x: real, n: nat)
    requires 0.0 <= x < 1.0 && n > 0
    ensures 0 <= (x * n as real).Floor < n
  {
    assert 0.0 <= x * n as real < n as real;
  }

  /** `calculateCardDrop` over a card list: a card is dropped only when the
      first draw is below 0.35, it is a card of the rolled rarity, picked
      from that rarity's pool by the third draw, and it is dropped whenever
      that pool is not empty. */
  function CardDrop(cards: seq<Card>, d: Draws): (r: Option<string>)
    requires ValidDraws(d)
    ensures r.Some? ==> d.chance < DropChance
    ensures r.Some? ==> exists c :: c in cards && c.id == r.value && c.rarity == DropRarity(d.roll)
    ensures d.chance < DropChance && CardsOf(cards, DropRarity(d.roll)) != [] ==> r.Some?
  {
    if d.chance < DropChance then
      var pool := CardsOf(cards, DropRarity(d.roll));
      if |pool| > 0 then
        FloorIndex(d.pick, |pool|);
        var k := (d.pick * |pool| as real).Floor;
        assert pool[k] in pool;
        Some(pool[k].id)
      else None
    else None
  }

  /** With the game's cards, whose every rarity has a card, a card is
      dropped exactly when the first draw is below 0.35. */
  lemma GameCardDrop(d: Draws)
    requires ValidDraws(d)
    ensures CardDrop(CollectibleCards, d).Some? <==> d.chance < DropChance
  {
    EveryRarityHasCards(DropRarity(d.roll));
  }

  // --- Content --------------------------------------------------------------------

  /** The boss level: the first item of each of the three lists, skipping
      the lists that came back empty. */
  function BossContent(c1: seq<Item>, c2: seq<Item>, c3: seq<Item>): (r: seq<Item>)
    ensures |r| <= 3
    ensures r == [] <==> c1 == [] && c2 == [] && c3 == []
    ensures c1 != [] && c2 != [] && c3 != [] ==> r == [c1[0], c2[0], c3[0]]
    ensures forall x :: x in r ==> (c1 != [] && x == c1[0]) || (c2 != [] && x == c2[0]) || (c3 != [] && x == c3[0])
  {
    (if c1 != [] then [c1[0]] else []) + (if c2 != [] then [c2[0]] else []) + (if c3 != [] then [c3[0]] else [])
  }

  /** Which board shows an item: the module's own, except on the boss level,
      where the item's fields decide. */
  function CurrentType(moduleType: ModuleType, item: Item): (r: ModuleType)
    ensures moduleType != Boss ==> r == moduleType
    ensures moduleType == Boss ==> r in {Syllables, Fluency, Creeper, Comprehension, Boss}
    ensures moduleType == Boss && r == Boss ==>
      item.syllables.None? && item.chunks.None? && !Truthy(item.sentence)
  {
    if moduleType != Boss then moduleType
    else if item.syllables.Some? then Syllables
    else if item.chunks.Some? then Fluency
    else if item.options.Some? && !Truthy(item.sentence) then Creeper
    else if Truthy(item.sentence) then Comprehension
    else moduleType
  }

  /** On the boss level each challenge kind is shown on its own board; a
      comprehension challenge with an empty sentence is taken for a creeper
      one. */
  lemma BossDetectsKinds(id: string, word: string, emoji: string, syl: seq<string>, dis: seq<string>,
                         text: string, chunks: seq<string>, sentence: string, opts: seq<ChoiceOption>)
    ensures CurrentType(Boss, SyllableChallenge(id, word, emoji, syl, dis)) == Syllables
    ensures CurrentType(Boss, FluencyChallenge(id, text, chunks)) == Fluency
    ensures CurrentType(Boss, CreeperChallenge(id, word, opts)) == Creeper
    ensures CurrentType(Boss, ComprehensionChallenge(id, sentence, opts)) == (if sentence != "" then Comprehension else Creeper)
  {
  }

  /** Without generated content the boss level is a syllable, a fluency and
      a creeper challenge, in that order. */
  lemma BossFallbackKinds()
    ensures var c := BossContent(GetFallbackData(Syllables), GetFallbackData(Fluency), GetFallbackData(Creeper));
      |c| == 3 && CurrentType(Boss, c[0]) == Syllables && CurrentType(Boss, c[1]) == Fluency
      && CurrentType(Boss, c[2]) == Creeper
  {
  }

  /** The content a level gets when the provider has no key (and the memory
      game always gets). */
  function OfflineContent(kind: ModuleType): (r: seq<Item>)
    ensures kind == Memory ==> r == FallbackMemory
    ensures kind != Memory && kind != Boss ==> r == GetFallbackData(kind)
    ensures kind == Boss ==> |r| == 3
  {
    if kind == Boss then BossContent(GetFallbackData(Syllables), GetFallbackData(Fluency), GetFallbackData(Creeper))
    else if kind == Memory then FallbackMemory
    else GetFallbackData(kind)
  }

  /** The content-loading effect: three requests and their first items for
      the boss level, the static pairs for the memory game, one request
      otherwise. */
  method FetchContent(kind: ModuleType, level: nat, provider: Provider, o1: GenOutcome, o2: GenOutcome, o3: GenOutcome)
    returns (data: seq<Item>)
    modifies provider
    ensures kind == Memory || provider.apiKey == "" ==> data == OfflineContent(kind)
    ensures kind == Boss ==> |data| <= 3
  {
    if kind == Boss {
      var c1 := provider.GenerateGameContent(Syllables, level, o1);
      var c2 := provider.GenerateGameContent(Fluency, level, o2);
      var c3 := provider.GenerateGameContent(Creeper, level, o3);
      data := BossContent(c1, c2, c3);
    } else if kind == Memory {
      data := FallbackMemory;
    } else {
      data := provider.GenerateGameContent(kind, level, o1);
    }
  }

  // --- The arena ------------------------------------------------------------------

  datatype QuestEvent = QuestEvent(kind: QuestType, amount: int)

  /** What `onComplete` reports to the profile. */
  datatype LevelResult = LevelResult(
    xp: int, emeralds: nat, learnedWords: seq<string>, droppedCard: Option<string>, stats: AdaptiveStats)

  class Arena {
    const biome: BiomeModule
    const timeOfDay: Option<TimeOfDay>
    /** The collectible cards a level can drop. */
    const cards: seq<Card>

    var content: seq<Item>
    var currentIndex: nat
    var score: nat
    var isFinished: bool
    var collectedWords: seq<string>
    var droppedCard: Option<string>
    var adaptiveStats: AdaptiveStats

    var wolfCharges: int
    var wolfState: WolfState
    var selectedSyllable: Option<string>
    /** The syllables the helper has read for the learner. */
    var spoken: seq<string>

    /** The `onUpdateQuest` calls made so far. */
    var questEvents: seq<QuestEvent>
    /** The `onComplete` call, once made. */
    var report: Option<LevelResult>

    // Pending timeouts.
    var pendingAdvances: nat
    var noChargesTimers: nat
    var speakTimers: nat
    var wakeTimers: nat
    var idleArmed: bool
    /** The wake sounds played so far. */
    var wakeSounds: nat

    /** The helper never has more than its three charges, nor fewer than
        none, and it listens only while it has one to spend. */
    ghost predicate HelperValid()
      reads this
    {
      0 <= wolfCharges <= 3
      && ((wolfState == Listening || wolfState == Confirming) ==> wolfCharges > 0)
    }

    /** A pending step to the next question always lands on a challenge. */
    ghost predicate SessionValid()
      reads this
    {
      pendingAdvances > 0 ==> currentIndex + pendingAdvances < |content|
    }

    ghost predicate Valid()
      reads this
    {
      HelperValid() && SessionValid()
    }

    twostate predicate SessionKept()
      reads this
    {
      content == old(content) && currentIndex == old(currentIndex) && score == old(score)
      && isFinished == old(isFinished) && collectedWords == old(collectedWords)
      && droppedCard == old(droppedCard) && adaptiveStats == old(adaptiveStats)
      && questEvents == old(questEvents) && report == old(report) && pendingAdvances == old(pendingAdvances)
    }

    /** No helper timeout is scheduled or fired and no wake sound plays. */
    twostate predicate TimersKept()
      reads this
    {
      noChargesTimers == old(noChargesTimers) && speakTimers == old(speakTimers)
      && wakeTimers == old(wakeTimers) && wakeSounds == old(wakeSounds)
    }

    /** The effect on `wolfState`: every change of the helper's state runs
        `resetIdleTimer` again, which arms a fresh idle timer over the new
        state; setting the state it already has runs nothing. So the state
        an armed timer captured is always the current one. */
    twostate predicate IdleRearmed()
      reads this
    {
      (wolfState != old(wolfState) ==> idleArmed) && (wolfState == old(wolfState) ==> idleArmed == old(idleArmed))
    }

    /** Mounting: three charges, an idle helper, the saved statistics or the
        initial ones, the idle timer armed, and the content loaded. */
    constructor(biome: BiomeModule, level: nat, timeOfDay: Option<TimeOfDay>, savedStats: Option<AdaptiveStats>,
                provider: Provider, o1: GenOutcome, o2: GenOutcome, o3: GenOutcome)
      modifies provider
      ensures Valid()
      ensures this.biome == biome && this.timeOfDay == timeOfDay && cards == CollectibleCards
      ensures currentIndex == 0 && score == 0 && !isFinished && collectedWords == [] && droppedCard == None
      ensures adaptiveStats == (if savedStats.Some? then savedStats.value else InitialStats)
      ensures wolfCharges == 3 && wolfState == Idle && selectedSyllable == None && spoken == [] && idleArmed
      ensures questEvents == [] && report == None
      ensures pendingAdvances == 0 && noChargesTimers == 0 && speakTimers == 0 && wakeTimers == 0 && wakeSounds == 0
      ensures biome.kind == Memory || provider.apiKey == "" ==> content == OfflineContent(biome.kind)
      ensures biome.kind == Boss ==> |content| <= 3
    {
      this.biome := biome;
      this.timeOfDay := timeOfDay;
      cards := CollectibleCards;
      currentIndex := 0;
      score := 0;
      isFinished := false;
      collectedWords := [];
      droppedCard := None;
      adaptiveStats := if savedStats.Some? then savedStats.value else InitialStats;
      wolfCharges := 3;
      wolfState := Idle;
      selectedSyllable := None;
      spoken := [];
      questEvents := [];
      report := None;
      pendingAdvances := 0;
      noChargesTimers := 0;
      speakTimers := 0;
      wakeTimers := 0;
      idleArmed := true;
      wakeSounds := 0;
      var data := FetchContent(biome.kind, level, provider, o1, o2, o3);
      content := data;
    }

    // --- The helper wolf ---

    /** `handleWolfClick`: only an idle helper answers; it listens when it
        has a charge and says it has none otherwise. */
    method HandleWolfClick()
      requires Valid()
      modifies this
      ensures Valid() && SessionKept() && IdleRearmed()
      ensures wolfCharges == old(wolfCharges) && selectedSyllable == old(selectedSyllable) && spoken == old(spoken)
      ensures old(wolfState) != Idle ==> wolfState == old(wolfState) && TimersKept()
      ensures old(wolfState) == Idle && wolfCharges > 0 ==> wolfState == Listening && TimersKept()
      ensures old(wolfState) == Idle && wolfCharges == 0 ==>
        wolfState == NoCharges && noChargesTimers == old(noChargesTimers) + 1
        && speakTimers == old(speakTimers) && wakeTimers == old(wakeTimers) && wakeSounds == old(wakeSounds)
    {
      if wolfState == Sleeping {
        return;
      }
      if wolfState != Idle {
        return;
      }
      if wolfCharges > 0 {
        wolfState := Listening;
      } else {
        wolfState := NoCharges;
        noChargesTimers := noChargesTimers + 1;
      }
      idleArmed := true;
    }

    /** The three seconds of "no charges" are over. */
    method NoChargesTimeout()
      requires Valid() && noChargesTimers > 0
      modifies this
      ensures Valid() && SessionKept() && IdleRearmed()
      ensures wolfState == Idle && noChargesTimers == old(noChargesTimers) - 1
      ensures wolfCharges == old(wolfCharges) && selectedSyllable == old(selectedSyllable) && spoken == old(spoken)
      ensures speakTimers == old(speakTimers) && wakeTimers == old(wakeTimers) && wakeSounds == old(wakeSounds)
    {
      noChargesTimers := noChargesTimers - 1;
      if wolfState != Idle {
        idleArmed := true;
      }
      wolfState := Idle;
    }

    /** `onSyllableSelectForHelp`: a listening helper takes the syllable and
        asks for confirmation; otherwise nothing happens. */
    method OnSyllableSelectForHelp(syllable: string)
      requires Valid()
      modifies this
      ensures Valid() && SessionKept() && TimersKept() && IdleRearmed()
      ensures wolfCharges == old(wolfCharges) && spoken == old(spoken)
      ensures old(wolfState) == Listening ==> wolfState == Confirming && selectedSyllable == Some(syllable)
      ensures old(wolfState) != Listening ==> wolfState == old(wolfState) && selectedSyllable == old(selectedSyllable)
    {
      if wolfState == Listening {
        selectedSyllable := Some(syllable);
        wolfState := Confirming;
        idleArmed := true;
      }
    }

    /** The confirmation dialog is on screen. */
    predicate DialogShown()
      reads this
    {
      wolfState == Confirming && Truthy(selectedSyllable)
    }

    /** `confirmWolfHelp`: the helper reads the syllable and spends exactly
        one charge. */
    method ConfirmWolfHelp()
      requires Valid() && DialogShown()
      modifies this
      ensures Valid() && SessionKept() && IdleRearmed()
      ensures wolfState == Speaking && wolfCharges == old(wolfCharges) - 1
      ensures selectedSyllable == old(selectedSyllable)
      ensures spoken == old(spoken) + [old(selectedSyllable).value + "."]
      ensures speakTimers == old(speakTimers) + 1
      ensures noChargesTimers == old(noChargesTimers) && wakeTimers == old(wakeTimers) && wakeSounds == old(wakeSounds)
    {
      if Truthy(selectedSyllable) {
        wolfState := Speaking;
        idleArmed := true;
        wolfCharges := wolfCharges - 1;
        spoken := spoken + [selectedSyllable.value + "."];
        speakTimers := speakTimers + 1;
      }
    }

    /** Three seconds after reading: back to idle, the selection cleared. */
    method SpeakingTimeout()
      requires Valid() && speakTimers > 0
      modifies this
      ensures Valid() && SessionKept() && IdleRearmed()
      ensures wolfState == Idle && selectedSyllable == None && speakTimers == old(speakTimers) - 1
      ensures wolfCharges == old(wolfCharges) && spoken == old(spoken)
      ensures noChargesTimers == old(noChargesTimers) && wakeTimers == old(wakeTimers) && wakeSounds == old(wakeSounds)
    {
      speakTimers := speakTimers - 1;
      if wolfState != Idle {
        idleArmed := true;
      }
      wolfState := Idle;
      selectedSyllable := None;
    }

    /** `cancelWolfHelp`: back to listening, the selection cleared, no
        charge spent. */
    method CancelWolfHelp()
      requires Valid() && DialogShown()
      modifies this
      ensures Valid() && SessionKept() && TimersKept() && IdleRearmed()
      ensures wolfState == Listening && selectedSyllable == None
      ensures wolfCharges == old(wolfCharges) && spoken == old(spoken)
    {
      wolfState := Listening;
      idleArmed := true;
      selectedSyllable := None;
    }

    /** `resetIdleTimer`, run by a window click and by the effect on
        `wolfState`: a sleeping helper starts waking up with the wake sound,
        and the sleep countdown starts again. */
    method Activity()
      requires Valid()
      modifies this
      ensures Valid() && SessionKept() && idleArmed
      ensures wolfCharges == old(wolfCharges) && selectedSyllable == old(selectedSyllable) && spoken == old(spoken)
      ensures old(wolfState) == Sleeping ==>
        wolfState == Waking && wakeTimers == old(wakeTimers) + 1 && wakeSounds == old(wakeSounds) + 1
      ensures old(wolfState) != Sleeping ==>
        wolfState == old(wolfState) && wakeTimers == old(wakeTimers) && wakeSounds == old(wakeSounds)
      ensures noChargesTimers == old(noChargesTimers) && speakTimers == old(speakTimers)
    {
      if wolfState == Sleeping {
        wolfState := Waking;
        wakeSounds := wakeSounds + 1;
        wakeTimers := wakeTimers + 1;
      }
      idleArmed := true;
    }

    /** One second after waking. */
    method WakeTimeout()
      requires Valid() && wakeTimers > 0
      modifies this
      ensures Valid() && SessionKept() && IdleRearmed()
      ensures wolfState == Idle && wakeTimers == old(wakeTimers) - 1
      ensures wolfCharges == old(wolfCharges) && selectedSyllable == old(selectedSyllable) && spoken == old(spoken)
      ensures noChargesTimers == old(noChargesTimers) && speakTimers == old(speakTimers) && wakeSounds == old(wakeSounds)
    {
      wakeTimers := wakeTimers - 1;
      if wolfState != Idle {
        idleArmed := true;
      }
      wolfState := Idle;
    }

    /** Fifteen seconds without a click or a change of state. An idle helper
        falls asleep, and the effect on `wolfState` at once runs
        `resetIdleTimer` on the sleeping state: the helper starts waking
        with the wake sound and the countdown is armed again. So the helper
        never stays asleep; any other state is left as it is. */
    method IdleTimeout()
      requires Valid() && idleArmed
      modifies this
      ensures Valid() && SessionKept()
      ensures wolfCharges == old(wolfCharges) && selectedSyllable == old(selectedSyllable) && spoken == old(spoken)
      ensures old(wolfState) == Idle ==>
        wolfState == Waking && wakeTimers == old(wakeTimers) + 1 && wakeSounds == old(wakeSounds) + 1 && idleArmed
      ensures old(wolfState) != Idle ==>
        wolfState == old(wolfState) && wakeTimers == old(wakeTimers) && wakeSounds == old(wakeSounds) && !idleArmed
      ensures noChargesTimers == old(noChargesTimers) && speakTimers == old(speakTimers)
    {
      idleArmed := false;
      if wolfState == Idle {
        wolfState := Sleeping;
        Activity();
      }
    }

    /** The idle timeout as the comments at GameArena.tsx:73 and :108 mean
        it: an idle helper falls asleep and sleeps until a click wakes it. */
    method IdleTimeoutIntended()
      requires Valid() && idleArmed
      modifies this
      ensures Valid() && SessionKept() && TimersKept() && !idleArmed
      ensures wolfCharges == old(wolfCharges) && selectedSyllable == old(selectedSyllable) && spoken == old(spoken)
      ensures old(wolfState) == Idle ==> wolfState == Sleeping
      ensures old(wolfState) != Idle ==> wolfState == old(wolfState)
    {
      idleArmed := false;
      if wolfState == Idle {
        wolfState := Sleeping;
      }
    }

    // --- The session ---

    /** `handleLevelComplete` up to its report: finish, celebrate, maybe
        drop a card, and tell the quests about the game and its emeralds. */
    method HandleLevelComplete(finalScore: nat, draws: Draws) returns (xp: int, emeralds: nat)
      requires HelperValid() && ValidDraws(draws)
      modifies this
      ensures HelperValid()
      ensures isFinished && wolfState == Celebrating
      ensures xp == LevelXp(finalScore, timeOfDay) && emeralds == LevelEmeralds(biome.emeraldReward, timeOfDay)
      ensures droppedCard == (if CardDrop(cards, draws).Some? then CardDrop(cards, draws) else old(droppedCard))
      ensures questEvents == old(questEvents) + [QuestEvent(PlayGame, 1), QuestEvent(EarnEmeralds, emeralds)]
      ensures content == old(content) && currentIndex == old(currentIndex) && score == old(score)
      ensures collectedWords == old(collectedWords) && adaptiveStats == old(adaptiveStats)
      ensures report == old(report) && pendingAdvances == old(pendingAdvances) && TimersKept() && IdleRearmed()
      ensures wolfCharges == old(wolfCharges) && selectedSyllable == old(selectedSyllable) && spoken == old(spoken)
    {
      isFinished := true;
      if wolfState != Celebrating {
        idleArmed := true;
      }
      wolfState := Celebrating;
      xp := LevelXp(finalScore, timeOfDay);
      emeralds := LevelEmeralds(biome.emeraldReward, timeOfDay);
      var card := CardDrop(cards, draws);
      if card.Some? {
        droppedCard := card;
      }
      questEvents := questEvents + [QuestEvent(PlayGame, 1), QuestEvent(EarnEmeralds, emeralds)];
    }

    /** The answer part shared by both versions of `nextQuestion`: score,
        statistics, quest event and collected word. */
    method RecordAnswer(points: nat, word: Option<string>, responseTimeMs: real)
      modifies this
      ensures score == old(score) + points
      ensures adaptiveStats == Updated(old(adaptiveStats), points > 0, responseTimeMs, word)
      ensures questEvents == old(questEvents) + (if points > 0 then [QuestEvent(CorrectAnswers, 1)] else [])
      ensures collectedWords == old(collectedWords) + (if points > 0 && Truthy(word) then [word.value] else [])
      ensures content == old(content) && currentIndex == old(currentIndex) && isFinished == old(isFinished)
      ensures droppedCard == old(droppedCard) && report == old(report) && pendingAdvances == old(pendingAdvances)
      ensures wolfState == old(wolfState) && wolfCharges == old(wolfCharges)
      ensures selectedSyllable == old(selectedSyllable) && spoken == old(spoken) && TimersKept()
      ensures idleArmed == old(idleArmed)
    {
      score := score + points;
      var correct := points > 0;
      var newStats := UpdateAdaptiveStats(adaptiveStats, correct, responseTimeMs, word);
      adaptiveStats := newStats;
      if correct {
        questEvents := questEvents + [QuestEvent(CorrectAnswers, 1)];
        if Truthy(word) {
          collectedWords := collectedWords + [word.value];
        }
      }
    }

    /** `nextQuestion` with one answer per challenge: an answer given while
        the step to the next challenge is pending is ignored. The last
        answer completes the level and reports the words, the card and the
        statistics as they are after it. */
    method NextQuestion(points: nat, word: Option<string>, responseTimeMs: real, draws: Draws)
      requires Valid() && !isFinished && currentIndex < |content| && ValidDraws(draws)
      modifies this
      ensures Valid()
      ensures old(pendingAdvances) > 0 ==> unchanged(this)
      ensures content == old(content) && currentIndex == old(currentIndex)
      ensures isFinished <==> old(pendingAdvances) == 0 && currentIndex == |content| - 1
      ensures wolfCharges == old(wolfCharges)
      ensures selectedSyllable == old(selectedSyllable) && spoken == old(spoken) && TimersKept() && IdleRearmed()
      ensures wolfState == (if isFinished then Celebrating else old(wolfState))
      ensures old(pendingAdvances) == 0 ==>
        score == old(score) + points
        && adaptiveStats == Updated(old(adaptiveStats), points > 0, responseTimeMs, word)
        && collectedWords == old(collectedWords) + (if points > 0 && Truthy(word) then [word.value] else [])
      ensures old(pendingAdvances) == 0 && currentIndex < |content| - 1 ==>
        pendingAdvances == 1 && !isFinished && currentIndex == old(currentIndex)
        && questEvents == old(questEvents) + (if points > 0 then [QuestEvent(CorrectAnswers, 1)] else [])
        && report == old(report) && droppedCard == old(droppedCard)
      ensures old(pendingAdvances) == 0 && currentIndex == |content| - 1 ==>
        isFinished && wolfState == Celebrating && pendingAdvances == 0
        && report == Some(LevelResult(LevelXp(score, timeOfDay), LevelEmeralds(biome.emeraldReward, timeOfDay),
                                      collectedWords, droppedCard, adaptiveStats))
        && droppedCard == (if CardDrop(cards, draws).Some? then CardDrop(cards, draws) else old(droppedCard))
        && questEvents == old(questEvents) + (if points > 0 then [QuestEvent(CorrectAnswers, 1)] else [])
                          + [QuestEvent(PlayGame, 1), QuestEvent(EarnEmeralds, LevelEmeralds(biome.emeraldReward, timeOfDay))]
        && (points > 0 && Truthy(word) ==> word.value in report.value.learnedWords)
    {
      if pendingAdvances > 0 {
        return;
      }
      RecordAnswer(points, word, responseTimeMs);
      if currentIndex < |content| - 1 {
        pendingAdvances := pendingAdvances + 1;
      } else {
        var xp, emeralds := HandleLevelComplete(score, draws);
        report := Some(LevelResult(xp, emeralds, collectedWords, droppedCard, adaptiveStats));
      }
    }

    /** `nextQuestion` as the arena has it: nothing stops a second answer
        while the step to the next challenge is pending, so every answer
        schedules a step of its own. The last answer's report is made 4 s
        later by a closure over the answering render, so it carries the
        words, the card and the statistics as they were before that answer:
        not its word, not its statistics update, and not the card dropped
        with it. */
    method NextQuestionAsWritten(points: nat, word: Option<string>, responseTimeMs: real, draws: Draws)
      requires HelperValid() && !isFinished && ValidDraws(draws)
      modifies this
      ensures HelperValid()
      ensures content == old(content) && currentIndex == old(currentIndex)
      ensures isFinished <==> currentIndex >= |content| - 1
      ensures wolfCharges == old(wolfCharges)
      ensures selectedSyllable == old(selectedSyllable) && spoken == old(spoken) && TimersKept() && IdleRearmed()
      ensures wolfState == (if isFinished then Celebrating else old(wolfState))
      ensures score == old(score) + points
      ensures adaptiveStats == Updated(old(adaptiveStats), points > 0, responseTimeMs, word)
      ensures collectedWords == old(collectedWords) + (if points > 0 && Truthy(word) then [word.value] else [])
      ensures old(currentIndex) < |content| - 1 ==>
        pendingAdvances == old(pendingAdvances) + 1 && !isFinished && currentIndex == old(currentIndex)
        && questEvents == old(questEvents) + (if points > 0 then [QuestEvent(CorrectAnswers, 1)] else [])
        && report == old(report) && droppedCard == old(droppedCard)
      ensures old(currentIndex) >= |content| - 1 ==>
        pendingAdvances == old(pendingAdvances)
        && droppedCard == (if CardDrop(cards, draws).Some? then CardDrop(cards, draws) else old(droppedCard))
        && questEvents == old(questEvents) + (if points > 0 then [QuestEvent(CorrectAnswers, 1)] else [])
                          + [QuestEvent(PlayGame, 1), QuestEvent(EarnEmeralds, LevelEmeralds(biome.emeraldReward, timeOfDay))]
      ensures old(currentIndex) >= |content| - 1 ==>
        report == Some(LevelResult(LevelXp(score, timeOfDay), LevelEmeralds(biome.emeraldReward, timeOfDay),
                                   old(collectedWords), old(droppedCard), old(adaptiveStats)))
    {
      // The values the report's closure captures.
      var words, card, stats := collectedWords, droppedCard, adaptiveStats;
      RecordAnswer(points, word, responseTimeMs);
      if currentIndex < |content| - 1 {
        pendingAdvances := pendingAdvances + 1;
      } else {
        var xp, emeralds := HandleLevelComplete(score, draws);
        report := Some(LevelResult(xp, emeralds, words, card, stats));
      }
    }

    /** The step to the next challenge, 1.5 seconds after an answer. */
    method AdvanceTimeout()
      requires HelperValid() && pendingAdvances > 0
      modifies this
      ensures HelperValid()
      ensures old(SessionValid()) ==> SessionValid() && currentIndex < |content|
      ensures currentIndex == old(currentIndex) + 1 && pendingAdvances == old(pendingAdvances) - 1
      ensures content == old(content) && score == old(score) && isFinished == old(isFinished)
      ensures collectedWords == old(collectedWords) && droppedCard == old(droppedCard)
      ensures adaptiveStats == old(adaptiveStats) && questEvents == old(questEvents) && report == old(report)
      ensures wolfState == old(wolfState) && wolfCharges == old(wolfCharges)
      ensures selectedSyllable == old(selectedSyllable) && spoken == old(spoken) && TimersKept()
      ensures idleArmed == old(idleArmed)
    {
      currentIndex := currentIndex + 1;
      pendingAdvances := pendingAdvances - 1;
    }

    /** The challenge on screen. */
    function CurrentItem(): (r: Option<Item>)
      reads this
      ensures r.Some? <==> currentIndex < |content|
      ensures r.Some? ==> r.value == content[currentIndex]
    {
      if currentIndex < |content| then Some(content[currentIndex]) else None
    }
  }

  /** Answering the first of two fluency challenges twice within the
      feedback delay: both steps fire and the arena points past its last
      challenge, with no item to render. */
  method DoubleAnswerOverruns() returns (index: nat, length: nat, shown: Option<Item>)
    ensures index == length == 2 && shown == None
  {
    var provider := new Provider("");
    var arena := new Arena(Biomes[2], 1, None, None, provider, EmptyText, EmptyText, EmptyText);
    assert arena.content == OfflineContent(Fluency) == FallbackFluency;
    var draws := Draws(1.0, 0.0, 0.0);
    arena.NextQuestionAsWritten(1, None, 1000.0, draws);
    arena.NextQuestionAsWritten(1, None, 1000.0, draws);
    arena.AdvanceTimeout();
    arena.AdvanceTimeout();
    index, length, shown := arena.currentIndex, |arena.content|, arena.CurrentItem();
  }

  /** The same two answers under the one-answer rule: the second is
      ignored and the arena moves to the second challenge. */
  method DoubleAnswerGuarded() returns (index: nat, length: nat, score: nat)
    ensures index == 1 && length == 2 && score == 1
  {
    var provider := new Provider("");
    var arena := new Arena(Biomes[2], 1, None, None, provider, EmptyText, EmptyText, EmptyText);
    assert arena.content == OfflineContent(Fluency) == FallbackFluency;
    var draws := Draws(1.0, 0.0, 0.0);
    arena.NextQuestion(1, None, 1000.0, draws);
    arena.NextQuestion(1, None, 1000.0, draws);
    arena.AdvanceTimeout();
    index, length, score := arena.currentIndex, |arena.content|, arena.score;
  }

  /** Left alone after mounting, the helper does not stay asleep: when the
      idle timeout fires it is already waking, the wake sound has played,
      and a second later it is idle again with the countdown armed. */
  method IdleWakesAtOnce() returns (afterIdle: WolfState, sounds: nat, afterWake: WolfState, armed: bool)
    ensures afterIdle == Waking && sounds == 1 && afterWake == Idle && armed
  {
    var provider := new Provider("");
    var arena := new Arena(Biomes[2], 1, None, None, provider, EmptyText, EmptyText, EmptyText);
    arena.IdleTimeout();
    afterIdle, sounds := arena.wolfState, arena.wakeSounds;
    arena.WakeTimeout();
    afterWake, armed := arena.wolfState, arena.idleArmed;
  }

  /** Under the intended timeout the helper sleeps. A click on the helper
      reaches its own handler, which does nothing while it sleeps, and then
      the window listener, which wakes it with the wake sound. */
  method IdleSleepsUntilClick() returns (asleep: WolfState, afterWolfClick: WolfState, afterClick: WolfState, sounds: nat)
    ensures asleep == Sleeping && afterWolfClick == Sleeping && afterClick == Waking && sounds == 1
  {
    var provider := new Provider("");
    var arena := new Arena(Biomes[2], 1, None, None, provider, EmptyText, EmptyText, EmptyText);
    arena.IdleTimeoutIntended();
    asleep := arena.wolfState;
    arena.HandleWolfClick();
    afterWolfClick := arena.wolfState;
    arena.Activity();
    afterClick, sounds := arena.wolfState, arena.wakeSounds;
  }

  /** The offline boss level answered right three times, under the arena
      as written. The syllable and creeper boards pass the item's word and
      the reading board passes none (GameArena.tsx:394, 403, 416), so the
      answers carry BOLA, nothing and MESA. The last answer draws the card,
      but the report carries no card and only the first word. By
      `GameCardDrop` a card is drawn whenever the first draw is below
      0.35. */
  method LastAnswerReportAsWritten(draws: Draws) returns (dropped: Option<string>, reported: Option<string>, words: seq<string>)
    requires ValidDraws(draws)
    ensures dropped == CardDrop(CollectibleCards, draws) && reported == None && words == ["BOLA"]
  {
    var provider := new Provider("");
    var arena := new Arena(BossBiome, 5, None, None, provider, EmptyText, EmptyText, EmptyText);
    assert arena.content == OfflineContent(Boss) == [FallbackSyllables[0], FallbackFluency[0], FallbackCreeper[0]];
    arena.NextQuestionAsWritten(1, arena.content[0].word, 1000.0, draws);
    assert arena.collectedWords == ["BOLA"] && arena.currentIndex == 0 && |arena.content| == 3;
    arena.AdvanceTimeout();
    arena.NextQuestionAsWritten(1, arena.content[1].word, 1000.0, draws);
    assert arena.collectedWords == ["BOLA"] && arena.currentIndex == 1 && arena.pendingAdvances == 1;
    arena.AdvanceTimeout();
    assert Truthy(arena.content[2].word);
    arena.NextQuestionAsWritten(1, arena.content[2].word, 1000.0, draws);
    dropped, reported, words := arena.droppedCard, arena.report.value.droppedCard, arena.report.value.learnedWords;
  }

  /** The same answers under the corrected report: it carries the card
      drawn and both words. */
  method LastAnswerReportGuarded(draws: Draws) returns (dropped: Option<string>, reported: Option<string>, words: seq<string>)
    requires ValidDraws(draws)
    ensures dropped == CardDrop(CollectibleCards, draws) && reported == dropped && words == ["BOLA", "MESA"]
  {
    var provider := new Provider("");
    var arena := new Arena(BossBiome, 5, None, None, provider, EmptyText, EmptyText, EmptyText);
    assert arena.content == OfflineContent(Boss) == [FallbackSyllables[0], FallbackFluency[0], FallbackCreeper[0]];
    arena.NextQuestion(1, arena.content[0].word, 1000.0, draws);
    assert arena.collectedWords == ["BOLA"] && arena.currentIndex == 0 && |arena.content| == 3;
    arena.AdvanceTimeout();
    arena.NextQuestion(1, arena.content[1].word, 1000.0, draws);
    assert arena.collectedWords == ["BOLA"] && arena.currentIndex == 1 && arena.pendingAdvances == 1;
    arena.AdvanceTimeout();
    assert Truthy(arena.content[2].word);
    arena.NextQuestion(1, arena.content[2].word, 1000.0, draws);
    dropped, reported, words := arena.droppedCard, arena.report.value.droppedCard, arena.report.value.learnedWords;
  }
}
