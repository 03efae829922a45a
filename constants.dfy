// The static tables of constants.ts: XP thresholds, the biome map, the
// card pool, the shop, the achievements, the daily-quest templates, the
// initial profile and the fallback content, with the invariants the rest
// of the game relies on.

module Constants {
  import opened Types
  import opened Chars

  const LevelThresholds: seq<int> := [0, 100, 300, 600, 1000, 2000, 5000]
  const MascotThresholds: seq<int> := [0, 50, 200, 500, 1000]

  predicate StrictlyIncreasing(s: seq<int>) {
    forall i, j :: 0 <= i < j < |s| ==> s[i] < s[j]
  }

  /** Both threshold ladders start at 0 and strictly increase. */
  lemma ThresholdsIncreasing()
    ensures StrictlyIncreasing(LevelThresholds) && LevelThresholds[0] == 0
    ensures StrictlyIncreasing(MascotThresholds) && MascotThresholds[0] == 0
  {
  }

  // --- The map --------------------------------------------------------------

  const Biomes: seq<BiomeModule> := [
    BiomeModule("letters_workshop", "NÍVEL 0: OFICINA DAS LETRAS", Letters, 0, 2),
    BiomeModule("syllables_biome", "NÍVEL 1: PLANÍCIE DAS SÍLABAS", Syllables, 1, 3),
    BiomeModule("fluency_forest", "NÍVEL 2: FLORESTA DA FLUÊNCIA", Fluency, 1, 4),
    BiomeModule("story_library", "NÍVEL 3: BIBLIOTECA MÁGICA", Story, 1, 8),
    BiomeModule("mission_village", "NÍVEL 4: VILA DAS MISSÕES", Comprehension, 1, 5),
    BiomeModule("dark_cave", "NÍVEL 5: CAVERNA ESCURA", Flashlight, 1, 12),
    BiomeModule("creeper_cave", "NÍVEL 6: DESAFIO DO CREEPER", Creeper, 1, 10)
  ]

  const BossBiome: BiomeModule := BiomeModule("ender_dragon_lair", "CHEFE FINAL: O FIM", Boss, 5, 50)

  const MiniGames: seq<BiomeModule> := [
    BiomeModule("mini_memory", "JOGO DA MEMÓRIA", Memory, 0, 5)
  ]

  /** Biome, boss and mini-game ids are pairwise distinct. */
  lemma ModuleIdsDistinct()
    ensures forall i, j :: 0 <= i < j < |Biomes| ==> Biomes[i].id != Biomes[j].id
    ensures forall i :: 0 <= i < |Biomes| ==> Biomes[i].id != BossBiome.id
    ensures forall i, j :: 0 <= i < |Biomes| && 0 <= j < |MiniGames| ==> Biomes[i].id != MiniGames[j].id
    ensures forall j :: 0 <= j < |MiniGames| ==> MiniGames[j].id != BossBiome.id
  {
  }

  // --- Cards ----------------------------------------------------------------

  const CollectibleCards: seq<Card> := [
    Card("c1", "PORQUINHO CURIOSO", Common, CardKind),
    Card("c2", "OVELHA COLORIDA", Common, CardKind),
    Card("c3", "ESPADA DE MADEIRA", Common, CardKind),
    Card("c4", "DIAMANTE BRILHANTE", Rare, CardKind),
    Card("c5", "ENDERMAN TÍMIDO", Rare, StickerKind),
    Card("c6", "CREEPER AMIGÁVEL", Epic, StickerKind),
    Card("c7", "DRAGÃO DO FIM", Legendary, MedalKind),
    Card("c8", "HEROBRINE", Legendary, MedalKind),
    Card("s1", "LOBO FELIZ", Rare, StickerKind),
    Card("s2", "POÇÃO MÁGICA", Epic, StickerKind)
  ]

  /** `cards.filter(c => c.rarity === rarity)`. */
  function CardsOf(cards: seq<Card>, rarity: CardRarity): (r: seq<Card>)
    ensures |r| <= |cards|
    ensures forall c :: c in r <==> c in cards && c.rarity == rarity
  {
    if cards == [] then []
    else (if cards[0].rarity == rarity then [cards[0]] else []) + CardsOf(cards[1..], rarity)
  }

  /** Every rarity the drop ladder can pick has a card, so a drop never
      finds an empty pool. */
  lemma EveryRarityHasCards(rarity: CardRarity)
    ensures CardsOf(CollectibleCards, rarity) != []
  {
    var k := match rarity
      case Common => 0
      case Rare => 3
      case Epic => 5
      case Legendary => 6;
    assert CollectibleCards[k] in CollectibleCards;
  }

  lemma CardIdsUnique()
    ensures forall i, j :: 0 <= i < j < |CollectibleCards| ==> CollectibleCards[i].id != CollectibleCards[j].id
  {
  }

  // --- Shop -----------------------------------------------------------------

  const ShopItems: seq<ShopItem> := [
    ShopItem("wolf", "LOBO DOMESTICADO", 25, Goods),
    ShopItem("skin_wolf_magic", "LOBO MÁGICO", 40, WolfSkinItem(MagicWolf)),
    ShopItem("skin_wolf_space", "LOBO ESPACIAL", 45, WolfSkinItem(SpaceWolf)),
    ShopItem("skin_wolf_pirate", "LOBO PIRATA", 40, WolfSkinItem(PirateWolf)),
    ShopItem("skin_wolf_ninja", "LOBO NINJA", 50, WolfSkinItem(NinjaWolf)),
    ShopItem("voice_robot", "VOZ DE ROBÔ", 30, VoiceItem(RobotVoice)),
    ShopItem("voice_echo", "VOZ COM ECO", 30, VoiceItem(EchoVoice)),
    ShopItem("voice_high", "VOZ DE ESQUILO", 30, VoiceItem(HighVoice)),
    ShopItem("theme_neon", "MUNDO NEON", 60, ThemeItem(NeonTheme)),
    ShopItem("theme_ice", "PLANETA GELADO", 55, ThemeItem(IceTheme)),
    ShopItem("theme_desert", "DESERTO QUENTE", 55, ThemeItem(DesertTheme)),
    ShopItem("diamond_sword", "ESPADA DE DIAMANTE", 10, Goods),
    ShopItem("map", "MAPA DO TESOURO", 8, Goods),
    ShopItem("voucher_mod", "VALE MOD", 50, Voucher),
    ShopItem("voucher_build", "VALE CONSTRUÇÃO", 70, Voucher),
    ShopItem("voucher_creative", "VALE CRIATIVO", 35, Voucher)
  ]

  /** The weekly reward's skin is on sale, as a wolf skin. */
  lemma MagicSkinInShop()
    ensures exists i :: 0 <= i < |ShopItems| && ShopItems[i].id == "skin_wolf_magic" && ShopItems[i].category == WolfSkinItem(MagicWolf)
  {
    assert ShopItems[1].id == "skin_wolf_magic";
  }

  lemma ShopIdsUnique()
    ensures forall i, j :: 0 <= i < j < |ShopItems| ==> ShopItems[i].id != ShopItems[j].id
  {
  }

  // --- Achievements -----------------------------------------------------------

  datatype Achievement = Achievement(id: string, title: string, condition: UserState -> bool)

  const Achievements: seq<Achievement> := [
    Achievement("first_steps", "PRIMEIROS PASSOS", (u: UserState) => |u.completedModules| >= 1),
    Achievement("rich_player", "RICO EM ESMERALDAS", (u: UserState) => u.emeralds >= 20),
    Achievement("reader_master", "MESTRE DA LEITURA", (u: UserState) => |u.completedModules| >= 5),
    Achievement("shopper", "CLIENTE VIP", (u: UserState) => |u.inventory| >= 1),
    Achievement("boss_slayer", "HERÓI DO MUNDO", (u: UserState) => "ender_dragon_lair" in u.completedModules),
    Achievement("word_collector", "COLECIONADOR", (u: UserState) => |u.learnedWords| >= 10)
  ]

  lemma AchievementIdsUnique()
    ensures forall i, j :: 0 <= i < j < |Achievements| ==> Achievements[i].id != Achievements[j].id
  {
  }

  // --- Daily quests -----------------------------------------------------------

  datatype QuestTemplate = QuestTemplate(description: string, target: int, reward: int, kind: QuestType)

  const DailyQuestTemplates: seq<QuestTemplate> := [
    QuestTemplate("ACERTE 3 PALAVRAS", 3, 5, CorrectAnswers),
    QuestTemplate("JOGUE 2 FASES", 2, 5, PlayGame),
    QuestTemplate("GANHE 10 ESMERALDAS", 10, 8, EarnEmeralds),
    QuestTemplate("COMPLETE O MODO CREEPER", 1, 10, PlayGame)
  ]

  /** Quests need a positive amount of progress and pay a positive reward. */
  lemma QuestTemplatesPositive()
    ensures forall i :: 0 <= i < |DailyQuestTemplates| ==>
      DailyQuestTemplates[i].target > 0 && DailyQuestTemplates[i].reward > 0
  {
  }

  /** `INITIAL_USER_STATE`; the login date is the day the profile is made. */
  function InitialUserState(today: string): (u: UserState)
    ensures u.loginStreak == 1 && u.mascotLevel == 1 && u.emeralds == 0 && u.xp == 0
    ensures u.lastLoginDate == today && u.lastRewardClaimedDate == ""
  {
    UserState(
      "LUCAS GABRIEL", Steve, 0, 1, 0, [], [], [], [], [], [], 0, 1, today, 1, "",
      AdaptiveStats(map[], 5000.0, 0, 1.0),
      DefaultWolf, NormalVoice, DefaultTheme, false, true)
  }

  // --- Fallback content -------------------------------------------------------

  const FallbackLetters: seq<Item> := [
    LettersChallenge("1", "SOL", "☀️"),
    LettersChallenge("2", "LUA", "🌙"),
    LettersChallenge("3", "UVA", "🍇"),
    LettersChallenge("4", "OVO", "🥚"),
    LettersChallenge("5", "BOLA", "⚽")
  ]

  const FallbackSyllables: seq<Item> := [
    SyllableChallenge("s1", "BOLA", "⚽", ["BO", "LA"], ["BA", "LE", "LO"]),
    SyllableChallenge("s2", "CASA", "🏠", ["CA", "SA"], ["CO", "SE", "SU"]),
    SyllableChallenge("s3", "GATO", "🐱", ["GA", "TO"], ["GO", "TA", "TE"])
  ]

  const FallbackFluency: seq<Item> := [
    FluencyChallenge("f1", "O SOL BRILHA.", ["O SOL", "BRILHA."]),
    FluencyChallenge("f2", "A BOLA ROLA.", ["A BOLA", "ROLA."])
  ]

  const FallbackComprehension: seq<Item> := [
    ComprehensionChallenge("c1", "SOU AMARELA E GOSTO DE MACACOS.", [
      ChoiceOption(Some("🍌"), Some("BANANA"), None, true),
      ChoiceOption(Some("🍎"), Some("MAÇÃ"), None, false),
      ChoiceOption(Some("🍇"), Some("UVA"), None, false)
    ])
  ]

  const FallbackCreeper: seq<Item> := [
    CreeperChallenge("cr1", "MESA", [
      ChoiceOption(Some("🪑"), None, None, true),
      ChoiceOption(Some("🛌"), None, None, false),
      ChoiceOption(Some("🚪"), None, None, false)
    ])
  ]

  const FallbackStories: seq<Item> := [
    StoryChallenge("story_1", "O PORQUINHO", [
      StoryPage(Some("O PORQUINHO SAIU DE CASA."), "🐷", Some("walk")),
      StoryPage(Some("ELE VIU UMA MAÇÃ NO CHÃO."), "🍎", Some("shake")),
      StoryPage(Some("NHAC! ELE COMEU TUDO."), "😋", Some("jump")),
      StoryPage(Some("AGORA ELE ESTÁ FELIZ."), "😊", Some("spin"))
    ], Quiz(Some("O QUE O PORQUINHO COMEU?"), Some([
      QuizOption(Some("UMA MAÇÃ"), true),
      QuizOption(Some("UMA BANANA"), false)
    ])))
  ]

  const FallbackFlashlight: seq<Item> := [
    FlashlightChallenge("flash_campaign_1", [
      FlashlightStage(1, "ENCONTRE: PATO, BOLA, SAPO", FindWords, ["PATO", "BOLA", "SAPO"], [
        HiddenItem("1", "PATO", 20, 30, WordItem, true),
        HiddenItem("2", "BOLA", 80, 20, WordItem, true),
        HiddenItem("3", "SAPO", 50, 80, WordItem, true),
        HiddenItem("4", "MALA", 10, 60, WordItem, false)
      ]),
      FlashlightStage(2, "MONTE A PALAVRA: COMER", BuildWord, ["CO", "MER"], [
        HiddenItem("1", "CO", 15, 25, SyllableItem, true),
        HiddenItem("2", "MER", 75, 75, SyllableItem, true),
        HiddenItem("3", "PA", 40, 40, SyllableItem, false)
      ]),
      FlashlightStage(3, "ENCONTRE: LUA, SOL, MAR", FindWords, ["LUA", "SOL", "MAR"], [
        HiddenItem("obs1", "🦇", 50, 50, ObstacleItem, false),
        HiddenItem("1", "LUA", 10, 10, WordItem, true),
        HiddenItem("2", "SOL", 90, 10, WordItem, true),
        HiddenItem("3", "MAR", 50, 90, WordItem, true)
      ])
    ])
  ]

  const FallbackMemory: seq<Item> := [
    MemoryChallenge("mem1", [
      MemoryPair("p1", "BO", TextSide),
      MemoryPair("p1", "🍰", ImageSide),
      MemoryPair("p2", "CA", TextSide),
      MemoryPair("p2", "🐶", ImageSide),
      MemoryPair("p3", "SO", TextSide),
      MemoryPair("p3", "🛋️", ImageSide)
    ])
  ]

  // --- What the fallback content guarantees -----------------------------------

  /** A syllable challenge whose syllables spell the word and whose
      distractors are not syllables of it. */
  predicate WellFormedSyllableItem(item: Item) {
    item.word.Some? && item.syllables.Some? && item.distractors.Some?
    && Concat(item.syllables.value) == item.word.value
    && forall d :: d in item.distractors.value ==> d !in item.syllables.value
  }

  /** A fluency challenge whose chunks, joined by a space, give the text. */
  predicate WellFormedFluencyItem(item: Item) {
    item.fullText.Some? && item.chunks.Some?
    && Join(item.chunks.value, " ") == item.fullText.value
  }

  /** How many elements of `xs` satisfy `p`: the number of options marked
      correct, for choice and quiz options alike. */
  function CountWhere<T>(xs: seq<T>, p: T -> bool): (r: nat)
    ensures r <= |xs|
  {
    if xs == [] then 0 else (if p(xs[0]) then 1 else 0) + CountWhere(xs[1..], p)
  }

  /** How many pairs of the list carry this id and side. */
  function PairCount(pairs: seq<MemoryPair>, id: string, kind: PairKind): (r: nat)
    ensures r <= |pairs|
  {
    if pairs == [] then 0
    else (if pairs[0].id == id && pairs[0].kind == kind then 1 else 0) + PairCount(pairs[1..], id, kind)
  }

  /** Every id occurs exactly once as text and once as image. */
  predicate PairsComplete(pairs: seq<MemoryPair>) {
    forall i :: 0 <= i < |pairs| ==>
      PairCount(pairs, pairs[i].id, TextSide) == 1 && PairCount(pairs, pairs[i].id, ImageSide) == 1
  }

  lemma FallbackSyllablesWellFormed()
    ensures forall i :: 0 <= i < |FallbackSyllables| ==> WellFormedSyllableItem(FallbackSyllables[i])
  {
    forall i | 0 <= i < |FallbackSyllables| ensures WellFormedSyllableItem(FallbackSyllables[i]) {
      var item := FallbackSyllables[i];
      assert Concat(item.syllables.value) == item.word.value by {
        var s := item.syllables.value;
        assert s[1..][1..] == [];
      }
    }
  }

  lemma FallbackFluencyWellFormed()
    ensures forall i :: 0 <= i < |FallbackFluency| ==> WellFormedFluencyItem(FallbackFluency[i])
  {
    forall i | 0 <= i < |FallbackFluency| ensures WellFormedFluencyItem(FallbackFluency[i]) {
      var c := FallbackFluency[i].chunks.value;
      assert |c[1..]| == 1;
    }
  }

  /** Each multiple-choice fallback has exactly one right answer. */
  lemma FallbackChoicesSingleCorrect()
    ensures forall i :: 0 <= i < |FallbackComprehension| ==>
      FallbackComprehension[i].options.Some? && CountWhere(FallbackComprehension[i].options.value, (o: ChoiceOption) => o.isCorrect) == 1
    ensures forall i :: 0 <= i < |FallbackCreeper| ==>
      FallbackCreeper[i].options.Some? && CountWhere(FallbackCreeper[i].options.value, (o: ChoiceOption) => o.isCorrect) == 1
    ensures forall i :: 0 <= i < |FallbackStories| ==>
      FallbackStories[i].quiz.Some? && FallbackStories[i].quiz.value.options.Some?
      && CountWhere(FallbackStories[i].quiz.value.options.value, (o: QuizOption) => o.isCorrect) == 1
  {
  }

  /** The memory fallback can be completed: its pairs come in text/image twins. */
  lemma FallbackMemoryComplete()
    ensures forall i :: 0 <= i < |FallbackMemory| ==>
      FallbackMemory[i].pairs.Some? && PairsComplete(FallbackMemory[i].pairs.value)
  {
    var p := FallbackMemory[0].pairs.value;
    MemoryPairCounts(p);
    assert forall i :: 0 <= i < |p| ==> p[i].id in {"p1", "p2", "p3"};
  }

  lemma MemoryPairCounts(p: seq<MemoryPair>)
    requires p == FallbackMemory[0].pairs.value
    ensures forall id :: id in {"p1", "p2", "p3"} ==> PairCount(p, id, TextSide) == 1 && PairCount(p, id, ImageSide) == 1
  {
    assert p == [p[0], p[1]] + p[2..];
    assert p[2..] == [p[2], p[3]] + p[4..];
    PairCountTwin(p[4..], "p3", "p1");
    PairCountTwin(p[4..], "p3", "p2");
    PairCountTwin(p[2..], "p2", "p1");
  }

  /** Counting in a list made of a text/image twin followed by the rest. */
  lemma PairCountTwin(p: seq<MemoryPair>, id: string, other: string)
    requires |p| >= 2 && p[0].id == id && p[1].id == id && p[0].kind == TextSide && p[1].kind == ImageSide
    requires other != id
    ensures PairCount(p, id, TextSide) == PairCount(p[2..], id, TextSide) + 1
    ensures PairCount(p, id, ImageSide) == PairCount(p[2..], id, ImageSide) + 1
    ensures PairCount(p, other, TextSide) == PairCount(p[2..], other, TextSide)
    ensures PairCount(p, other, ImageSide) == PairCount(p[2..], other, ImageSide)
  {
    assert p[1..][1..] == p[2..];
  }
}
