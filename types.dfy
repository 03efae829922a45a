// Records and enumerations of the literacy game (types.ts), plus the
// untyped content item that flows between the content provider, the
// static catalogue and the game arena.

module Types {

  datatype Option<+T> = None | Some(value: T)

  /** The pedagogical module kinds (types.ts:2-12). */
  datatype ModuleType =
    | Syllables | Fluency | Comprehension | Creeper | Letters
    | Boss | Story | Flashlight | Memory

  /** The string value of each enum member, as used in cache keys. */
  function ModuleName(t: ModuleType): (r: string)
    ensures r != [] && '_' !in r
  {
    match t
    case Syllables => "SYLLABLES"
    case Fluency => "FLUENCY"
    case Comprehension => "COMPREHENSION"
    case Creeper => "CREEPER"
    case Letters => "LETTERS"
    case Boss => "BOSS"
    case Story => "STORY"
    case Flashlight => "FLASHLIGHT"
    case Memory => "MEMORY"
  }

  /** The helper wolf's states (types.ts:14-24). */
  datatype WolfState =
    | Idle | Listening | Confirming | Speaking | NoCharges
    | Sleeping | Waking | Celebrating | Worried

  datatype TimeOfDay = Morning | Afternoon | Night

  datatype CardRarity = Common | Rare | Epic | Legendary
  datatype CardType = CardKind | StickerKind | MedalKind

  datatype Card = Card(id: string, name: string, rarity: CardRarity, kind: CardType)

  datatype BiomeModule = BiomeModule(
    id: string, title: string, kind: ModuleType, minLevel: nat, emeraldReward: nat)

  datatype QuestType = PlayGame | CorrectAnswers | EarnEmeralds

  datatype DailyQuest = DailyQuest(
    id: string, description: string, target: int, current: int,
    reward: int, isClaimed: bool, kind: QuestType)

  /** The adaptive statistics record (types.ts:76-81); numbers are exact reals. */
  datatype AdaptiveStats = AdaptiveStats(
    errorCount: map<string, nat>,
    averageResponseTime: real,
    totalQuestions: nat,
    difficultyMultiplier: real)

  datatype Skin = Steve | Alex | Zombie | Skeleton
  datatype WolfSkin = DefaultWolf | MagicWolf | SpaceWolf | PirateWolf | NinjaWolf
  datatype VoiceEffect = NormalVoice | EchoVoice | HighVoice | RobotVoice
  datatype Theme = DefaultTheme | ForestTheme | IceTheme | DesertTheme | NeonTheme

  /** A shop item's category; the equippable ones carry the value they equip. */
  datatype ShopCategory =
    | Goods | Voucher
    | WolfSkinItem(skin: WolfSkin)
    | VoiceItem(voice: VoiceEffect)
    | ThemeItem(theme: Theme)

  datatype ShopItem = ShopItem(id: string, name: string, price: nat, category: ShopCategory)

  /** The learner profile (types.ts:83-115). */
  datatype UserState = UserState(
    name: string,
    skin: Skin,
    xp: int,
    level: nat,
    emeralds: int,
    completedModules: seq<string>,
    inventory: seq<string>,
    achievements: seq<string>,
    learnedWords: seq<string>,
    dailyQuests: seq<DailyQuest>,
    collectedCards: seq<string>,
    mascotXp: int,
    mascotLevel: int,
    lastLoginDate: string,
    loginStreak: int,
    lastRewardClaimedDate: string,
    adaptiveStats: AdaptiveStats,
    equippedWolfSkin: WolfSkin,
    equippedVoiceEffect: VoiceEffect,
    equippedTheme: Theme,
    nightMode: bool,
    soundEnabled: bool)

  // --- Content items -------------------------------------------------------
  // The provider and the arena handle content as untyped objects; an Item
  // has every field any challenge record of types.ts:129-200 can carry,
  // each optional. A missing field is None.

  /** An answer option: comprehension ones have a label (`labelText`, since `label` is a
      Dafny keyword), creeper ones only an emoji. */
  datatype ChoiceOption = ChoiceOption(
    emoji: Option<string>, labelText: Option<string>, text: Option<string>, isCorrect: bool)

  datatype QuizOption = QuizOption(text: Option<string>, isCorrect: bool)
  datatype Quiz = Quiz(question: Option<string>, options: Option<seq<QuizOption>>)
  datatype StoryPage = StoryPage(text: Option<string>, image: string, animation: Option<string>)
  datatype HiddenWord = HiddenWord(word: Option<string>, x: int, y: int, isTarget: bool)

  datatype PairKind = TextSide | ImageSide
  datatype MemoryPair = MemoryPair(id: string, content: string, kind: PairKind)

  datatype StageKind = FindWords | BuildWord | Mixed
  datatype HiddenKind = WordItem | SyllableItem | ObstacleItem
  datatype HiddenItem = HiddenItem(
    id: string, content: string, x: int, y: int, kind: HiddenKind, isTarget: bool)
  datatype FlashlightStage = FlashlightStage(
    level: nat, instruction: string, kind: StageKind,
    targets: seq<string>, hiddenItems: seq<HiddenItem>)

  datatype Item = Item(
    id: Option<string>,
    word: Option<string>,
    emoji: Option<string>,
    fullText: Option<string>,
    sentence: Option<string>,
    targetWord: Option<string>,
    title: Option<string>,
    syllables: Option<seq<string>>,
    distractors: Option<seq<string>>,
    chunks: Option<seq<string>>,
    options: Option<seq<ChoiceOption>>,
    hiddenWords: Option<seq<HiddenWord>>,
    pages: Option<seq<StoryPage>>,
    quiz: Option<Quiz>,
    pairs: Option<seq<MemoryPair>>,
    stages: Option<seq<FlashlightStage>>)

  /** The object with no fields, `{}`. */
  const EmptyItem: Item :=
    Item(None, None, None, None, None, None, None, None, None, None,
         None, None, None, None, None, None)

  /** JavaScript truthiness of an optional string field: present and non-empty. */
  predicate Truthy(s: Option<string>) {
    s.Some? && s.value != ""
  }

  // Builders for the typed challenge records of types.ts:129-200.

  function LettersChallenge(id: string, word: string, emoji: string): Item {
    EmptyItem.(id := Some(id), word := Some(word), emoji := Some(emoji))
  }

  function SyllableChallenge(
    id: string, word: string, emoji: string, syllables: seq<string>, distractors: seq<string>): Item
  {
    EmptyItem.(id := Some(id), word := Some(word), emoji := Some(emoji),
               syllables := Some(syllables), distractors := Some(distractors))
  }

  function FluencyChallenge(id: string, fullText: string, chunks: seq<string>): Item {
    EmptyItem.(id := Some(id), fullText := Some(fullText), chunks := Some(chunks))
  }

  function ComprehensionChallenge(id: string, sentence: string, options: seq<ChoiceOption>): Item {
    EmptyItem.(id := Some(id), sentence := Some(sentence), options := Some(options))
  }

  function CreeperChallenge(id: string, word: string, options: seq<ChoiceOption>): Item {
    EmptyItem.(id := Some(id), word := Some(word), options := Some(options))
  }

  function StoryChallenge(id: string, title: string, pages: seq<StoryPage>, quiz: Quiz): Item {
    EmptyItem.(id := Some(id), title := Some(title), pages := Some(pages), quiz := Some(quiz))
  }

  function FlashlightChallenge(id: string, stages: seq<FlashlightStage>): Item {
    EmptyItem.(id := Some(id), stages := Some(stages))
  }

  function MemoryChallenge(id: string, pairs: seq<MemoryPair>): Item {
    EmptyItem.(id := Some(id), pairs := Some(pairs))
  }
}
