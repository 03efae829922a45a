// The profile bookkeeping of the app shell (App.tsx): every handler is a
// transform of the learner's profile record. The clock, the calendar and
// every `Math.random()` draw are inputs: the hour of the day, the number
// of whole days since the last login, today's date string, a timestamp
// used in quest ids, a shuffled order of the quest templates and a random
// card position.

module AppProfile {
  import opened Types
  import opened Chars
  import opened Constants
  import opened GameArena

  // --- Time of day ------------------------------------------------------

  /** `updateEnvironment`: night from 8 PM to 6 AM, afternoon from noon,
      morning otherwise. */
  function ClassifyTime(hour: int): (r: TimeOfDay)
    ensures r == Night <==> hour >= 20 || hour < 6
    ensures r == Afternoon <==> 12 <= hour < 20
    ensures r == Morning <==> 6 <= hour < 12
  {
    var newTime := Morning;
    if hour >= 20 || hour < 6 then Night else if hour >= 12 then Afternoon else newTime
  }

  /** The hour decides the bonuses of a level: extra XP only in the
      morning, double emeralds only in the afternoon. */
  lemma TimeBonuses(hour: int, finalScore: nat, reward: nat)
    ensures LevelXp(finalScore, Some(ClassifyTime(hour))) > LevelXp(finalScore, None) <==> 6 <= hour < 12
    ensures LevelEmeralds(reward, Some(ClassifyTime(hour))) ==
      (if 12 <= hour < 20 then 2 * reward else reward)
  {
  }

  // --- Daily quests -----------------------------------------------------

  /** One quest under `updateQuestProgress`: an unclaimed quest of the type
      moves `amount` towards its target and stops there; any other quest is
      left as it is. */
  function Progressed(q: DailyQuest, kind: QuestType, amount: int): (r: DailyQuest)
    ensures r == q.(current := r.current)
    ensures q.kind != kind || q.isClaimed ==> r.current == q.current
    ensures q.kind == kind && !q.isClaimed ==>
      r.current <= q.target && r.current <= q.current + amount
      && (r.current == q.target || r.current == q.current + amount)
  {
    if q.kind == kind && !q.isClaimed then
      q.(current := if q.target <= q.current + amount then q.target else q.current + amount)
    else q
  }

  /** `updateQuestProgress`: every quest progressed, nothing else touched. */
  function UpdateQuestProgress(u: UserState, kind: QuestType, amount: int): (r: UserState)
    ensures r == u.(dailyQuests := r.dailyQuests)
    ensures |r.dailyQuests| == |u.dailyQuests|
    ensures forall i :: 0 <= i < |u.dailyQuests| ==> r.dailyQuests[i] == Progressed(u.dailyQuests[i], kind, amount)
  {
    u.(dailyQuests := seq(|u.dailyQuests|, i requires 0 <= i < |u.dailyQuests| => Progressed(u.dailyQuests[i], kind, amount)))
  }

  /** Each quest's progress lies between none and its target. */
  predicate QuestsBounded(u: UserState) {
    forall i :: 0 <= i < |u.dailyQuests| ==> 0 <= u.dailyQuests[i].current <= u.dailyQuests[i].target
  }

  /** Progress never overshoots a target nor goes back, and a quest that
      has been brought within `amount` of its target reaches it. */
  lemma ProgressBounded(u: UserState, kind: QuestType, amount: int)
    requires QuestsBounded(u) && amount >= 0
    ensures QuestsBounded(UpdateQuestProgress(u, kind, amount))
    ensures forall i :: 0 <= i < |u.dailyQuests| ==>
      u.dailyQuests[i].current <= UpdateQuestProgress(u, kind, amount).dailyQuests[i].current
    ensures forall i :: 0 <= i < |u.dailyQuests| ==>
      var q := u.dailyQuests[i];
      q.kind == kind && !q.isClaimed && q.current + amount >= q.target ==>
        UpdateQuestProgress(u, kind, amount).dailyQuests[i].current == q.target
  {
  }

  /** Progress of nothing changes nothing. */
  lemma ProgressZero(u: UserState, kind: QuestType)
    requires QuestsBounded(u)
    ensures UpdateQuestProgress(u, kind, 0) == u
  {
    var r := UpdateQuestProgress(u, kind, 0);
    assert r.dailyQuests == u.dailyQuests;
  }

  /** `dailyQuests.find(q => q.id === id)`, as a position. */
  function FindQuest(qs: seq<DailyQuest>, id: string): (r: Option<nat>)
    ensures r.Some? ==> r.value < |qs| && qs[r.value].id == id && forall j :: 0 <= j < r.value ==> qs[j].id != id
    ensures r.None? ==> forall j :: 0 <= j < |qs| ==> qs[j].id != id
  {
    if qs == [] then None
    else if qs[0].id == id then Some(0)
    else
      var k := FindQuest(qs[1..], id);
      if k.Some? then Some(k.value + 1) else None
  }

  /** The first quest with the id has reached its target and is unclaimed. */
  predicate Claimable(u: UserState, id: string) {
    var k := FindQuest(u.dailyQuests, id);
    k.Some? && u.dailyQuests[k.value].current >= u.dailyQuests[k.value].target && !u.dailyQuests[k.value].isClaimed
  }

  /** `claimQuest`: a claimable quest pays its reward, and every quest with
      that id is marked claimed; otherwise nothing happens. */
  function ClaimQuest(u: UserState, id: string): (r: UserState)
    ensures !Claimable(u, id) ==> r == u
    ensures Claimable(u, id) ==>
      r == u.(emeralds := r.emeralds, dailyQuests := r.dailyQuests)
      && r.emeralds == u.emeralds + u.dailyQuests[FindQuest(u.dailyQuests, id).value].reward
      && |r.dailyQuests| == |u.dailyQuests|
      && forall i :: 0 <= i < |u.dailyQuests| ==>
        r.dailyQuests[i] == (if u.dailyQuests[i].id == id then u.dailyQuests[i].(isClaimed := true) else u.dailyQuests[i])
  {
    if Claimable(u, id) then
      var quest := u.dailyQuests[FindQuest(u.dailyQuests, id).value];
      u.(emeralds := u.emeralds + quest.reward,
         dailyQuests := seq(|u.dailyQuests|, i requires 0 <= i < |u.dailyQuests| =>
           if u.dailyQuests[i].id == id then u.dailyQuests[i].(isClaimed := true) else u.dailyQuests[i]))
    else u
  }

  /** A quest pays once: claiming it again is a no-op. */
  lemma ClaimOnce(u: UserState, id: string)
    ensures ClaimQuest(ClaimQuest(u, id), id) == ClaimQuest(u, id)
  {
    if Claimable(u, id) {
      var r := ClaimQuest(u, id);
      var k := FindQuest(u.dailyQuests, id);
      assert forall j :: 0 <= j < |r.dailyQuests| ==> r.dailyQuests[j].id == u.dailyQuests[j].id;
      assert FindQuest(r.dailyQuests, id) == k by {
        FindQuestSameIds(u.dailyQuests, r.dailyQuests, id);
      }
      assert r.dailyQuests[k.value].isClaimed;
    }
  }

  /** `find` looks only at ids. */
  lemma {:induction false} FindQuestSameIds(qs: seq<DailyQuest>, qs': seq<DailyQuest>, id: string)
    requires |qs| == |qs'| && forall j :: 0 <= j < |qs| ==> qs[j].id == qs'[j].id
    ensures FindQuest(qs, id) == FindQuest(qs', id)
  {
    if qs != [] && qs[0].id != id {
      FindQuestSameIds(qs[1..], qs'[1..], id);
    }
  }

  /** Claiming keeps every quest's progress within its target. */
  lemma ClaimBounded(u: UserState, id: string)
    requires QuestsBounded(u)
    ensures QuestsBounded(ClaimQuest(u, id))
  {
  }

  // --- Shop -------------------------------------------------------------

  /** `handleBuy`: with enough emeralds the price is paid, the item joins
      the inventory and an equippable item is equipped; the quests are then
      updated with zero emeralds earned. Without enough emeralds nothing
      happens. */
  function HandleBuy(u: UserState, item: ShopItem): (r: UserState)
    ensures u.emeralds < item.price ==> r == u
    ensures u.emeralds >= item.price ==>
      r.emeralds == u.emeralds - item.price && r.inventory == u.inventory + [item.id]
      && r.equippedWolfSkin == (if item.category.WolfSkinItem? then item.category.skin else u.equippedWolfSkin)
      && r.equippedVoiceEffect == (if item.category.VoiceItem? then item.category.voice else u.equippedVoiceEffect)
      && r.equippedTheme == (if item.category.ThemeItem? then item.category.theme else u.equippedTheme)
      && r.dailyQuests == UpdateQuestProgress(u, EarnEmeralds, 0).dailyQuests
      && r == u.(emeralds := r.emeralds, inventory := r.inventory, equippedWolfSkin := r.equippedWolfSkin,
                 equippedVoiceEffect := r.equippedVoiceEffect, equippedTheme := r.equippedTheme,
                 dailyQuests := r.dailyQuests)
  {
    if u.emeralds >= item.price then
      var updates := u.(emeralds := u.emeralds - item.price, inventory := u.inventory + [item.id]);
      var equipped :=
        match item.category
        case WolfSkinItem(skin) => updates.(equippedWolfSkin := skin)
        case VoiceItem(voice) => updates.(equippedVoiceEffect := voice)
        case ThemeItem(theme) => updates.(equippedTheme := theme)
        case _ => updates;
      UpdateQuestProgress(equipped, EarnEmeralds, 0)
    else u
  }

  /** Buying never takes the emeralds below zero, and the quest update that
      follows a purchase changes no quest. */
  lemma BuyKeeps(u: UserState, item: ShopItem)
    requires u.emeralds >= 0 && QuestsBounded(u)
    ensures HandleBuy(u, item).emeralds >= 0
    ensures HandleBuy(u, item).dailyQuests == u.dailyQuests
  {
    ProgressZero(u, EarnEmeralds);
  }

  // --- Login ------------------------------------------------------------

  /** The streak after a login `diffDays` whole days after the last one:
      the next day extends it, a gap of more than two days restarts it, any
      other gap (the same day, two days) keeps it. */
  function NextStreak(streak: int, diffDays: int): (r: int)
    ensures diffDays == 1 ==> r == streak + 1
    ensures diffDays > 2 ==> r == 1
    ensures diffDays != 1 && diffDays <= 2 ==> r == streak
  {
    var newStreak := streak;
    if diffDays == 1 then newStreak + 1
    else if diffDays > 2 then 1
    else newStreak
  }

  /** A streak that has started never drops below one day. */
  lemma StreakPositive(streak: int, diffDays: int)
    requires streak >= 1
    ensures NextStreak(streak, diffDays) >= 1
    ensures NextStreak(streak, diffDays) <= streak + 1
  {
  }

  /** The quest id `q_<stamp>_<i>`. */
  function QuestId(stamp: string, i: nat): (r: string) {
    "q_" + stamp + "_" + NatToString(i)
  }

  lemma QuestIdInjective(stamp: string, i: nat, j: nat)
    requires QuestId(stamp, i) == QuestId(stamp, j)
    ensures i == j
  {
    var p := "q_" + stamp + "_";
    assert QuestId(stamp, i)[|p|..] == NatToString(i);
    assert QuestId(stamp, j)[|p|..] == NatToString(j);
    NatToStringInjective(i, j);
  }

  /** The first three of the shuffled templates, fresh and unclaimed. */
  function NewQuests(shuffled: seq<QuestTemplate>, stamp: string): (r: seq<DailyQuest>)
    ensures |r| == if |shuffled| < 3 then |shuffled| else 3
    ensures forall i :: 0 <= i < |r| ==>
      r[i] == DailyQuest(QuestId(stamp, i), shuffled[i].description, shuffled[i].target, 0, shuffled[i].reward, false, shuffled[i].kind)
  {
    var picked := if |shuffled| < 3 then shuffled else shuffled[..3];
    seq(|picked|, i requires 0 <= i < |picked| =>
      DailyQuest(QuestId(stamp, i), picked[i].description, picked[i].target, 0, picked[i].reward, false, picked[i].kind))
  }

  datatype LoginOutcome = LoginOutcome(user: UserState, showReward: bool)

  /** The login effect: on a new day the streak is updated, three new
      quests replace the old ones, and the reward dialog opens unless
      today's reward was claimed. */
  function Login(u: UserState, today: string, diffDays: int, shuffled: seq<QuestTemplate>, stamp: string): (r: LoginOutcome)
    ensures u.lastLoginDate == today ==> r == LoginOutcome(u, false)
    ensures u.lastLoginDate != today ==>
      r.user == u.(lastLoginDate := today, dailyQuests := NewQuests(shuffled, stamp),
                   loginStreak := NextStreak(u.loginStreak, diffDays))
      && (r.showReward <==> u.lastRewardClaimedDate != today)
  {
    if u.lastLoginDate != today then
      LoginOutcome(
        u.(lastLoginDate := today, dailyQuests := NewQuests(shuffled, stamp),
           loginStreak := NextStreak(u.loginStreak, diffDays)),
        u.lastRewardClaimedDate != today)
    else LoginOutcome(u, false)
  }

  /** With the templates shuffled, a new day brings three distinct, fresh
      quests with reachable targets. */
  lemma LoginQuests(u: UserState, today: string, diffDays: int, shuffled: seq<QuestTemplate>, stamp: string)
    requires multiset(shuffled) == multiset(DailyQuestTemplates) && u.lastLoginDate != today
    ensures var qs := Login(u, today, diffDays, shuffled, stamp).user.dailyQuests;
      |qs| == 3 && QuestsBounded(Login(u, today, diffDays, shuffled, stamp).user)
      && (forall i :: 0 <= i < 3 ==> !qs[i].isClaimed && qs[i].current == 0 && qs[i].target > 0)
      && (forall i, j :: 0 <= i < j < 3 ==> qs[i].id != qs[j].id)
  {
    var qs := Login(u, today, diffDays, shuffled, stamp).user.dailyQuests;
    assert |shuffled| == |DailyQuestTemplates| by {
      assert |multiset(shuffled)| == |multiset(DailyQuestTemplates)|;
    }
    QuestTemplatesPositive();
    forall i | 0 <= i < 3 ensures qs[i].target > 0 {
      assert shuffled[i] in multiset(DailyQuestTemplates);
    }
    forall i, j | 0 <= i < j < 3 ensures qs[i].id != qs[j].id {
      if qs[i].id == qs[j].id {
        QuestIdInjective(stamp, i, j);
      }
    }
  }

  // --- Daily reward -----------------------------------------------------

  /** JavaScript's `%` on integers: the remainder takes the dividend's sign. */
  function JsRem(a: int, b: int): (r: int)
    requires b > 0
    ensures a >= 0 ==> r == a % b
    ensures a < 0 ==> r == -((-a) % b)
  {
    if a >= 0 then a % b else -((-a) % b)
  }

  /** The day of the seven-day reward cycle, `(streak - 1) % 7 + 1`. */
  function DayCycle(streak: int): (r: int)
    ensures streak >= 1 ==> 1 <= r <= 7 && r - 1 == (streak - 1) % 7
    ensures -5 <= streak <= 0 ==> r == streak
  {
    JsRem(streak - 1, 7) + 1
  }

  /** The cycle repeats every week. */
  lemma DayCycleWeekly(streak: int)
    requires streak >= 1
    ensures DayCycle(streak + 7) == DayCycle(streak)
  {
  }

  /** `COLLECTIBLE_CARDS.find(c => c.type === 'STICKER' && !collected)`. */
  function FirstNewSticker(cards: seq<Card>, collected: seq<string>): (r: Option<Card>)
    ensures r.Some? ==> r.value in cards && r.value.kind == StickerKind && r.value.id !in collected
    ensures r.None? ==> forall c :: c in cards && c.kind == StickerKind ==> c.id in collected
  {
    if cards == [] then None
    else if cards[0].kind == StickerKind && cards[0].id !in collected then Some(cards[0])
    else FirstNewSticker(cards[1..], collected)
  }

  /** The emeralds of a cycle day: 20, 30, nothing, 40, 100, 50, and on the
      seventh day 150 when the magic wolf skin is already owned. */
  function EmeraldBonus(day: int, ownsMagic: bool): (r: nat)
    ensures day == 1 ==> r == 20
    ensures day == 2 ==> r == 30
    ensures day == 4 ==> r == 40
    ensures day == 5 ==> r == 100
    ensures day == 6 ==> r == 50
    ensures day == 7 ==> r == (if ownsMagic then 150 else 0)
    ensures day !in {1, 2, 4, 5, 6, 7} ==> r == 0
  {
    var emeraldBonus := if day == 1 then 20 else if day == 2 then 30 else if day == 4 then 40 else if day == 6 then 50 else 0;
    var afterItem := if day == 5 then 100 else emeraldBonus;
    if day == 7 && ownsMagic then 150 else afterItem
  }

  const MagicSkinId: string := "skin_wolf_magic"

  datatype RewardOutcome = RewardOutcome(user: UserState, droppedCard: Option<string>)

  /** `handleClaimDailyReward` over the card table `cards` (the game passes
      `CollectibleCards`) with `pick` the random card position: the third
      day gives a sticker not yet collected (or the card at `pick` when all
      are), the seventh the magic wolf skin when it is not owned, the other
      days emeralds; the claim date becomes today. */
  function ClaimDailyReward(u: UserState, today: string, cards: seq<Card>, pick: nat): (r: RewardOutcome)
    requires pick < |cards|
    ensures var day := DayCycle(u.loginStreak);
      r.user.emeralds == u.emeralds + EmeraldBonus(day, MagicSkinId in u.inventory)
      && r.user.lastRewardClaimedDate == today
      && (day == 3 <==> r.droppedCard.Some?)
      && r.user.collectedCards == u.collectedCards + (if day == 3 then [r.droppedCard.value] else [])
      && r.user.inventory == u.inventory + (if day == 7 && MagicSkinId !in u.inventory then [MagicSkinId] else [])
      && r.user == u.(emeralds := r.user.emeralds, lastRewardClaimedDate := today,
                      collectedCards := r.user.collectedCards, inventory := r.user.inventory)
    ensures DayCycle(u.loginStreak) == 3 ==>
      var s := FirstNewSticker(cards, u.collectedCards);
      r.droppedCard == Some(if s.Some? then s.value.id else cards[pick].id)
  {
    var day := DayCycle(u.loginStreak);
    var (withCard, dropped) :=
      if day == 3 then
        var s := FirstNewSticker(cards, u.collectedCards);
        var sticker := if s.Some? then s.value else cards[pick];
        (u.(collectedCards := u.collectedCards + [sticker.id]), Some(sticker.id))
      else (u, None);
    var withSkin :=
      if day == 7 && MagicSkinId !in u.inventory then withCard.(inventory := withCard.inventory + [MagicSkinId])
      else withCard;
    RewardOutcome(
      withSkin.(emeralds := withSkin.emeralds + EmeraldBonus(day, MagicSkinId in u.inventory),
                lastRewardClaimedDate := today),
      dropped)
  }

  /** The skin comes once: after a seventh-day claim that granted it, the
      next seventh day (a week later) pays 150 emeralds instead. */
  lemma SkinOnce(u: UserState, today: string, later: string, cards: seq<Card>, pick: nat)
    requires pick < |cards| && u.loginStreak >= 1 && DayCycle(u.loginStreak) == 7
    ensures var first := ClaimDailyReward(u, today, cards, pick).user;
      var second := ClaimDailyReward(first.(loginStreak := first.loginStreak + 7), later, cards, pick).user;
      MagicSkinId in first.inventory
      && second.emeralds == first.emeralds + 150 && second.inventory == first.inventory
  {
    var first := ClaimDailyReward(u, today, cards, pick).user;
    DayCycleWeekly(u.loginStreak);
    assert MagicSkinId in first.inventory;
  }

  /** While unclaimed stickers remain, every third day brings one of
      them, so the sticker never repeats. */
  lemma ThirdDaySticker(u: UserState, today: string, cards: seq<Card>, pick: nat)
    requires pick < |cards| && DayCycle(u.loginStreak) == 3
    requires exists c :: c in cards && c.kind == StickerKind && c.id !in u.collectedCards
    ensures var r := ClaimDailyReward(u, today, cards, pick);
      r.droppedCard.value !in u.collectedCards
      && exists c :: c in cards && c.kind == StickerKind && c.id == r.droppedCard.value
  {
  }

  /** A week of claims from the first day: 240 emeralds and the skin, or,
      with the skin already owned, 390 emeralds. */
  lemma WeekOfRewards(owns: bool)
    ensures EmeraldBonus(DayCycle(1), owns) + EmeraldBonus(DayCycle(2), owns) + EmeraldBonus(DayCycle(3), owns)
      + EmeraldBonus(DayCycle(4), owns) + EmeraldBonus(DayCycle(5), owns) + EmeraldBonus(DayCycle(6), owns)
      + EmeraldBonus(DayCycle(7), owns) == (if owns then 390 else 240)
  {
  }

  // --- Game completion --------------------------------------------------

  /** How many thresholds an amount of XP has reached. */
  function CountReached(th: seq<int>, xp: int): (r: nat)
    ensures r <= |th|
  {
    if th == [] then 0
    else CountReached(th[..|th| - 1], xp) + (if th[|th| - 1] <= xp then 1 else 0)
  }

  /** More XP never reaches fewer thresholds. */
  lemma {:induction false} CountReachedMonotone(th: seq<int>, xp: int, xp': int)
    requires xp <= xp'
    ensures CountReached(th, xp) <= CountReached(th, xp')
  {
    if th != [] {
      CountReachedMonotone(th[..|th| - 1], xp, xp');
    }
  }

  /** With increasing thresholds, reaching one means reaching all before it. */
  lemma {:induction false} CountReachedAll(th: seq<int>, xp: int)
    requires StrictlyIncreasing(th) && forall i :: 0 <= i < |th| ==> th[i] <= xp
    ensures CountReached(th, xp) == |th|
  {
    if th != [] {
      CountReachedAll(th[..|th| - 1], xp);
    }
  }

  /** The mascot level for an XP total: the number of thresholds reached,
      or the old level (at least 1) when none is. */
  function MascotLevelOf(prevLevel: int, mascotXp: int): (r: int)
  {
    var reached := CountReached(MascotThresholds, mascotXp);
    if reached == 0 then (if prevLevel != 0 then prevLevel else 1) else reached
  }

  /** For every XP total a profile can hold the mascot level is between 1
      and 5, and it never falls as XP grows. */
  lemma MascotLevelRange(prevLevel: int, prevLevel': int, xp: int, xp': int)
    requires 0 <= xp <= xp'
    ensures 1 <= MascotLevelOf(prevLevel, xp) <= 5
    ensures MascotLevelOf(prevLevel, xp) <= MascotLevelOf(prevLevel', xp')
  {
    assert MascotThresholds[..1] == [0];
    MascotReachedPositive(xp);
    MascotReachedPositive(xp');
    CountReachedMonotone(MascotThresholds, xp, xp');
  }

  lemma MascotReachedPositive(xp: int)
    requires xp >= 0
    ensures CountReached(MascotThresholds, xp) >= 1
  {
    CountReachedMonotone(MascotThresholds[..1], 0, xp);
    CountReachedPrefix(MascotThresholds, 1, xp);
    assert CountReached(MascotThresholds[..1], 0) == 1 by {
      assert MascotThresholds[..1] == [0];
      assert MascotThresholds[..1][..0] == [];
    }
  }

  /** A prefix reaches no more thresholds than the whole ladder. */
  lemma {:induction false} CountReachedPrefix(th: seq<int>, k: nat, xp: int)
    requires k <= |th|
    ensures CountReached(th[..k], xp) <= CountReached(th, xp)
    decreases |th|
  {
    if k < |th| {
      assert th[..k] == th[..|th| - 1][..k];
      CountReachedPrefix(th[..|th| - 1], k, xp);
    } else {
      assert th[..k] == th;
    }
  }

  /** The threshold loop of `handleGameComplete`. */
  method MascotLevel(prevLevel: int, mascotXp: int) returns (level: int)
    ensures level == MascotLevelOf(prevLevel, mascotXp)
  {
    ThresholdsIncreasing();
    level := if prevLevel != 0 then prevLevel else 1;
    var i := 0;
    while i < |MascotThresholds|
      invariant 0 <= i <= |MascotThresholds|
      invariant CountReached(MascotThresholds[..i], mascotXp) == 0 ==> level == (if prevLevel != 0 then prevLevel else 1)
      invariant CountReached(MascotThresholds[..i], mascotXp) != 0 ==> level == CountReached(MascotThresholds[..i], mascotXp)
    {
      assert MascotThresholds[..i + 1][..i] == MascotThresholds[..i];
      if mascotXp >= MascotThresholds[i] {
        CountReachedAll(MascotThresholds[..i + 1], mascotXp);
        level := i + 1;
      }
      i := i + 1;
    }
    assert MascotThresholds[..i] == MascotThresholds;
  }

  /** Where `x` first occurs in `s`. */
  function FirstIndex(s: seq<string>, x: string): (k: nat)
    requires x in s
    ensures k < |s| && s[k] == x && x !in s[..k]
  {
    if s[0] == x then 0
    else
      var k := 1 + FirstIndex(s[1..], x);
      assert s[..k] == [s[0]] + s[1..][..k - 1];
      k
  }

  lemma FirstIndexAt(s: seq<string>, x: string, k: nat)
    requires k < |s| && s[k] == x && x !in s[..k]
    ensures FirstIndex(s, x) == k
  {
    var f := FirstIndex(s, x);
    assert forall i :: 0 <= i < k ==> s[..k][i] != x;
  }

  /** Dropping the last element moves no first occurrence of the rest. */
  lemma FirstIndexInit(s: seq<string>)
    requires s != []
    ensures forall x :: x in s[..|s| - 1] ==> FirstIndex(s, x) == FirstIndex(s[..|s| - 1], x)
  {
    var p := s[..|s| - 1];
    forall x | x in p
      ensures FirstIndex(s, x) == FirstIndex(p, x)
    {
      var k := FirstIndex(p, x);
      assert s[..k] == p[..k];
      FirstIndexAt(s, x, k);
    }
  }

  /** `Array.from(new Set(list))`: the first occurrence of every element,
      in order. */
  function Dedup(s: seq<string>): (r: seq<string>)
    ensures forall x :: x in r <==> x in s
    ensures Distinct(r)
    ensures |r| <= |s|
    ensures forall i, j :: 0 <= i < j < |r| ==> FirstIndex(s, r[i]) < FirstIndex(s, r[j])
  {
    if s == [] then []
    else
      var p := s[..|s| - 1];
      var rest := Dedup(p);
      FirstIndexInit(s);
      if s[|s| - 1] in rest then rest
      else
        FirstIndexAt(s, s[|s| - 1], |s| - 1);
        rest + [s[|s| - 1]]
  }

  predicate Distinct(s: seq<string>) {
    forall i, j :: 0 <= i < j < |s| ==> s[i] != s[j]
  }

  /** A list without repeats is its own set: merging keeps it as the
      prefix, in its order. */
  lemma {:induction false} DedupKeepsPrefix(a: seq<string>, b: seq<string>)
    requires Distinct(a)
    ensures |Dedup(a + b)| >= |a| && Dedup(a + b)[..|a|] == a
    decreases |b|
  {
    if b == [] {
      assert a + b == a;
      DedupDistinct(a);
    } else {
      var s := a + b;
      assert s[..|s| - 1] == a + b[..|b| - 1];
      DedupKeepsPrefix(a, b[..|b| - 1]);
    }
  }

  lemma {:induction false} DedupDistinct(a: seq<string>)
    requires Distinct(a)
    ensures Dedup(a) == a
  {
    if a != [] {
      DedupDistinct(a[..|a| - 1]);
      assert a[|a| - 1] !in a[..|a| - 1];
      assert a[..|a| - 1] + [a[|a| - 1]] == a;
    }
  }

  predicate IsMiniGame(id: string) {
    exists j :: 0 <= j < |MiniGames| && MiniGames[j].id == id
  }

  /** The profile after `handleGameComplete` for the module in play. */
  function GameCompleted(u: UserState, xpEarned: int, emeraldsEarned: int, learnedWords: seq<string>,
                         droppedCard: Option<string>, newStats: Option<AdaptiveStats>,
                         active: Option<BiomeModule>): (r: UserState)
    ensures r.xp == u.xp + xpEarned && r.emeralds == u.emeralds + emeraldsEarned
    ensures forall w :: w in r.learnedWords <==> w in u.learnedWords || w in learnedWords
    ensures Distinct(r.learnedWords)
    ensures r.collectedCards == u.collectedCards + (if Truthy(droppedCard) then [droppedCard.value] else [])
    ensures r.mascotXp == u.mascotXp + xpEarned && r.mascotLevel == MascotLevelOf(u.mascotLevel, r.mascotXp)
    ensures active.Some? && !IsMiniGame(active.value.id) ==>
      Distinct(r.completedModules)
      && forall m :: m in r.completedModules <==> m in u.completedModules || m == active.value.id
    ensures !(active.Some? && !IsMiniGame(active.value.id)) ==> r.completedModules == u.completedModules
    ensures r.adaptiveStats == (if newStats.Some? then newStats.value else u.adaptiveStats)
    ensures r == u.(xp := r.xp, emeralds := r.emeralds, learnedWords := r.learnedWords,
                    collectedCards := r.collectedCards, mascotXp := r.mascotXp, mascotLevel := r.mascotLevel,
                    completedModules := r.completedModules, adaptiveStats := r.adaptiveStats)
  {
    WithGameResult(u, xpEarned, emeraldsEarned, learnedWords, droppedCard, newStats, active,
                   MascotLevelOf(u.mascotLevel, u.mascotXp + xpEarned))
  }

  /** The record `handleGameComplete` returns, given the mascot level its
      threshold loop computed. */
  function WithGameResult(u: UserState, xpEarned: int, emeraldsEarned: int, learnedWords: seq<string>,
                          droppedCard: Option<string>, newStats: Option<AdaptiveStats>,
                          active: Option<BiomeModule>, newMascotLevel: int): UserState
  {
    u.(xp := u.xp + xpEarned,
       emeralds := u.emeralds + emeraldsEarned,
       learnedWords := Dedup(u.learnedWords + learnedWords),
       collectedCards := if Truthy(droppedCard) then u.collectedCards + [droppedCard.value] else u.collectedCards,
       mascotXp := u.mascotXp + xpEarned,
       mascotLevel := newMascotLevel,
       completedModules := if active.Some? && !IsMiniGame(active.value.id)
                           then Dedup(u.completedModules + [active.value.id]) else u.completedModules,
       adaptiveStats := if newStats.Some? then newStats.value else u.adaptiveStats)
  }

  /** `handleGameComplete`: the threshold loop, then the new record. */
  method HandleGameComplete(u: UserState, xpEarned: int, emeraldsEarned: int, learnedWords: seq<string>,
                            droppedCard: Option<string>, newStats: Option<AdaptiveStats>,
                            active: Option<BiomeModule>) returns (r: UserState)
    ensures r == GameCompleted(u, xpEarned, emeraldsEarned, learnedWords, droppedCard, newStats, active)
  {
    var newMascotXp := u.mascotXp + xpEarned;
    var newMascotLevel := MascotLevel(u.mascotLevel, newMascotXp);
    r := WithGameResult(u, xpEarned, emeraldsEarned, learnedWords, droppedCard, newStats, active, newMascotLevel);
  }

  /** Words already learned keep their places; new ones follow. */
  lemma LearnedWordsKept(u: UserState, xpEarned: int, emeraldsEarned: int, learnedWords: seq<string>,
                         droppedCard: Option<string>, newStats: Option<AdaptiveStats>, active: Option<BiomeModule>)
    requires Distinct(u.learnedWords)
    ensures var r := GameCompleted(u, xpEarned, emeraldsEarned, learnedWords, droppedCard, newStats, active);
      |r.learnedWords| >= |u.learnedWords| && r.learnedWords[..|u.learnedWords|] == u.learnedWords
  {
    DedupKeepsPrefix(u.learnedWords, learnedWords);
  }

  // --- Module lock ------------------------------------------------------

  /** `BIOMES.findIndex(b => b.id === id)`. */
  function FindModule(modules: seq<BiomeModule>, id: string): (r: int)
    ensures -1 <= r < |modules|
    ensures r >= 0 ==> modules[r].id == id && forall j :: 0 <= j < r ==> modules[j].id != id
    ensures r == -1 ==> forall j :: 0 <= j < |modules| ==> modules[j].id != id
  {
    if modules == [] then -1
    else if modules[0].id == id then 0
    else
      var k := FindModule(modules[1..], id);
      if k == -1 then -1 else k + 1
  }

  /** `handleStartGame`: a biome after the first is locked until the one
      before it is completed; the boss and the mini-games are never
      refused. */
  function CanStart(u: UserState, biome: BiomeModule): (r: bool)
    ensures var index := FindModule(Biomes, biome.id);
      !r <==> index > 0 && Biomes[index - 1].id !in u.completedModules
              && biome.kind != Boss && !IsMiniGame(biome.id)
  {
    var index := FindModule(Biomes, biome.id);
    var isLocked := index > 0 && Biomes[index - 1].id !in u.completedModules;
    !(isLocked && biome.kind != Boss && !IsMiniGame(biome.id))
  }

  /** In a list of distinct ids, the i-th module is found at i. */
  lemma FindDistinct(modules: seq<BiomeModule>, i: nat)
    requires i < |modules| && forall a, b :: 0 <= a < b < |modules| ==> modules[a].id != modules[b].id
    ensures FindModule(modules, modules[i].id) == i
  {
  }

  /** The first biome, the boss and the mini-game can always be started;
      biome `i > 0` exactly when biome `i - 1` is completed. */
  lemma StartRules(u: UserState, i: nat)
    requires 0 < i < |Biomes|
    ensures CanStart(u, Biomes[0]) && CanStart(u, BossBiome) && CanStart(u, MiniGames[0])
    ensures CanStart(u, Biomes[i]) <==> Biomes[i - 1].id in u.completedModules
  {
    ModuleIdsDistinct();
    FindDistinct(Biomes, 0);
    FindDistinct(Biomes, i);
    assert IsMiniGame(MiniGames[0].id);
    assert Biomes[i].kind != Boss;
    assert !IsMiniGame(Biomes[i].id);
  }

  /** Completing a biome unlocks the next one. */
  lemma CompletionUnlocksNext(u: UserState, i: nat, xpEarned: int, emeraldsEarned: int, learnedWords: seq<string>,
                              droppedCard: Option<string>, newStats: Option<AdaptiveStats>)
    requires i + 1 < |Biomes|
    ensures CanStart(GameCompleted(u, xpEarned, emeraldsEarned, learnedWords, droppedCard, newStats, Some(Biomes[i])), Biomes[i + 1])
  {
    ModuleIdsDistinct();
    assert !IsMiniGame(Biomes[i].id);
    var r := GameCompleted(u, xpEarned, emeraldsEarned, learnedWords, droppedCard, newStats, Some(Biomes[i]));
    assert Biomes[i].id in r.completedModules;
    StartRules(r, i + 1);
  }

  // --- Achievements -----------------------------------------------------

  /** The ids of the achievements the profile has earned and does not yet
      hold, in table order. */
  function NewAchievements(achs: seq<Achievement>, u: UserState): (r: seq<string>)
    ensures forall x :: x in r <==> exists i :: 0 <= i < |achs| && achs[i].id == x && x !in u.achievements && achs[i].condition(u)
    ensures r == [] <==> forall i :: 0 <= i < |achs| ==> achs[i].id in u.achievements || !achs[i].condition(u)
  {
    if achs == [] then []
    else
      (if achs[0].id !in u.achievements && achs[0].condition(u) then [achs[0].id] else [])
      + NewAchievements(achs[1..], u)
  }

  /** The achievement effect: every newly earned achievement is unlocked. */
  function CheckAchievements(u: UserState): (r: UserState)
    ensures r == u.(achievements := u.achievements + NewAchievements(Achievements, u))
  {
    u.(achievements := u.achievements + NewAchievements(Achievements, u))
  }

  /** No condition of the table looks at the achievements already held. */
  predicate IgnoresHeld(achs: seq<Achievement>, u: UserState, held: seq<string>) {
    forall i :: 0 <= i < |achs| ==> achs[i].condition(u.(achievements := held)) == achs[i].condition(u)
  }

  lemma ConditionsIgnoreAchievements(u: UserState, held: seq<string>)
    ensures IgnoresHeld(Achievements, u, held)
  {
  }

  /** Unlocking what a table of such conditions grants leaves nothing more
      to unlock. */
  lemma NothingLeftToUnlock(achs: seq<Achievement>, u: UserState)
    requires IgnoresHeld(achs, u, u.achievements + NewAchievements(achs, u))
    ensures NewAchievements(achs, u.(achievements := u.achievements + NewAchievements(achs, u))) == []
  {
    var r := u.(achievements := u.achievements + NewAchievements(achs, u));
    forall i | 0 <= i < |achs| && achs[i].condition(r)
      ensures achs[i].id in r.achievements
    {
      assert achs[i].condition(u);
      if achs[i].id !in u.achievements {
        assert achs[i].id in NewAchievements(achs, u);
      }
    }
  }

  /** The effect settles after one run: running it again unlocks nothing. */
  lemma AchievementsSettle(u: UserState)
    ensures CheckAchievements(CheckAchievements(u)) == CheckAchievements(u)
  {
    var r := CheckAchievements(u);
    ConditionsIgnoreAchievements(u, r.achievements);
    NothingLeftToUnlock(Achievements, u);
    assert r.achievements + [] == r.achievements;
  }
}
