// The content provider (geminiService.ts): challenge lists come from a
// generative model, memoised per module type and level, upper-cased field
// by field, and replaced by the static fallback tables whenever there is no
// API key, no prompt for the type, an empty answer or an error. The model
// call itself is an outcome passed in by the caller.

module ContentProvider {
  import opened Types
  import opened Chars
  import opened Constants

  // --- enforceUppercase -----------------------------------------------------

  /** `if (x) x = x.toUpperCase()`: a present, non-empty text is upper-cased,
      anything else is left as it is. */
  function UpperIfSet(s: Option<string>): (r: Option<string>)
    ensures Truthy(s) ==> r == Some(Upper(s.value))
    ensures !Truthy(s) ==> r == s
  {
    if Truthy(s) then Some(Upper(s.value)) else s
  }

  /** `x ? x.toUpperCase() : undefined`, as for option labels and texts. */
  function UpperOrUndefined(s: Option<string>): (r: Option<string>)
    ensures Truthy(s) ==> r == Some(Upper(s.value))
    ensures !Truthy(s) ==> r == None
  {
    if Truthy(s) then Some(Upper(s.value)) else None
  }

  /** `x ? x.toUpperCase() : ''`, as for hidden words, pages and quiz options. */
  function UpperOrEmpty(s: Option<string>): (r: Option<string>)
    ensures Truthy(s) ==> r == Some(Upper(s.value))
    ensures !Truthy(s) ==> r == Some("")
  {
    if Truthy(s) then Some(Upper(s.value)) else Some("")
  }

  function UpperList(s: Option<seq<string>>): (r: Option<seq<string>>)
    ensures r.Some? <==> s.Some?
    ensures s.Some? ==> |r.value| == |s.value| && forall i :: 0 <= i < |s.value| ==> r.value[i] == Upper(s.value[i])
  {
    if s.Some? then Some(seq(|s.value|, i requires 0 <= i < |s.value| => Upper(s.value[i]))) else None
  }

  function UpperOptions(opts: seq<ChoiceOption>): (r: seq<ChoiceOption>)
    ensures |r| == |opts|
    ensures forall i :: 0 <= i < |opts| ==>
      r[i] == opts[i].(labelText := UpperOrUndefined(opts[i].labelText), text := UpperOrUndefined(opts[i].text))
  {
    seq(|opts|, i requires 0 <= i < |opts| =>
      opts[i].(labelText := UpperOrUndefined(opts[i].labelText), text := UpperOrUndefined(opts[i].text)))
  }

  function UpperHiddenWords(ws: seq<HiddenWord>): (r: seq<HiddenWord>)
    ensures |r| == |ws|
    ensures forall i :: 0 <= i < |ws| ==> r[i] == ws[i].(word := UpperOrEmpty(ws[i].word))
  {
    seq(|ws|, i requires 0 <= i < |ws| => ws[i].(word := UpperOrEmpty(ws[i].word)))
  }

  function UpperPages(ps: seq<StoryPage>): (r: seq<StoryPage>)
    ensures |r| == |ps|
    ensures forall i :: 0 <= i < |ps| ==> r[i] == ps[i].(text := UpperOrEmpty(ps[i].text))
  {
    seq(|ps|, i requires 0 <= i < |ps| => ps[i].(text := UpperOrEmpty(ps[i].text)))
  }

  function UpperQuizOptions(os: seq<QuizOption>): (r: seq<QuizOption>)
    ensures |r| == |os|
    ensures forall i :: 0 <= i < |os| ==> r[i] == os[i].(text := UpperOrEmpty(os[i].text))
  {
    seq(|os|, i requires 0 <= i < |os| => os[i].(text := UpperOrEmpty(os[i].text)))
  }

  /** The quiz: only when it has a non-empty question are the question and
      its option texts upper-cased. */
  function UpperQuiz(q: Option<Quiz>): (r: Option<Quiz>)
    ensures r.Some? <==> q.Some?
    ensures q.Some? && !Truthy(q.value.question) ==> r == q
  {
    if q.Some? && Truthy(q.value.question) then
      Some(Quiz(Some(Upper(q.value.question.value)),
        if q.value.options.Some? then Some(UpperQuizOptions(q.value.options.value)) else None))
    else q
  }

  /** One item of `enforceUppercase`. */
  function UpperItem(item: Item): (r: Item)
    ensures r.id == item.id && r.emoji == item.emoji && r.pairs == item.pairs && r.stages == item.stages
    ensures r.syllables.Some? <==> item.syllables.Some?
    ensures r.options.Some? <==> item.options.Some?
  {
    item.(
      word := UpperIfSet(item.word),
      fullText := UpperIfSet(item.fullText),
      sentence := UpperIfSet(item.sentence),
      targetWord := UpperIfSet(item.targetWord),
      title := UpperIfSet(item.title),
      syllables := UpperList(item.syllables),
      distractors := UpperList(item.distractors),
      chunks := UpperList(item.chunks),
      options := OptionsOf(item.options),
      hiddenWords := HiddenWordsOf(item.hiddenWords),
      pages := PagesOf(item.pages),
      quiz := UpperQuiz(item.quiz))
  }

  /** `enforceUppercase`: the items in order, each upper-cased. */
  function EnforceUppercase(data: seq<Item>): (r: seq<Item>)
    ensures |r| == |data|
    ensures forall i :: 0 <= i < |data| ==> r[i] == UpperItem(data[i])
  {
    seq(|data|, i requires 0 <= i < |data| => UpperItem(data[i]))
  }

  // --- What the upper-casing guarantees --------------------------------------

  predicate UpperText(s: Option<string>) {
    s.Some? ==> IsUpperText(s.value)
  }

  /** A text `enforceUppercase` leaves alone whichever rule it applies:
      absent, or present, non-empty and upper-case. */
  predicate SettledText(s: Option<string>) {
    s.Some? ==> s.value != "" && IsUpperText(s.value)
  }

  predicate UpperTexts(s: Option<seq<string>>) {
    s.Some? ==> forall i :: 0 <= i < |s.value| ==> IsUpperText(s.value[i])
  }

  predicate SettledOptions(o: Option<seq<ChoiceOption>>) {
    o.Some? ==> forall i :: 0 <= i < |o.value| ==> SettledText(o.value[i].labelText) && SettledText(o.value[i].text)
  }

  predicate SettledHiddenWords(w: Option<seq<HiddenWord>>) {
    w.Some? ==> forall i :: 0 <= i < |w.value| ==> w.value[i].word.Some? && UpperText(w.value[i].word)
  }

  predicate SettledPages(p: Option<seq<StoryPage>>) {
    p.Some? ==> forall i :: 0 <= i < |p.value| ==> p.value[i].text.Some? && UpperText(p.value[i].text)
  }

  predicate SettledQuiz(q: Option<Quiz>) {
    q.Some? && Truthy(q.value.question) ==>
      IsUpperText(q.value.question.value)
      && (q.value.options.Some? ==> forall i :: 0 <= i < |q.value.options.value| ==>
            q.value.options.value[i].text.Some? && UpperText(q.value.options.value[i].text))
  }

  /** An item in the shape `enforceUppercase` produces: every text it
      handles is upper-case, option labels and texts are absent or
      non-empty, and hidden words, pages and (under a question) quiz
      options carry a text. */
  predicate Settled(item: Item) {
    UpperText(item.word) && UpperText(item.fullText) && UpperText(item.sentence)
    && UpperText(item.targetWord) && UpperText(item.title)
    && UpperTexts(item.syllables) && UpperTexts(item.distractors) && UpperTexts(item.chunks)
    && SettledOptions(item.options) && SettledHiddenWords(item.hiddenWords)
    && SettledPages(item.pages) && SettledQuiz(item.quiz)
  }

  lemma UpperTextOf(s: string)
    ensures IsUpperText(Upper(s)) && Upper(Upper(s)) == Upper(s)
  {
    UpperIsUpperText(s);
  }

  lemma UpperIfSetSettles(s: Option<string>)
    ensures UpperText(UpperIfSet(s)) && SettledText(UpperOrUndefined(s))
    ensures UpperOrEmpty(s).Some? && UpperText(UpperOrEmpty(s))
  {
    if Truthy(s) { UpperTextOf(s.value); }
  }

  lemma SettledTextFixed(s: Option<string>)
    requires UpperText(s)
    ensures UpperIfSet(s) == s
    ensures SettledText(s) ==> UpperOrUndefined(s) == s
    ensures s.Some? ==> UpperOrEmpty(s) == s
  {
    if s.Some? { UpperOfUpperText(s.value); }
  }

  lemma UpperListSettles(s: Option<seq<string>>)
    ensures UpperTexts(UpperList(s))
    ensures UpperTexts(s) ==> UpperList(s) == s
  {
    if s.Some? {
      forall i | 0 <= i < |s.value| ensures IsUpperText(UpperList(s).value[i]) {
        UpperTextOf(s.value[i]);
      }
      if UpperTexts(s) {
        forall i | 0 <= i < |s.value| ensures Upper(s.value[i]) == s.value[i] {
          UpperOfUpperText(s.value[i]);
        }
        assert UpperList(s).value == s.value;
      }
    }
  }

  function OptionsOf(o: Option<seq<ChoiceOption>>): Option<seq<ChoiceOption>> {
    if o.Some? then Some(UpperOptions(o.value)) else None
  }

  function HiddenWordsOf(w: Option<seq<HiddenWord>>): Option<seq<HiddenWord>> {
    if w.Some? then Some(UpperHiddenWords(w.value)) else None
  }

  function PagesOf(p: Option<seq<StoryPage>>): Option<seq<StoryPage>> {
    if p.Some? then Some(UpperPages(p.value)) else None
  }

  lemma UpperOptionsSettles(o: Option<seq<ChoiceOption>>)
    ensures SettledOptions(OptionsOf(o))
    ensures SettledOptions(o) ==> OptionsOf(o) == o
  {
    if o.Some? {
      var v := o.value;
      forall i | 0 <= i < |v|
        ensures SettledText(UpperOrUndefined(v[i].labelText)) && SettledText(UpperOrUndefined(v[i].text))
      {
        UpperIfSetSettles(v[i].labelText);
        UpperIfSetSettles(v[i].text);
      }
      if SettledOptions(o) {
        forall i | 0 <= i < |v| ensures UpperOptions(v)[i] == v[i] {
          SettledTextFixed(v[i].labelText);
          SettledTextFixed(v[i].text);
        }
        assert UpperOptions(v) == v;
      }
    }
  }

  lemma UpperHiddenWordsSettles(w: Option<seq<HiddenWord>>)
    ensures SettledHiddenWords(HiddenWordsOf(w))
    ensures SettledHiddenWords(w) ==> HiddenWordsOf(w) == w
  {
    if w.Some? {
      var v := w.value;
      forall i | 0 <= i < |v| ensures UpperOrEmpty(v[i].word).Some? && UpperText(UpperOrEmpty(v[i].word)) {
        UpperIfSetSettles(v[i].word);
      }
      if SettledHiddenWords(w) {
        forall i | 0 <= i < |v| ensures UpperHiddenWords(v)[i] == v[i] {
          SettledTextFixed(v[i].word);
        }
        assert UpperHiddenWords(v) == v;
      }
    }
  }

  lemma UpperPagesSettles(p: Option<seq<StoryPage>>)
    ensures SettledPages(PagesOf(p))
    ensures SettledPages(p) ==> PagesOf(p) == p
  {
    if p.Some? {
      var v := p.value;
      forall i | 0 <= i < |v| ensures UpperOrEmpty(v[i].text).Some? && UpperText(UpperOrEmpty(v[i].text)) {
        UpperIfSetSettles(v[i].text);
      }
      if SettledPages(p) {
        forall i | 0 <= i < |v| ensures UpperPages(v)[i] == v[i] {
          SettledTextFixed(v[i].text);
        }
        assert UpperPages(v) == v;
      }
    }
  }

  lemma UpperQuizSettles(q: Option<Quiz>)
    ensures SettledQuiz(UpperQuiz(q))
    ensures SettledQuiz(q) ==> UpperQuiz(q) == q
  {
    if q.Some? && Truthy(q.value.question) {
      var s := q.value.question.value;
      UpperTextOf(s);
      assert UpperQuiz(q).value.question == Some(Upper(s));
      if q.value.options.Some? {
        var v := q.value.options.value;
        forall i | 0 <= i < |v| ensures UpperOrEmpty(v[i].text).Some? && UpperText(UpperOrEmpty(v[i].text)) {
          UpperIfSetSettles(v[i].text);
        }
        if SettledQuiz(q) {
          forall i | 0 <= i < |v| ensures UpperQuizOptions(v)[i] == v[i] {
            SettledTextFixed(v[i].text);
          }
          assert UpperQuizOptions(v) == v;
        }
      }
      if SettledQuiz(q) {
        UpperOfUpperText(s);
      }
    }
  }

  /** Upper-casing an item gives a settled item, and a settled item is left
      exactly as it is. */
  lemma UpperItemSettles(item: Item)
    ensures Settled(UpperItem(item))
    ensures Settled(item) ==> UpperItem(item) == item
  {
    UpperIfSetSettles(item.word);
    UpperIfSetSettles(item.fullText);
    UpperIfSetSettles(item.sentence);
    UpperIfSetSettles(item.targetWord);
    UpperIfSetSettles(item.title);
    UpperListSettles(item.syllables);
    UpperListSettles(item.distractors);
    UpperListSettles(item.chunks);
    UpperOptionsSettles(item.options);
    UpperHiddenWordsSettles(item.hiddenWords);
    UpperPagesSettles(item.pages);
    UpperQuizSettles(item.quiz);
    if Settled(item) {
      SettledTextFixed(item.word);
      SettledTextFixed(item.fullText);
      SettledTextFixed(item.sentence);
      SettledTextFixed(item.targetWord);
      SettledTextFixed(item.title);
    }
  }

  /** Every item `enforceUppercase` returns has all its handled texts in
      upper case. */
  lemma EnforceUppercaseIsUpper(data: seq<Item>)
    ensures forall i :: 0 <= i < |data| ==> Settled(EnforceUppercase(data)[i])
  {
    forall i | 0 <= i < |data| ensures Settled(EnforceUppercase(data)[i]) {
      UpperItemSettles(data[i]);
    }
  }

  /** `enforceUppercase` is idempotent. */
  lemma EnforceUppercaseIdempotent(data: seq<Item>)
    ensures EnforceUppercase(EnforceUppercase(data)) == EnforceUppercase(data)
  {
    var once := EnforceUppercase(data);
    forall i | 0 <= i < |data| ensures UpperItem(once[i]) == once[i] {
      UpperItemSettles(data[i]);
      UpperItemSettles(once[i]);
    }
  }

  // --- getFallbackData ---------------------------------------------------------

  /** The static table for each type with one; none for BOSS and MEMORY. */
  function GetFallbackData(t: ModuleType): (r: seq<Item>)
    ensures r == [] <==> t == Boss || t == Memory
    ensures t == Letters ==> r == FallbackLetters
    ensures t == Syllables ==> r == FallbackSyllables
    ensures t == Fluency ==> r == FallbackFluency
    ensures t == Comprehension ==> r == FallbackComprehension
    ensures t == Creeper ==> r == FallbackCreeper
    ensures t == Story ==> r == FallbackStories
    ensures t == Flashlight ==> r == FallbackFlashlight
  {
    match t
    case Letters => FallbackLetters
    case Syllables => FallbackSyllables
    case Fluency => FallbackFluency
    case Comprehension => FallbackComprehension
    case Creeper => FallbackCreeper
    case Story => FallbackStories
    case Flashlight => FallbackFlashlight
    case _ => []
  }

  /** All fallback content is already in the shape `enforceUppercase`
      gives, so upper-casing it changes nothing. */
  lemma FallbackSettled(t: ModuleType)
    ensures EnforceUppercase(GetFallbackData(t)) == GetFallbackData(t)
  {
    var d := GetFallbackData(t);
    FallbackTablesSettled(t);
    forall i | 0 <= i < |d| ensures UpperItem(d[i]) == d[i] {
      UpperItemSettles(d[i]);
    }
  }

  lemma FallbackTablesSettled(t: ModuleType)
    ensures forall i :: 0 <= i < |GetFallbackData(t)| ==> Settled(GetFallbackData(t)[i])
  {
    match t
    case Letters => SettledLetters();
    case Syllables => SettledSyllables();
    case Fluency => SettledFluency();
    case Comprehension => SettledComprehension();
    case Creeper => SettledCreeper();
    case Story => SettledStories();
    case Flashlight =>
    case _ =>
  }

  lemma SettledLetters()
    ensures forall i :: 0 <= i < |FallbackLetters| ==> Settled(FallbackLetters[i])
  {
  }

  lemma SettledSyllables()
    ensures forall i :: 0 <= i < |FallbackSyllables| ==> Settled(FallbackSyllables[i])
  {
  }

  lemma SettledFluency()
    ensures forall i :: 0 <= i < |FallbackFluency| ==> Settled(FallbackFluency[i])
  {
  }

  lemma SettledComprehension()
    ensures forall i :: 0 <= i < |FallbackComprehension| ==> Settled(FallbackComprehension[i])
  {
  }

  lemma SettledCreeper()
    ensures forall i :: 0 <= i < |FallbackCreeper| ==> Settled(FallbackCreeper[i])
  {
  }

  lemma SettledStories()
    ensures forall i :: 0 <= i < |FallbackStories| ==> Settled(FallbackStories[i])
  {
    var story := FallbackStories[0];
    StoryOpeningUpper();
    StoryEndingUpper();
    StoryQuizUpper();
    assert SettledPages(story.pages);
    assert SettledQuiz(story.quiz);
  }

  lemma StoryOpeningUpper()
    ensures IsUpperText("O PORQUINHO SAIU DE CASA.") && IsUpperText("ELE VIU UMA MAÇÃ NO CHÃO.")
  {
  }

  lemma StoryEndingUpper()
    ensures IsUpperText("NHAC! ELE COMEU TUDO.") && IsUpperText("AGORA ELE ESTÁ FELIZ.")
  {
  }

  lemma StoryQuizUpper()
    ensures IsUpperText("O PORQUINHO") && IsUpperText("O QUE O PORQUINHO COMEU?")
    ensures IsUpperText("UMA MAÇÃ") && IsUpperText("UMA BANANA")
  {
  }

  /** The module types the generator has a prompt for. */
  predicate HasPrompt(t: ModuleType) {
    t != Boss && t != Memory
  }

  /** The cache key `${moduleType}_${level}`. */
  function CacheKey(t: ModuleType, level: nat): string {
    ModuleName(t) + "_" + NatToString(level)
  }

  lemma ModuleNameInjective(s: ModuleType, t: ModuleType)
    requires ModuleName(s) == ModuleName(t)
    ensures s == t
  {
  }

  /** Joining with a separator that the left parts never contain can be
      undone. */
  lemma JoinedAtSeparator(a: string, x: string, b: string, y: string, sep: char)
    requires sep !in a && sep !in b
    requires a + [sep] + x == b + [sep] + y
    ensures a == b && x == y
  {
    var k := a + [sep] + x;
    assert k[|a|] == sep && k[|b|] == sep;
    assert forall i :: 0 <= i < |a| ==> k[i] == a[i] != sep;
    assert forall i :: 0 <= i < |b| ==> k[i] == b[i] != sep;
    assert |a| == |b|;
    assert a == k[..|a|] == b;
    assert x == k[|a| + 1..] == y;
  }

  /** Different type/level pairs never share a cache entry. */
  lemma CacheKeyInjective(s: ModuleType, m: nat, t: ModuleType, n: nat)
    requires CacheKey(s, m) == CacheKey(t, n)
    ensures s == t && m == n
  {
    JoinedAtSeparator(ModuleName(s), NatToString(m), ModuleName(t), NatToString(n), '_');
    ModuleNameInjective(s, t);
    NatToStringInjective(m, n);
  }

  // --- generateGameContent -------------------------------------------------------

  /** What the generative call gave: parsed items, an empty text, or a thrown
      error (including a parse failure). */
  datatype GenOutcome = Parsed(items: seq<Item>) | EmptyText | Failed

  /** The module-level cache and the configured key. */
  class Provider {
    const apiKey: string
    var contentCache: map<string, seq<Item>>
    /** Calls made to the generative model so far. */
    var requests: nat

    constructor(apiKey: string)
      ensures this.apiKey == apiKey && contentCache == map[] && requests == 0
    {
      this.apiKey := apiKey;
      contentCache := map[];
      requests := 0;
    }

    method GenerateGameContent(moduleType: ModuleType, level: nat, outcome: GenOutcome) returns (data: seq<Item>)
      modifies this
      ensures apiKey == "" ==> data == GetFallbackData(moduleType)
      ensures apiKey != "" && CacheKey(moduleType, level) in old(contentCache) ==>
        data == old(contentCache)[CacheKey(moduleType, level)]
      ensures apiKey != "" && CacheKey(moduleType, level) !in old(contentCache) && !HasPrompt(moduleType) ==>
        data == GetFallbackData(moduleType)
      ensures CacheKey(moduleType, level) !in old(contentCache) && apiKey != "" && HasPrompt(moduleType) ==>
        requests == old(requests) + 1
        && match outcome
          case Parsed(items) => data == EnforceUppercase(items) && contentCache == old(contentCache)[CacheKey(moduleType, level) := data]
          case _ => data == GetFallbackData(moduleType) && contentCache == old(contentCache)
      ensures !(CacheKey(moduleType, level) !in old(contentCache) && apiKey != "" && HasPrompt(moduleType)) ==>
        requests == old(requests) && contentCache == old(contentCache)
    {
      if apiKey == "" {
        return GetFallbackData(moduleType);
      }
      var cacheKey := CacheKey(moduleType, level);
      if cacheKey in contentCache {
        return contentCache[cacheKey];
      }
      if !HasPrompt(moduleType) {
        return GetFallbackData(moduleType);
      }
      requests := requests + 1;
      match outcome {
        case Parsed(items) =>
          data := EnforceUppercase(items);
          contentCache := contentCache[cacheKey := data];
        case EmptyText =>
          data := GetFallbackData(moduleType);
        case Failed =>
          data := GetFallbackData(moduleType);
      }
    }
  }

  /** Asking twice for the same type and level after a successful answer
      makes one request and gives the same list, whatever the second
      outcome would have been. */
  method RepeatedRequestHitsCache(p: Provider, t: ModuleType, level: nat, items: seq<Item>, later: GenOutcome)
    returns (first: seq<Item>, second: seq<Item>)
    requires p.apiKey != "" && HasPrompt(t) && CacheKey(t, level) !in p.contentCache
    modifies p
    ensures first == second == EnforceUppercase(items)
    ensures p.requests == old(p.requests) + 1
  {
    first := p.GenerateGameContent(t, level, Parsed(items));
    second := p.GenerateGameContent(t, level, later);
  }
}
