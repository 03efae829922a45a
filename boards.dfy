// The three mini-game boards of the arena (GameArena.tsx): the letter
// workshop, where tiles are moved from a shuffled pool into the word's
// slots; the syllable board, where syllables are copied from a fixed pool
// into slots; and the memory board, where cards are turned two at a time.
// Every shuffle is a parameter: the order the pool is dealt in.

module Boards {
  import opened Types
  import opened Chars

  // --- Letters ----------------------------------------------------------

  /** A letter tile: the character and its position in the word. */
  datatype Tile = Tile(ch: char, id: nat)

  /** `placed.findIndex(p => p === null)`. */
  function FirstEmpty(slots: seq<Option<char>>): (r: int)
    ensures -1 <= r < |slots|
    ensures r == -1 <==> forall i :: 0 <= i < |slots| ==> slots[i].Some?
    ensures r >= 0 ==> slots[r].None? && forall i :: 0 <= i < r ==> slots[i].Some?
  {
    if slots == [] then -1
    else if slots[0].None? then 0
    else
      var k := FirstEmpty(slots[1..]);
      if k == -1 then -1 else k + 1
  }

  /** `placed.join('')`: an empty slot joins as nothing. */
  function Joined(slots: seq<Option<char>>): (r: string)
    ensures |r| <= |slots|
    ensures (forall i :: 0 <= i < |slots| ==> slots[i].Some?) ==>
      |r| == |slots| && forall i :: 0 <= i < |slots| ==> r[i] == slots[i].value
  {
    if slots == [] then ""
    else (if slots[0].Some? then [slots[0].value] else "") + Joined(slots[1..])
  }

  /** Slots filled exactly up to `m` join to the first `m` letters. */
  lemma {:induction false} JoinedPrefix(slots: seq<Option<char>>, m: nat)
    requires m <= |slots|
    requires forall i :: 0 <= i < |slots| ==> (slots[i].Some? <==> i < m)
    ensures |Joined(slots)| == m
    ensures forall i :: 0 <= i < m ==> Joined(slots)[i] == slots[i].value
  {
    if slots != [] {
      if m == 0 {
        JoinedPrefix(slots[1..], 0);
      } else {
        JoinedPrefix(slots[1..], m - 1);
        assert Joined(slots) == [slots[0].value] + Joined(slots[1..]);
      }
    }
  }

  /** `pool.filter(p => p.id !== id)`. */
  function RemoveId(pool: seq<Tile>, id: nat): (r: seq<Tile>)
    ensures |r| <= |pool|
    ensures forall t :: t in r <==> t in pool && t.id != id
  {
    if pool == [] then []
    else (if pool[0].id != id then [pool[0]] else []) + RemoveId(pool[1..], id)
  }

  predicate DistinctIds(pool: seq<Tile>) {
    forall i, j :: 0 <= i < j < |pool| ==> pool[i].id != pool[j].id
  }

  /** Removing a tile whose id occurs once shortens the pool by one and
      keeps the ids distinct. */
  lemma {:induction false} RemoveIdOnce(pool: seq<Tile>, t: Tile)
    requires DistinctIds(pool) && t in pool
    ensures |RemoveId(pool, t.id)| == |pool| - 1
    ensures DistinctIds(RemoveId(pool, t.id))
  {
    if pool[0] == t {
      RemoveIdAbsent(pool[1..], t.id);
    } else {
      RemoveIdOnce(pool[1..], t);
      var rest := RemoveId(pool[1..], t.id);
      assert RemoveId(pool, t.id) == [pool[0]] + rest;
      forall k | 0 <= k < |rest| ensures rest[k].id != pool[0].id {
        assert rest[k] in pool[1..];
      }
    }
  }

  /** Removing an id the pool does not have changes nothing. */
  lemma {:induction false} RemoveIdAbsent(pool: seq<Tile>, id: nat)
    requires forall i :: 0 <= i < |pool| ==> pool[i].id != id
    ensures RemoveId(pool, id) == pool
  {
    if pool != [] {
      RemoveIdAbsent(pool[1..], id);
    }
  }

  predicate DistinctNats(s: seq<nat>) {
    forall i, j :: 0 <= i < j < |s| ==> s[i] != s[j]
  }

  /** The letter workshop's invariant: slots fill from the left; each
      holds the letter of the tile put there (`ids`); every tile of the
      word is in one place only: a slot or the pool. */
  ghost predicate LettersValid(word: string, placed: seq<Option<char>>, pool: seq<Tile>, ids: seq<nat>) {
    |placed| == |word|
    && |ids| + |pool| == |word|
    && (forall i :: 0 <= i < |placed| ==> (placed[i].Some? <==> i < |ids|))
    && (forall i :: 0 <= i < |ids| ==> ids[i] < |word| && placed[i] == Some(word[ids[i]]))
    && (forall i :: 0 <= i < |pool| ==> pool[i].id < |word| && pool[i].ch == word[pool[i].id])
    && DistinctNats(ids) && DistinctIds(pool)
    && (forall i, j :: 0 <= i < |ids| && 0 <= j < |pool| ==> ids[i] != pool[j].id)
  }

  /** A pool tile put into the first empty slot keeps the invariant; that
      slot is the one after the filled ones. */
  lemma PlaceTile(word: string, placed: seq<Option<char>>, pool: seq<Tile>, ids: seq<nat>, tile: Tile)
    requires LettersValid(word, placed, pool, ids) && tile in pool && FirstEmpty(placed) >= 0
    ensures FirstEmpty(placed) == |ids|
    ensures LettersValid(word, placed[|ids| := Some(tile.ch)], RemoveId(pool, tile.id), ids + [tile.id])
    ensures |RemoveId(pool, tile.id)| == |pool| - 1
  {
    var k := FirstEmpty(placed);
    assert placed[k].None?;
    assert |ids| < |placed| && placed[|ids|].None?;
    RemoveIdOnce(pool, tile);
    PoolAfterRemove(word, pool, ids, tile);
    var j :| 0 <= j < |pool| && pool[j] == tile;
    SlotsAfterPlace(word, placed, ids, tile);
  }

  /** The slot part of `PlaceTile`. */
  lemma SlotsAfterPlace(word: string, placed: seq<Option<char>>, ids: seq<nat>, tile: Tile)
    requires |placed| == |word| && |ids| < |placed|
    requires forall i :: 0 <= i < |placed| ==> (placed[i].Some? <==> i < |ids|)
    requires forall i :: 0 <= i < |ids| ==> ids[i] < |word| && placed[i] == Some(word[ids[i]])
    requires DistinctNats(ids) && tile.id < |word| && tile.ch == word[tile.id]
    requires forall i :: 0 <= i < |ids| ==> ids[i] != tile.id
    ensures var placed', ids' := placed[|ids| := Some(tile.ch)], ids + [tile.id];
      (forall i :: 0 <= i < |placed'| ==> (placed'[i].Some? <==> i < |ids'|))
      && (forall i :: 0 <= i < |ids'| ==> ids'[i] < |word| && placed'[i] == Some(word[ids'[i]]))
      && DistinctNats(ids')
  {
  }

  /** The pool part of `PlaceTile`: what is left of the pool still holds
      letters of the word that are in no slot, the new one included. */
  lemma PoolAfterRemove(word: string, pool: seq<Tile>, ids: seq<nat>, tile: Tile)
    requires forall i :: 0 <= i < |pool| ==> pool[i].id < |word| && pool[i].ch == word[pool[i].id]
    requires forall i, j :: 0 <= i < |ids| && 0 <= j < |pool| ==> ids[i] != pool[j].id
    ensures var pool', ids' := RemoveId(pool, tile.id), ids + [tile.id];
      (forall i :: 0 <= i < |pool'| ==> pool'[i].id < |word| && pool'[i].ch == word[pool'[i].id])
      && (forall i, j :: 0 <= i < |ids'| && 0 <= j < |pool'| ==> ids'[i] != pool'[j].id)
  {
    var pool' := RemoveId(pool, tile.id);
    forall i | 0 <= i < |pool'| ensures pool'[i] in pool && pool'[i].id != tile.id {
      assert pool'[i] in pool';
    }
  }

  /** The letter workshop. `placedIds` records which tile went into each
      filled slot; it is not part of the board the player sees. */
  class LettersBoard {
    const word: string
    var placed: seq<Option<char>>
    var pool: seq<Tile>
    ghost var placedIds: seq<nat>

    ghost predicate Valid()
      reads this
    {
      LettersValid(word, placed, pool, placedIds)
    }

    /** The item effect: every slot empty and the word's letters dealt into
        the pool in the shuffled order `order` (a list of positions). */
    constructor(word: string, order: seq<nat>)
      requires |order| == |word| && DistinctNats(order)
      requires forall i :: 0 <= i < |order| ==> order[i] < |word|
      ensures Valid()
      ensures this.word == word && placed == seq(|word|, _ => None)
      ensures |pool| == |word| && forall i :: 0 <= i < |pool| ==> pool[i] == Tile(word[order[i]], order[i])
    {
      this.word := word;
      placed := seq(|word|, _ => None);
      pool := seq(|order|, i requires 0 <= i < |order| => Tile(word[order[i]], order[i]));
      placedIds := [];
    }

    /** `handlePoolClick`: the tile goes into the first empty slot and
        leaves the pool; with every slot full nothing happens. */
    method HandlePoolClick(tile: Tile)
      requires Valid() && tile in pool
      modifies this
      ensures Valid()
      ensures FirstEmpty(old(placed)) == -1 ==> placed == old(placed) && pool == old(pool)
      ensures FirstEmpty(old(placed)) >= 0 ==>
        placed == old(placed)[FirstEmpty(old(placed)) := Some(tile.ch)]
        && pool == RemoveId(old(pool), tile.id)
        && |pool| == |old(pool)| - 1
    {
      var firstEmpty := FirstEmpty(placed);
      if firstEmpty != -1 {
        PlaceTile(word, placed, pool, placedIds, tile);
        placed := placed[firstEmpty := Some(tile.ch)];
        pool := RemoveId(pool, tile.id);
        placedIds := placedIds + [tile.id];
      }
    }

    /** `checkAnswer`: accepted when the joined slots spell the word. */
    method CheckAnswer() returns (accepted: bool)
      ensures accepted <==> Joined(placed) == word
    {
      accepted := Joined(placed) == word;
    }

    /** The joined slots spell the word exactly when every tile has been
        placed and the tiles, read left to right, carry the word's letters;
        the pool is then empty. */
    lemma Accepted()
      requires Valid()
      ensures Joined(placed) == word <==>
        |placedIds| == |word| && forall i :: 0 <= i < |word| ==> word[placedIds[i]] == word[i]
      ensures Joined(placed) == word ==> pool == []
    {
      JoinedPrefix(placed, |placedIds|);
    }
  }

  // --- Syllables --------------------------------------------------------

  /** `slots.findIndex(s => s === '')`. */
  function FirstBlank(slots: seq<string>): (r: int)
    ensures -1 <= r < |slots|
    ensures r == -1 <==> forall i :: 0 <= i < |slots| ==> slots[i] != ""
    ensures r >= 0 ==> slots[r] == "" && forall i :: 0 <= i < r ==> slots[i] != ""
  {
    if slots == [] then -1
    else if slots[0] == "" then 0
    else
      var k := FirstBlank(slots[1..]);
      if k == -1 then -1 else k + 1
  }

  function Blanks(n: nat): (r: seq<string>)
    ensures |r| == n && forall i :: 0 <= i < n ==> r[i] == ""
  {
    seq(n, _ => "")
  }

  /** The syllable board: the pool is the syllables and the distractors
      in a shuffled order and never changes. */
  class SyllablesBoard {
    const syllables: seq<string>
    const pool: seq<string>
    var slots: seq<string>

    /** One slot per syllable, filled from the left, each filled slot
        holding a pool syllable; every syllable of the answer is offered. */
    ghost predicate Valid()
      reads this
    {
      |slots| == |syllables|
      && (forall i :: 0 <= i < |slots| && slots[i] != "" ==> slots[i] in pool)
      && (forall i, j :: 0 <= i < j < |slots| && slots[i] == "" ==> slots[j] == "")
      && (forall i :: 0 <= i < |syllables| ==> syllables[i] in pool)
    }

    /** The item effect: the pool dealt in the shuffled order `shuffled`
        of the syllables and the distractors, every slot blank. */
    constructor(syllables: seq<string>, distractors: seq<string>, shuffled: seq<string>)
      requires multiset(shuffled) == multiset(syllables + distractors)
      ensures Valid()
      ensures this.syllables == syllables && pool == shuffled && slots == Blanks(|syllables|)
    {
      this.syllables := syllables;
      pool := shuffled;
      slots := Blanks(|syllables|);
      new;
      forall i | 0 <= i < |syllables| ensures syllables[i] in pool {
        assert (syllables + distractors)[i] == syllables[i];
        assert syllables[i] in multiset(shuffled);
      }
    }

    /** `handlePoolClick`: in wolf mode the syllable goes to the helper and
        the board is unchanged; otherwise it is copied into the first blank
        slot, and with no blank slot nothing happens. */
    method HandlePoolClick(syl: string, wolfMode: bool) returns (forwarded: Option<string>)
      requires Valid() && syl in pool
      modifies this
      ensures Valid()
      ensures forwarded == (if wolfMode then Some(syl) else None)
      ensures wolfMode || FirstBlank(old(slots)) == -1 ==> slots == old(slots)
      ensures !wolfMode && FirstBlank(old(slots)) >= 0 ==> slots == old(slots)[FirstBlank(old(slots)) := syl]
    {
      if wolfMode {
        forwarded := Some(syl);
        return;
      }
      forwarded := None;
      var firstEmpty := FirstBlank(slots);
      if firstEmpty != -1 {
        slots := slots[firstEmpty := syl];
      }
    }

    /** `checkAnswer`: accepted when the slots join to the joined
        syllables. */
    method CheckAnswer() returns (accepted: bool)
      ensures accepted <==> Concat(slots) == Concat(syllables)
    {
      accepted := Concat(slots) == Concat(syllables);
    }

    /** Clicking the answer's syllables in order, outside wolf mode, on a
        blank board fills the slots with exactly the answer, which the board
        then accepts. */
    method FillInOrder() returns (accepted: bool)
      requires Valid() && slots == Blanks(|syllables|)
      requires forall i :: 0 <= i < |syllables| ==> syllables[i] != ""
      modifies this
      ensures Valid() && slots == syllables && accepted
    {
      var i := 0;
      while i < |syllables|
        invariant 0 <= i <= |syllables|
        invariant Valid()
        invariant slots == syllables[..i] + Blanks(|syllables| - i)
      {
        assert FirstBlank(slots) == i by {
          assert slots[i] == "";
          assert forall k :: 0 <= k < i ==> slots[k] == syllables[k];
        }
        var _ := HandlePoolClick(syllables[i], false);
        assert slots == syllables[..i + 1] + Blanks(|syllables| - (i + 1));
        i := i + 1;
      }
      assert slots == syllables;
      accepted := CheckAnswer();
    }
  }

  // --- Memory -----------------------------------------------------------

  /** A dealt memory card: its pair, face up or down, matched or not. */
  datatype MemoryCard = MemoryCard(id: string, content: string, kind: PairKind, isFlipped: bool, isMatched: bool)

  function Deal(p: MemoryPair): (r: MemoryCard)
    ensures r.id == p.id && r.content == p.content && r.kind == p.kind && !r.isFlipped && !r.isMatched
  {
    MemoryCard(p.id, p.content, p.kind, false, false)
  }

  /** The memory board: the dealt cards, updated in place, and the
      positions of the face-up cards waiting to be compared. */
  class MemoryBoard {
    const cards: array<MemoryCard>
    var flipped: seq<nat>

    /** At most two positions are tracked, distinct and valid; they are
        exactly the face-up unmatched cards; matched cards stay face up. */
    ghost predicate Valid()
      reads this, cards
    {
      |flipped| <= 2
      && DistinctNats(flipped)
      && (forall k :: 0 <= k < |flipped| ==>
            flipped[k] < cards.Length && cards[flipped[k]].isFlipped && !cards[flipped[k]].isMatched)
      && (forall i :: 0 <= i < cards.Length && cards[i].isFlipped && !cards[i].isMatched ==> i in flipped)
      && (forall i :: 0 <= i < cards.Length && cards[i].isMatched ==> cards[i].isFlipped)
    }

    predicate AllMatched()
      reads this, cards
    {
      forall i :: 0 <= i < cards.Length ==> cards[i].isMatched
    }

    /** The item effect: the pairs dealt face down in the shuffled order
        `dealt`. */
    constructor(pairs: seq<MemoryPair>, dealt: seq<MemoryPair>)
      requires multiset(dealt) == multiset(pairs)
      ensures Valid() && fresh(cards) && flipped == []
      ensures cards.Length == |dealt| && forall i :: 0 <= i < |dealt| ==> cards[i] == Deal(dealt[i])
    {
      cards := new MemoryCard[|dealt|](i requires 0 <= i < |dealt| => Deal(dealt[i]));
      flipped := [];
    }

    /** `handleCardClick`: ignored while two cards are face up or when the
        card is already face up or matched; otherwise the card turns face up
        and is tracked. */
    method HandleCardClick(index: nat)
      requires Valid() && index < cards.Length
      modifies this, cards
      ensures Valid()
      ensures |old(flipped)| >= 2 || old(cards[index]).isFlipped || old(cards[index]).isMatched ==>
        flipped == old(flipped) && cards[..] == old(cards[..])
      ensures !(|old(flipped)| >= 2 || old(cards[index]).isFlipped || old(cards[index]).isMatched) ==>
        flipped == old(flipped) + [index]
        && cards[..] == old(cards[..])[index := old(cards[index]).(isFlipped := true)]
      ensures forall i :: 0 <= i < cards.Length && old(cards[i]).isMatched ==> cards[i].isMatched
    {
      if |flipped| >= 2 || cards[index].isFlipped || cards[index].isMatched {
        return;
      }
      cards[index] := cards[index].(isFlipped := true);
      flipped := flipped + [index];
    }

    /** The timeout after the second card: equal pair ids mark both
        matched, different ones turn both face down; the level is complete
        exactly when every card is then matched. */
    method ResolveTimeout() returns (completed: bool)
      requires Valid() && |flipped| == 2
      modifies this, cards
      ensures Valid() && flipped == []
      ensures var i, j := old(flipped[0]), old(flipped[1]);
        if old(cards[i].id == cards[j].id) then
          cards[..] == old(cards[..])[i := old(cards[i]).(isMatched := true)][j := old(cards[j]).(isMatched := true)]
        else
          cards[..] == old(cards[..])[i := old(cards[i]).(isFlipped := false)][j := old(cards[j]).(isFlipped := false)]
      ensures forall k :: 0 <= k < cards.Length && old(cards[k]).isMatched ==> cards[k].isMatched
      ensures forall k :: 0 <= k < cards.Length && !old(cards[k]).isMatched && cards[k].isMatched ==>
        k in old(flipped) && old(cards[flipped[0]].id == cards[flipped[1]].id)
      ensures completed <==> AllMatched()
    {
      var i, j := flipped[0], flipped[1];
      if cards[i].id == cards[j].id {
        cards[i] := cards[i].(isMatched := true);
        cards[j] := cards[j].(isMatched := true);
        flipped := [];
        completed := forall k :: 0 <= k < cards.Length ==> cards[k].isMatched;
      } else {
        cards[i] := cards[i].(isFlipped := false);
        cards[j] := cards[j].(isFlipped := false);
        flipped := [];
        completed := false;
        assert !cards[i].isMatched;
      }
    }
  }
}
