/**
 * The deck: a last-in first-out pile of card objects whose top is the LAST
 * element of `cards`. It is built as the 52 standard cards and shuffled,
 * cards are drawn from and pushed onto the top, and the pile can be shuffled
 * again. The random number generator is a parameter: a stream of draws.
 */
module Decks {
  import opened Cards

  /**
   * The k-th bounded random number taken from the stream `draws`: a number
   * below `bound`, standing for the library generator's nextInt(bound). Once
   * the stream is used up it yields 0.
   */
  function NextInt(draws: seq<nat>, k: nat, bound: nat): (j: nat)
    requires bound > 0
    ensures j < bound
  {
    if k < |draws| then draws[k] % bound else 0
  }

  /** The sequence with positions i and j exchanged. */
  function Swap<T>(s: seq<T>, i: nat, j: nat): (r: seq<T>)
    requires i < |s| && j < |s|
    ensures |r| == |s| && r[i] == s[j] && r[j] == s[i]
    ensures forall k :: 0 <= k < |s| && k != i && k != j ==> r[k] == s[k]
  {
    s[i := s[j]][j := s[i]]
  }

  /** Exchanging two positions keeps every element and its multiplicity. */
  lemma SwapIsPermutation<T>(s: seq<T>, i: nat, j: nat)
    requires i < |s| && j < |s|
    ensures multiset(Swap(s, i, j)) == multiset(s)
  {
  }

  /**
   * The library shuffle: for i from the length down to 2, exchange position
   * i - 1 with a random position below i. It returns a permutation of `s`.
   */
  method Shuffled<T>(s: seq<T>, draws: seq<nat>) returns (t: seq<T>)
    ensures multiset(t) == multiset(s)
  {
    t := s;
    var i := |t|;
    var k := 0;
    while i > 1
      invariant |t| == |s| && i <= |s|
      invariant multiset(t) == multiset(s)
    {
      var j := NextInt(draws, k, i);
      SwapIsPermutation(t, i - 1, j);
      t := Swap(t, i - 1, j);
      i, k := i - 1, k + 1;
    }
  }

  /** Every card occurs at most once. */
  predicate NoRepeats(s: seq<Card>)
  {
    forall c :: c in s ==> multiset(s)[c] == 1
  }

  /**
   * A complete deck: 52 different card objects, each of a known rank and suit,
   * and no two with the same rank and suit. Stated over the multiset of
   * cards, so it holds of every reordering of a complete deck.
   */
  predicate FullDeck(s: seq<Card>)
  {
    && |s| == 52
    && NoRepeats(s)
    && (forall c :: c in s ==> c.rank in Ranks && c.suit in Suits)
    && (forall c, d :: c in s && d in s && c != d ==> c.rank != d.rank || c.suit != d.suit)
  }

  /** Every pairing of a rank with a suit is the rank and suit of some card of s. */
  predicate EveryPair(s: seq<Card>)
  {
    forall r, u :: r in Ranks && u in Suits ==> exists c :: c in s && c.rank == r && c.suit == u
  }

  /** The deck as it is built: suit by suit, and within a suit rank by rank. */
  predicate StandardOrder(s: seq<Card>)
  {
    && |s| == 52
    && (forall i, j :: 0 <= i < j < |s| ==> s[i] != s[j])
    && (forall k :: 0 <= k < |s| ==> s[k].rank == Ranks[k % 13] && s[k].suit == Suits[k / 13])
  }

  /** A sequence without two equal positions repeats no element. */
  lemma {:induction false} DistinctHasNoRepeats(s: seq<Card>)
    requires forall i, j :: 0 <= i < j < |s| ==> s[i] != s[j]
    ensures NoRepeats(s)
  {
    if s != [] {
      var init := s[..|s| - 1];
      DistinctHasNoRepeats(init);
      assert s == init + [s[|s| - 1]];
      assert s[|s| - 1] !in init;
    }
  }

  lemma RanksAndSuitsDistinct()
    ensures forall a, b :: 0 <= a < b < |Ranks| ==> Ranks[a] != Ranks[b]
    ensures forall a, b :: 0 <= a < b < |Suits| ==> Suits[a] != Suits[b]
  {
  }

  /** The deck as built is complete: 52 cards, one for every rank and suit. */
  lemma StandardIsFull(s: seq<Card>)
    requires StandardOrder(s)
    ensures FullDeck(s)
  {
    DistinctHasNoRepeats(s);
    RanksAndSuitsDistinct();
    forall c, d | c in s && d in s && c != d
      ensures c.rank != d.rank || c.suit != d.suit
    {
      var k :| 0 <= k < |s| && s[k] == c;
      var l :| 0 <= l < |s| && s[l] == d;
      PositionsApart(k, l);
    }
  }

  /** The deck as built holds a card of every rank in every suit. */
  lemma StandardHasEveryPair(s: seq<Card>)
    requires StandardOrder(s)
    ensures EveryPair(s)
  {
    forall r, u | r in Ranks && u in Suits
      ensures exists c :: c in s && c.rank == r && c.suit == u
    {
      var ri :| 0 <= ri < |Ranks| && Ranks[ri] == r;
      var si :| 0 <= si < |Suits| && Suits[si] == u;
      var k := 13 * si + ri;
      Position(k, si, ri);
      assert s[k] in s;
    }
  }

  /** Reordering a deck keeps a card of every rank in every suit. */
  lemma EveryPairReordered(s: seq<Card>, t: seq<Card>)
    requires EveryPair(s) && multiset(t) == multiset(s)
    ensures EveryPair(t)
  {
    forall r, u | r in Ranks && u in Suits
      ensures exists c :: c in t && c.rank == r && c.suit == u
    {
      var c :| c in s && c.rank == r && c.suit == u;
      assert c in multiset(s);
    }
  }

  /** A reordering of a complete deck is a complete deck. */
  lemma FullDeckReordered(s: seq<Card>, t: seq<Card>)
    requires FullDeck(s) && multiset(t) == multiset(s)
    ensures FullDeck(t)
  {
  }

  /** The 52 standard cards, built suit by suit and rank by rank, all face down. */
  method NewCards() returns (s: seq<Card>)
    ensures StandardOrder(s)
    ensures forall c :: c in s ==> fresh(c) && !c.faceUp
  {
    s := [];
    for si := 0 to |Suits|
      invariant |s| == 13 * si
      invariant forall i, j :: 0 <= i < j < |s| ==> s[i] != s[j]
      invariant forall k :: 0 <= k < |s| ==> s[k].rank == Ranks[k % 13] && s[k].suit == Suits[k / 13]
      invariant forall k :: 0 <= k < |s| ==> fresh(s[k]) && !s[k].faceUp
    {
      s := AddSuit(s, si);
    }
  }

  /** Appends the thirteen new cards of suit number si, rank by rank. */
  method AddSuit(s0: seq<Card>, si: nat) returns (s: seq<Card>)
    requires si < |Suits| && |s0| == 13 * si
    ensures |s| == 13 * (si + 1) && s[..|s0|] == s0
    ensures forall i :: |s0| <= i < |s| ==> s[i] !in s0 && fresh(s[i]) && !s[i].faceUp
    ensures forall i, j :: |s0| <= i < j < |s| ==> s[i] != s[j]
    ensures forall k :: |s0| <= k < |s| ==> s[k].rank == Ranks[k % 13] && s[k].suit == Suits[k / 13]
  {
    s := s0;
    for ri := 0 to |Ranks|
      invariant |s| == |s0| + ri && s[..|s0|] == s0
      invariant forall i :: |s0| <= i < |s| ==> s[i] !in s0 && fresh(s[i]) && !s[i].faceUp
      invariant forall i, j :: |s0| <= i < j < |s| ==> s[i] != s[j]
      invariant forall k :: |s0| <= k < |s| ==> s[k].rank == Ranks[k - |s0|] && s[k].suit == Suits[si]
    {
      var c := new Card(Ranks[ri], Suits[si]);
      s := s + [c];
    }
    forall k | |s0| <= k < |s|
      ensures s[k].rank == Ranks[k % 13] && s[k].suit == Suits[k / 13]
    {
      Position(k, si, k - |s0|);
    }
  }

  /** Card number k = 13 * si + ri of the standard order has rank ri of suit si. */
  lemma Position(k: nat, si: nat, ri: nat)
    requires k == 13 * si + ri && ri < 13
    ensures k % 13 == ri && k / 13 == si
  {
  }

  /** Two different positions of the deck differ in rank index or in suit index. */
  lemma PositionsApart(k: nat, l: nat)
    requires k != l
    ensures k % 13 != l % 13 || k / 13 != l / 13
  {
    assert k == 13 * (k / 13) + k % 13;
    assert l == 13 * (l / 13) + l % 13;
  }

  /** The deck of the game: a stack of cards, top last. */
  class Deck {
    var cards: seq<Card>

    /** A new deck holds the 52 standard cards, face down, in shuffled order. */
    constructor (draws: seq<nat>)
      ensures FullDeck(cards) && EveryPair(cards)
      ensures forall c :: c in cards ==> fresh(c) && !c.faceUp
    {
      cards := [];
      new;
      InitializeDeck();
      StandardIsFull(cards);
      StandardHasEveryPair(cards);
      ghost var built := cards;
      Shuffle(draws);
      FullDeckReordered(built, cards);
      EveryPairReordered(built, cards);
      forall c | c in cards ensures c in built {
        assert c in multiset(cards);
      }
    }

    /** Pushes the 52 standard cards, built in suit-then-rank order. */
    method InitializeDeck()
      modifies this
      ensures |cards| == |old(cards)| + 52 && cards[..|old(cards)|] == old(cards)
      ensures StandardOrder(cards[|old(cards)|..])
      ensures forall c :: c in cards[|old(cards)|..] ==> fresh(c) && !c.faceUp
    {
      var temp := NewCards();
      cards := cards + temp;
      assert cards[|old(cards)|..] == temp;
    }

    /** Reorders the deck by the library shuffle; the same cards remain. */
    method Shuffle(draws: seq<nat>)
      modifies this
      ensures multiset(cards) == multiset(old(cards))
    {
      var temp := Shuffled(cards, draws);
      cards := temp;
    }

    /** Pops the top card, or yields null on an empty deck and changes nothing. */
    method DrawCard() returns (c: Card?)
      modifies this
      ensures old(cards) == [] ==> c == null && cards == []
      ensures old(cards) != [] ==> c == old(cards)[|old(cards)| - 1] && cards == old(cards)[..|old(cards)| - 1]
    {
      if cards == [] {
        return null;
      }
      c := cards[|cards| - 1];
      cards := cards[..|cards| - 1];
    }

    /** Pushes one card onto the top. */
    method AddCard(c: Card)
      modifies this
      ensures cards == old(cards) + [c]
    {
      cards := cards + [c];
    }

    /** Pushes the cards one by one in list order; the last one ends on top. */
    method AddCards(toAdd: seq<Card>)
      modifies this
      ensures cards == old(cards) + toAdd
    {
      for i := 0 to |toAdd|
        invariant cards == old(cards) + toAdd[..i]
      {
        cards := cards + [toAdd[i]];
      }
      assert toAdd[..|toAdd|] == toAdd;
    }

    function IsEmpty(): (b: bool)
      reads this
      ensures b <==> Size() == 0
    {
      cards == []
    }

    function Size(): nat
      reads this
    {
      |cards|
    }

    /** A copy of the pile, bottom first; being a value, it cannot alias the pile. */
    function GetCards(): seq<Card>
      reads this
    {
      cards
    }
  }

  /**
   * The base deck: the same stack operations as Deck, but it starts empty and
   * leaves building the 52 cards to a subclass.
   */
  class AbstractDeck {
    var cards: seq<Card>

    constructor ()
      ensures cards == []
    {
      cards := [];
    }

    method Shuffle(draws: seq<nat>)
      modifies this
      ensures multiset(cards) == multiset(old(cards))
    {
      var temp := Shuffled(cards, draws);
      cards := temp;
    }

    method DrawCard() returns (c: Card?)
      modifies this
      ensures old(cards) == [] ==> c == null && cards == []
      ensures old(cards) != [] ==> c == old(cards)[|old(cards)| - 1] && cards == old(cards)[..|old(cards)| - 1]
    {
      if cards == [] {
        return null;
      }
      c := cards[|cards| - 1];
      cards := cards[..|cards| - 1];
    }

    method AddCard(c: Card)
      modifies this
      ensures cards == old(cards) + [c]
    {
      cards := cards + [c];
    }

    method AddCards(toAdd: seq<Card>)
      modifies this
      ensures cards == old(cards) + toAdd
    {
      for i := 0 to |toAdd|
        invariant cards == old(cards) + toAdd[..i]
      {
        cards := cards + [toAdd[i]];
      }
      assert toAdd[..|toAdd|] == toAdd;
    }

    function IsEmpty(): (b: bool)
      reads this
      ensures b <==> Size() == 0
    {
      cards == []
    }

    function Size(): nat
      reads this
    {
      |cards|
    }

    function GetCards(): seq<Card>
      reads this
    {
      cards
    }
  }

  /** The helper that shuffles the deck it belongs to, by delegating to it. */
  class Shuffler {
    const owner: AbstractDeck

    constructor (owner: AbstractDeck)
      ensures this.owner == owner
    {
      this.owner := owner;
    }

    method PerformShuffle(draws: seq<nat>)
      modifies owner
      ensures multiset(owner.cards) == multiset(old(owner.cards))
    {
      owner.Shuffle(draws);
    }
  }

  /** A card pushed onto a deck is the next card drawn, and the deck is back as it was. */
  method PushThenDraw(d: Deck, c: Card) returns (drawn: Card?)
    modifies d
    ensures drawn == c && d.cards == old(d.cards)
  {
    d.AddCard(c);
    drawn := d.DrawCard();
  }
}
