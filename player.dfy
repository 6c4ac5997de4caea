/**
 * Players: a named seat, human or machine, holding an ordered hand of card
 * objects and an elimination flag. Whether a player can play, and which card a
 * machine plays, are decided by scanning the hand against the table sum.
 */
module Players {
  import opened Cards

  datatype Option<T> = None | Some(value: T)

  /** Playing `c` on a table summing to `sum` keeps the sum within the limit. */
  predicate Playable(c: Card, sum: int)
  {
    sum + Value(c.rank, sum) <= Limit
  }

  /** Some card of the hand can be played on a table summing to `sum`. */
  predicate CanPlayHand(hand: seq<Card>, sum: int)
  {
    exists i :: 0 <= i < |hand| && Playable(hand[i], sum)
  }

  /**
   * The position of the first playable card of the hand, if any: every card
   * before it is unplayable, and there is none exactly when no card is playable.
   */
  function FirstPlayable(hand: seq<Card>, sum: int): (r: Option<nat>)
    ensures r.Some? ==> r.value < |hand| && Playable(hand[r.value], sum)
    ensures r.Some? ==> forall k :: 0 <= k < r.value ==> !Playable(hand[k], sum)
    ensures r.None? <==> !CanPlayHand(hand, sum)
  {
    if hand == [] then None
    else if Playable(hand[0], sum) then Some(0)
    else
      match FirstPlayable(hand[1..], sum)
      case None =>
        assert forall k :: 1 <= k < |hand| ==> hand[k] == hand[1..][k - 1];
        None
      case Some(i) => Some(i + 1)
  }

  /** The first position holding `x`. */
  function IndexOf<T(==)>(s: seq<T>, x: T): (i: nat)
    requires x in s
    ensures i < |s| && s[i] == x && x !in s[..i]
  {
    if s[0] == x then 0 else 1 + IndexOf(s[1..], x)
  }

  /**
   * The sequence without the first occurrence of `x`, the rest in order; the
   * sequence itself when `x` does not occur. Exactly one `x` goes.
   */
  function RemoveFirst<T(==)>(s: seq<T>, x: T): (r: seq<T>)
    ensures x !in s ==> r == s
    ensures x in s ==> |r| == |s| - 1 && r == s[..IndexOf(s, x)] + s[IndexOf(s, x) + 1..]
    ensures multiset(r) == multiset(s) - multiset{x}
  {
    if x in s then
      var i := IndexOf(s, x);
      assert s == s[..i] + [x] + s[i + 1..];
      s[..i] + s[i + 1..]
    else
      s
  }

  /** A seat of the game. */
  class Player {
    const name: string
    const isMachine: bool
    var hand: seq<Card>
    var isEliminated: bool

    /** A new player keeps the given name and kind, holds no card and is in play. */
    constructor (name: string, isMachine: bool)
      ensures this.name == name && this.isMachine == isMachine
      ensures hand == [] && !isEliminated
    {
      this.name := name;
      this.isMachine := isMachine;
      hand := [];
      isEliminated := false;
    }

    /** Appends the card to the hand; a human's cards are turned face up. */
    method AddCard(c: Card)
      modifies this, c
      ensures hand == old(hand) + [c] && isEliminated == old(isEliminated)
      ensures c.faceUp == (if isMachine then old(c.faceUp) else true)
    {
      hand := hand + [c];
      if !isMachine {
        c.SetFaceUp(true);
      }
    }

    /**
     * Removes the first occurrence of this very card object and reports
     * whether there was one; otherwise the hand stays as it is.
     */
    method RemoveCard(c: Card) returns (removed: bool)
      modifies this
      ensures removed <==> c in old(hand)
      ensures hand == RemoveFirst(old(hand), c) && isEliminated == old(isEliminated)
    {
      removed := c in hand;
      hand := RemoveFirst(hand, c);
    }

    /** Puts the player out of play; nothing puts a player back in. */
    method Eliminate()
      modifies this
      ensures isEliminated && hand == old(hand)
    {
      isEliminated := true;
    }

    /** Whether some card of the hand keeps the table sum within the limit. */
    method CanPlay(currentSum: int) returns (b: bool)
      ensures b <==> exists i :: 0 <= i < |hand| && Playable(hand[i], currentSum)
    {
      for i := 0 to |hand|
        invariant forall k :: 0 <= k < i ==> !Playable(hand[k], currentSum)
      {
        var newSum := currentSum + hand[i].GetValue(currentSum);
        if newSum <= Limit {
          return true;
        }
      }
      return false;
    }

    /**
     * The card a machine plays: the first of the hand, in hand order, that
     * keeps the sum within the limit, or null when there is none. A human
     * chooses for themself, so for a human the answer is always null.
     */
    method SelectCard(currentSum: int) returns (c: Card?)
      ensures !isMachine ==> c == null
      ensures isMachine ==> (c != null <==> CanPlayHand(hand, currentSum))
      ensures c != null ==> exists i :: 0 <= i < |hand| && c == hand[i] && Playable(hand[i], currentSum)
                                        && forall k :: 0 <= k < i ==> !Playable(hand[k], currentSum)
    {
      if !isMachine {
        return null;
      }
      for i := 0 to |hand|
        invariant forall k :: 0 <= k < i ==> !Playable(hand[k], currentSum)
      {
        var newSum := currentSum + hand[i].GetValue(currentSum);
        if newSum <= Limit {
          return hand[i];
        }
      }
      return null;
    }

    /** Gives back the whole hand, in order, and leaves it empty. */
    method ClearHand() returns (cards: seq<Card>)
      modifies this
      ensures cards == old(hand) && hand == [] && isEliminated == old(isEliminated)
    {
      cards := hand;
      hand := [];
    }
  }

  /** A machine's choice is exactly the first playable card of its hand. */
  lemma SelectionIsFirstPlayable(hand: seq<Card>, sum: int, i: nat)
    requires i < |hand| && Playable(hand[i], sum)
    requires forall k :: 0 <= k < i ==> !Playable(hand[k], sum)
    ensures FirstPlayable(hand, sum) == Some(i)
  {
  }

  /**
   * The base player: the same hand operations as Player, with the choice of
   * card left to subclasses.
   */
  class AbstractPlayer {
    const name: string
    const isMachine: bool
    var hand: seq<Card>
    var isEliminated: bool

    constructor (name: string, isMachine: bool)
      ensures this.name == name && this.isMachine == isMachine
      ensures hand == [] && !isEliminated
    {
      this.name := name;
      this.isMachine := isMachine;
      hand := [];
      isEliminated := false;
    }

    method AddCard(c: Card)
      modifies this, c
      ensures hand == old(hand) + [c] && isEliminated == old(isEliminated)
      ensures c.faceUp == (if isMachine then old(c.faceUp) else true)
    {
      hand := hand + [c];
      if !isMachine {
        c.SetFaceUp(true);
      }
    }

    method RemoveCard(c: Card) returns (removed: bool)
      modifies this
      ensures removed <==> c in old(hand)
      ensures hand == RemoveFirst(old(hand), c) && isEliminated == old(isEliminated)
    {
      removed := c in hand;
      hand := RemoveFirst(hand, c);
    }

    method Eliminate()
      modifies this
      ensures isEliminated && hand == old(hand)
    {
      isEliminated := true;
    }

    method ClearHand() returns (cards: seq<Card>)
      modifies this
      ensures cards == old(hand) && hand == [] && isEliminated == old(isEliminated)
    {
      cards := hand;
      hand := [];
    }
  }

  /** A cursor over a player's hand that yields its cards in order. */
  class HandIterator {
    const owner: AbstractPlayer
    var index: nat

    constructor (owner: AbstractPlayer)
      ensures this.owner == owner && index == 0
    {
      this.owner := owner;
      index := 0;
    }

    function HasNext(): (b: bool)
      reads this, owner
      ensures b <==> index < |owner.hand|
    {
      index < |owner.hand|
    }

    /**
     * The card at the cursor, and the cursor moves on. Past the end of the hand
     * the list lookup fails (None), and the cursor has moved on all the same.
     */
    method Next() returns (c: Option<Card>)
      modifies this
      ensures index == old(index) + 1
      ensures old(index) < |owner.hand| ==> c == Some(owner.hand[old(index)])
      ensures old(index) >= |owner.hand| ==> c == None
    {
      var i := index;
      index := index + 1;
      if i < |owner.hand| {
        c := Some(owner.hand[i]);
      } else {
        c := None;
      }
    }
  }

  /**
   * Walking a fresh cursor while it has a next card yields every card of the
   * hand once, in hand order, after exactly as many steps as the hand holds.
   */
  method WalkHand(it: HandIterator) returns (seen: seq<Card>)
    requires it.index == 0
    modifies it
    ensures seen == it.owner.hand && !it.HasNext() && it.index == |it.owner.hand|
  {
    seen := [];
    while it.HasNext()
      invariant it.index <= |it.owner.hand| && seen == it.owner.hand[..it.index]
      decreases |it.owner.hand| - it.index
    {
      var c := it.Next();
      seen := seen + [c.value];
    }
  }
}
