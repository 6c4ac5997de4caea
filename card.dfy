/**
 * Cards of the "keep the table sum at most 50" game: a card is an object with
 * a fixed rank and suit and a mutable face-up flag, and its value is a pure
 * function of its rank and of the table sum at the moment it is considered.
 */
module Cards {

  /** The thirteen ranks, in the order the deck is built. */
  const Ranks: seq<string> := ["2", "3", "4", "5", "6", "7", "8", "9", "10", "J", "Q", "K", "A"]

  /** The four suits, in the order the deck is built. */
  const Suits: seq<string> := ["Hearts", "Diamonds", "Clubs", "Spades"]

  /** The table sum that no play may exceed. */
  const Limit: int := 50

  /** Ranks whose value is their own number. */
  const NumeralRanks: set<string> := {"2", "3", "4", "5", "6", "7", "8", "10"}

  /** Ranks that take 10 off the table sum. */
  const FaceRanks: set<string> := {"J", "Q", "K"}

  /** The integer a numeral rank parses to. */
  function NumeralValue(rank: string): (v: int)
    requires rank in NumeralRanks
    ensures 2 <= v <= 10 && v != 9
  {
    if rank == "10" then 10 else rank[0] as int - '0' as int
  }

  /**
   * The value a card of rank `rank` adds to a table whose sum is `currentSum`.
   * Numerals count their number, 9 is neutral, J/Q/K subtract 10, an Ace is
   * 10 when that keeps the sum within the limit and 1 otherwise, and any other
   * rank counts 0.
   */
  function Value(rank: string, currentSum: int): (v: int)
    ensures -10 <= v <= 10
    ensures rank == "A" && currentSum < Limit ==> currentSum + v <= Limit
    ensures rank == "A" ==> (v == 10 <==> currentSum + 10 <= Limit) && (v != 10 ==> v == 1)
    ensures rank !in NumeralRanks && rank != "A" && rank !in FaceRanks ==> v == 0
  {
    if rank in NumeralRanks then NumeralValue(rank)
    else if rank == "9" then 0
    else if rank in FaceRanks then -10
    else if rank == "A" then (if currentSum + 10 <= Limit then 10 else 1)
    else 0
  }

  /** Numerals are worth their number, whatever the table sum. */
  lemma NumeralsAreWorthTheirNumber(s: int)
    ensures Value("2", s) == 2 && Value("3", s) == 3 && Value("4", s) == 4
    ensures Value("5", s) == 5 && Value("6", s) == 6 && Value("7", s) == 7
    ensures Value("8", s) == 8 && Value("10", s) == 10
  {
  }

  /** A 9 is neutral and J, Q and K subtract 10, whatever the table sum. */
  lemma NineAndFacesIgnoreTheSum(s: int, t: int)
    ensures Value("9", s) == 0
    ensures Value("J", s) == Value("Q", t) == Value("K", s) == -10
  {
  }

  /** The Ace switches from 10 to 1 exactly above a table sum of 40. */
  lemma AceThreshold(s: int)
    ensures Value("A", s) == (if s <= 40 then 10 else 1)
    ensures Value("A", 39) == 10 && Value("A", 45) == 1 && Value("A", 50) == 1
  {
  }

  /** No card adds more than 10, so on a table of at most 40 every card fits. */
  lemma EveryCardFitsUpToForty(rank: string, s: int)
    requires s <= Limit - 10
    ensures s + Value(rank, s) <= Limit
  {
  }

  /** A playing card; cards are told apart by identity, not by rank and suit. */
  class Card {
    const rank: string
    const suit: string
    var faceUp: bool

    /** A new card lies face down. */
    constructor (rank: string, suit: string)
      ensures this.rank == rank && this.suit == suit
      ensures !faceUp
    {
      this.rank := rank;
      this.suit := suit;
      faceUp := false;
    }

    function IsFaceUp(): bool
      reads this
    {
      faceUp
    }

    /** Turns the card; rank and suit are constants and cannot change. */
    method SetFaceUp(up: bool)
      modifies this
      ensures faceUp == up
    {
      faceUp := up;
    }

    /** The card's value on a table summing to `currentSum`. */
    function GetValue(currentSum: int): int
    {
      Value(rank, currentSum)
    }
  }
}
