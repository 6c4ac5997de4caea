# Fifty: a model of the card-game rules engine

This project models the rules engine of a card game in which one human
player ("You") and one to three machine players ("Bot 1", "Bot 2", "Bot 3")
take turns playing cards onto a shared table. The running sum of the table
must never pass 50. A player who cannot play a card that keeps the sum
within 50 is eliminated, and the last player in play wins.

The model has five modules, one per part of the engine:

- `Cards` (card.dfy): the card object and its value. The value depends on
  the rank and on the table sum: numerals count their number, a 9 counts 0,
  J, Q and K count -10, and an Ace counts 10 if that keeps the sum within 50
  and 1 otherwise.
- `Decks` (deck.dfy): the deck, a last-in first-out stack of card objects
  (top last). It is built as the 52 standard cards and shuffled. It also
  holds the base deck class and its shuffling helper.
- `Players` (player.dfy): a seat with an ordered hand and an elimination
  flag. `CanPlay` tells whether some card fits; `SelectCard` picks a
  machine's card. It also holds the base player class and its hand iterator.
- `Game` (game.dfy): the engine object `GameModel`. It covers
  construction, the deal, playing a card, drawing (with the table recycled
  into an empty deck), passing the turn, elimination, the end of the game
  and the winner, and the game-wide and per-player counters.
- `Config` (config.dfy): the configured number of machine players, always
  1, 2 or 3.

`GameModel`'s invariant `Valid()` says:

- the seats are "You" followed by the machines;
- the 52 cards of the game are all present exactly once across the deck,
  the hands and the table;
- the current seat is a seat;
- every seat has counters under its name;
- the table sum is at most 50.

Every operation requires `Valid()` and ensures it again. Each operation
states its error cases with the state left unchanged, and its new state in
terms of the old one. A card's face-up flag is a field of the card object.
The frame of each operation (its `modifies` clause) names exactly the cards
it may turn over: the cards it draws, plays or recycles. Every other card
keeps its flag. The `ensures` clauses say how the named cards end up: a
card dealt or drawn by the human is face up, a machine's keeps its flag, a
played or turned-up card is face up, and recycled cards are face down.

The deal states a machine's cards through the kept cards, `Kept(d, hs, m)`:
the cards of the pile d, every card of the seats after the first (the
machines' seats) and the first m cards of the human's hand. Each deal step
ensures that the kept cards afterwards were kept cards before and keep
their flags. A card dealt to a machine is kept, so it keeps its flag. Start
also states this outright for every card of a machine's seat.

Exceptions become the `GameError` values of a `Result` or `Outcome`. Randomness becomes a parameter `draws`: the stream
of numbers the shuffle consumes.

## Model

| member | source | states |
|---|---|---|
| Cards.Value | src/main/java/com/example/proyecto3_/model/Cards/Card.java:59-82 | The value always lies in -10..10. An Ace is 10 exactly when the sum plus 10 stays within 50, and 1 otherwise, so an Ace never takes a sum below 50 past 50. An unknown rank counts 0. |
| Cards.NumeralValue | src/main/java/com/example/proyecto3_/model/Cards/Card.java:61-63 | A numeral rank parses to a number from 2 to 10 other than 9. |
| Cards.NumeralsAreWorthTheirNumber | src/main/java/com/example/proyecto3_/model/Cards/Card.java:61-63 | Ranks 2 to 8 and 10 are worth their number, whatever the table sum. |
| Cards.NineAndFacesIgnoreTheSum | src/main/java/com/example/proyecto3_/model/Cards/Card.java:65-69 | A 9 is worth 0 and J, Q and K are worth -10, whatever the table sum. |
| Cards.AceThreshold | src/main/java/com/example/proyecto3_/model/Cards/Card.java:71-77 | An Ace is 10 on a sum of at most 40 and 1 above it: 10 at 39, 1 at 45 and at 50. |
| Cards.EveryCardFitsUpToForty | src/main/java/com/example/proyecto3_/model/Cards/Card.java:59-82 | On a table of at most 40, every card keeps the sum within 50. |
| Cards.Card.constructor | src/main/java/com/example/proyecto3_/model/Cards/Card.java:16-20 | A new card keeps its rank and suit and lies face down. |
| Cards.Card.SetFaceUp | src/main/java/com/example/proyecto3_/model/Cards/Card.java:50-52 | Only the face-up flag changes; rank and suit are constants. |
| Decks.NextInt | src/main/java/com/example/proyecto3_/model/Deck/Deck.java:44 | Each random draw lies below its bound. |
| Decks.Swap | src/main/java/com/example/proyecto3_/model/Deck/Deck.java:44 | Two positions are exchanged and every other position is kept. |
| Decks.SwapIsPermutation | src/main/java/com/example/proyecto3_/model/Deck/Deck.java:44 | An exchange keeps the multiset of cards. |
| Decks.Shuffled | src/main/java/com/example/proyecto3_/model/Deck/Deck.java:42-47 | The library shuffle returns a permutation of its input. |
| Decks.DistinctHasNoRepeats | src/main/java/com/example/proyecto3_/model/Deck/Deck.java:28-36 | A pile with no two equal positions has every card exactly once. |
| Decks.StandardIsFull | src/main/java/com/example/proyecto3_/model/Deck/Deck.java:24-37 | The deck as built has 52 cards, each of a known rank and suit, with no two cards sharing both rank and suit. |
| Decks.FullDeckReordered | src/main/java/com/example/proyecto3_/model/Deck/Deck.java:15-19 | A reordering of a complete deck is still complete, so shuffling the new deck keeps it complete. |
| Decks.StandardHasEveryPair | src/main/java/com/example/proyecto3_/model/Deck/Deck.java:24-37 | The deck as built holds a card of every rank in every suit. |
| Decks.EveryPairReordered | src/main/java/com/example/proyecto3_/model/Deck/Deck.java:15-19 | A reordering keeps a card of every rank in every suit, so the shuffled new deck does too. |
| Decks.NewCards | src/main/java/com/example/proyecto3_/model/Deck/Deck.java:25-33 | The cards are built suit by suit, rank by rank, all new, different and face down. |
| Decks.AddSuit | src/main/java/com/example/proyecto3_/model/Deck/Deck.java:30-32 | One suit adds its 13 ranks in order as new, different, face-down cards. |
| Decks.Deck.constructor | src/main/java/com/example/proyecto3_/model/Deck/Deck.java:15-19 | A new deck is complete: 52 different cards, no two with the same rank and suit, and a card of every rank in every suit. All of them are new and face down. |
| Decks.Deck.InitializeDeck | src/main/java/com/example/proyecto3_/model/Deck/Deck.java:24-37 | The 52 cards are pushed in standard order on top of what was there. |
| Decks.Deck.Shuffle | src/main/java/com/example/proyecto3_/model/Deck/Deck.java:42-47 | The deck keeps the same cards with the same multiplicities, so also its size. |
| Decks.Deck.DrawCard | src/main/java/com/example/proyecto3_/model/Deck/Deck.java:53-58 | An empty deck yields null and stays empty. Otherwise the top card is returned and removed, and the rest is unchanged. |
| Decks.Deck.AddCard | src/main/java/com/example/proyecto3_/model/Deck/Deck.java:64-66 | The card goes on top. |
| Decks.Deck.AddCards | src/main/java/com/example/proyecto3_/model/Deck/Deck.java:72-76 | The cards are pushed in list order, so the last one ends on top. |
| Decks.Deck.IsEmpty | src/main/java/com/example/proyecto3_/model/Deck/Deck.java:82-84 | Empty exactly when the size is 0. |
| Decks.PushThenDraw | src/main/java/com/example/proyecto3_/model/Deck/Deck.java:53-66 | A card pushed is the next card drawn, and the deck is back as it was. |
| Decks.AbstractDeck.constructor | src/main/java/com/example/proyecto3_/model/Deck/AbstractDeck.java:17-19 | The base deck starts empty. |
| Decks.AbstractDeck.Shuffle | src/main/java/com/example/proyecto3_/model/Deck/AbstractDeck.java:28-33 | The same cards with the same multiplicities. |
| Decks.AbstractDeck.DrawCard | src/main/java/com/example/proyecto3_/model/Deck/AbstractDeck.java:36-41 | Null on an empty stack; otherwise the top card, popped. |
| Decks.AbstractDeck.AddCard | src/main/java/com/example/proyecto3_/model/Deck/AbstractDeck.java:44-46 | The card goes on top. |
| Decks.AbstractDeck.AddCards | src/main/java/com/example/proyecto3_/model/Deck/AbstractDeck.java:49-53 | Pushed in list order; the last ends on top. |
| Decks.AbstractDeck.IsEmpty | src/main/java/com/example/proyecto3_/model/Deck/AbstractDeck.java:56-58 | Empty exactly when the size is 0. |
| Decks.Shuffler.PerformShuffle | src/main/java/com/example/proyecto3_/model/Deck/AbstractDeck.java:73-77 | Delegates to the owner's shuffle: the owner keeps the same cards. |
| Players.FirstPlayable | src/main/java/com/example/proyecto3_/model/Player/Player.java:107-120 | The first position whose card keeps the sum within 50, with every earlier card unplayable. There is none exactly when no card of the hand is playable. |
| Players.IndexOf | src/main/java/com/example/proyecto3_/model/Player/Player.java:68-70 | The first position holding the card. |
| Players.RemoveFirst | src/main/java/com/example/proyecto3_/model/Player/Player.java:68-70 | Exactly the first occurrence goes and the rest keeps its order; a missing card changes nothing. |
| Players.Player.constructor | src/main/java/com/example/proyecto3_/model/Player/Player.java:21-26 | Keeps name and kind, with an empty hand and not eliminated. |
| Players.Player.AddCard | src/main/java/com/example/proyecto3_/model/Player/Player.java:56-61 | Appends the card. A human's card turns face up; a machine's keeps its face. |
| Players.Player.RemoveCard | src/main/java/com/example/proyecto3_/model/Player/Player.java:68-70 | Returns true exactly when that card object was in the hand, and removes its first occurrence. |
| Players.Player.Eliminate | src/main/java/com/example/proyecto3_/model/Player/Player.java:83-85 | Sets the flag (so a second call changes nothing) and keeps the hand. |
| Players.Player.CanPlay | src/main/java/com/example/proyecto3_/model/Player/Player.java:92-100 | True exactly when some card of the hand keeps the sum within 50; false for an empty hand. |
| Players.Player.SelectCard | src/main/java/com/example/proyecto3_/model/Player/Player.java:107-120 | Null for a human. For a machine, non-null exactly when it can play, and then the first playable card in hand order. |
| Players.Player.ClearHand | src/main/java/com/example/proyecto3_/model/Player/Player.java:126-130 | Returns the former hand in order and empties it. |
| Players.SelectionIsFirstPlayable | src/main/java/com/example/proyecto3_/model/Player/Player.java:113-119 | The card a machine selects is the one FirstPlayable names. |
| Players.AbstractPlayer.constructor | src/main/java/com/example/proyecto3_/model/Player/AbstractPlayer.java:24-29 | Empty hand, not eliminated, given name and kind. |
| Players.AbstractPlayer.AddCard | src/main/java/com/example/proyecto3_/model/Player/AbstractPlayer.java:47-52 | Appends; face up for a human only. |
| Players.AbstractPlayer.RemoveCard | src/main/java/com/example/proyecto3_/model/Player/AbstractPlayer.java:55-57 | Whether the card was present; its first occurrence goes. |
| Players.AbstractPlayer.Eliminate | src/main/java/com/example/proyecto3_/model/Player/AbstractPlayer.java:65-67 | Sets the flag. |
| Players.AbstractPlayer.ClearHand | src/main/java/com/example/proyecto3_/model/Player/AbstractPlayer.java:70-74 | The former hand in order; the hand is left empty. |
| Players.HandIterator.constructor | src/main/java/com/example/proyecto3_/model/Player/AbstractPlayer.java:79-80 | The cursor starts at position 0. |
| Players.HandIterator.HasNext | src/main/java/com/example/proyecto3_/model/Player/AbstractPlayer.java:83-85 | More cards exactly while the cursor is inside the hand. |
| Players.HandIterator.Next | src/main/java/com/example/proyecto3_/model/Player/AbstractPlayer.java:88-90 | The card at the cursor, and the cursor moves on. Past the end it yields no card. |
| Players.WalkHand | src/main/java/com/example/proyecto3_/model/Player/AbstractPlayer.java:79-91 | Iterating a fresh cursor yields the whole hand once, in order. HasNext is false after as many steps as there are cards. |
| Game.MarkWinnerIdempotent | src/main/java/com/example/proyecto3_/model/Game/GameModel.java:64 | Marking the winner twice equals marking once, and it changes no other counter. |
| Game.CountersBumpOne | src/main/java/com/example/proyecto3_/model/Game/GameModel.java:62-63 | Counting a play or a turn adds one to that counter of that player only. A name without counters changes nothing. |
| Game.SeatNamesDistinct | src/main/java/com/example/proyecto3_/model/Game/GameModel.java:101-113 | No two seats share a name, so per-player counters never mix. |
| Game.NewSeats | src/main/java/com/example/proyecto3_/model/Game/GameModel.java:101-113 | "You" (human) first, then "Bot 1".."Bot n" (machines). All are new, with empty hands, in play, and with zeroed counters under their names. |
| Game.InPlay | src/main/java/com/example/proyecto3_/model/Game/GameModel.java:346-351 | The count of seats in play is at most the number of seats. |
| Game.InPlayCounts | src/main/java/com/example/proyecto3_/model/Game/GameModel.java:346-351 | The count of seats in play is the number of seats whose elimination flag is false. |
| Game.InPlayStep | src/main/java/com/example/proyecto3_/model/Game/GameModel.java:347-351 | Counting one more seat adds one exactly when it is in play. |
| Game.InPlayEliminate | src/main/java/com/example/proyecto3_/model/Game/GameModel.java:334 | Eliminating a seat in play removes one seat from play; eliminating it again changes nothing. |
| Game.NoneInPlay | src/main/java/com/example/proyecto3_/model/Game/GameModel.java:345-353 | No seat in play exactly when every seat is eliminated. |
| Game.AtMostOneInPlay | src/main/java/com/example/proyecto3_/model/Game/GameModel.java:345-353 | At most one seat in play exactly when any two seats in play are the same seat. |
| Game.FirstInPlay | src/main/java/com/example/proyecto3_/model/Game/GameModel.java:364-373 | The first seat in play, all seats before it eliminated; none only when all are. |
| Game.LastStanding | src/main/java/com/example/proyecto3_/model/Game/GameModel.java:359-375 | Once the game is over, the first seat in play is the only one. There is none exactly when every seat is out. |
| Game.FirstInPlayAt | src/main/java/com/example/proyecto3_/model/Game/GameModel.java:364-365 | A seat in play after only eliminated seats is the first in play. |
| Game.Survivors | src/main/java/com/example/proyecto3_/model/Game/GameModel.java:312-314 | The players in play, filtered in order, are no more than all players. |
| Game.SurvivorsAre | src/main/java/com/example/proyecto3_/model/Game/GameModel.java:308-315 | There are as many survivors as seats in play, and every seat in play is among them. |
| Game.SurvivorsFirst | src/main/java/com/example/proyecto3_/model/Game/GameModel.java:309-313 | A first item still in play heads the survivors. |
| Game.Rotated | src/main/java/com/example/proyecto3_/model/Game/GameModel.java:310 | A rotation keeps the length. |
| Game.RotatedAt | src/main/java/com/example/proyecto3_/model/Game/GameModel.java:310 | Position i of the rotation by k is seat (k + i) mod n. |
| Game.RotatedInPlay | src/main/java/com/example/proyecto3_/model/Game/GameModel.java:309-315 | A rotation keeps the number of seats in play. |
| Game.InPlayAppend | src/main/java/com/example/proyecto3_/model/Game/GameModel.java:346-351 | The count of two parts is the count of the whole. |
| Game.TurnOrderFrom | src/main/java/com/example/proyecto3_/model/Game/GameModel.java:308-315 | The rebuilt queue holds exactly as many players as are in play, every one of them, and starts at the current seat when it is in play. |
| Game.Seat | src/main/java/com/example/proyecto3_/model/Game/GameModel.java:305 | The seat reached going forward stays a seat. |
| Game.SeatStep | src/main/java/com/example/proyecto3_/model/Game/GameModel.java:305 | One step of (index + 1) mod n moves one seat further round the table. |
| Game.SeatAfterGap | src/main/java/com/example/proyecto3_/model/Game/GameModel.java:304-306 | Going forward by the gap between two seats arrives at the second. |
| Game.GapOfSeat | src/main/java/com/example/proyecto3_/model/Game/GameModel.java:304-306 | The gap to the seat e steps on is e. |
| Game.PassesToUnique | src/main/java/com/example/proyecto3_/model/Game/GameModel.java:304-306 | The seat the turn passes to is determined by the flags and the departing seat. |
| Game.RoundNotDone | src/main/java/com/example/proyecto3_/model/Game/GameModel.java:304-306 | While some seat is in play, the loop meets one before completing a full round. |
| Game.DrawnIsProduct | src/main/java/com/example/proyecto3_/model/Game/GameModel.java:125-132 | Dealing rounds of one card to n seats draws rounds times n cards. |
| Game.DealtStep | src/main/java/com/example/proyecto3_/model/Game/GameModel.java:125-132 | A further round adds one more draw to a seat's cards. |
| Game.RoundSoFar | src/main/java/com/example/proyecto3_/model/Game/GameModel.java:126-131 | A partial round keeps the number of hands. |
| Game.RoundSoFarStep | src/main/java/com/example/proyecto3_/model/Game/GameModel.java:126-131 | Serving seat j adds the next draw to its hand and changes no other hand. |
| Game.DealtSoFar | src/main/java/com/example/proyecto3_/model/Game/GameModel.java:125-132 | Dealing keeps the number of hands. |
| Game.RoundDealt | src/main/java/com/example/proyecto3_/model/Game/GameModel.java:125-132 | A round that continues where the previous rounds left off completes one more round for every seat. |
| Game.NextDraw | src/main/java/com/example/proyecto3_/model/Game/GameModel.java:127 | A draw takes the top card of what is left, and a draw from an empty pile takes nothing. |
| Game.DrawnMono | src/main/java/com/example/proyecto3_/model/Game/GameModel.java:125-132 | More rounds of the deal draw no fewer cards. |
| Game.TakenFromPile | src/main/java/com/example/proyecto3_/model/Game/GameModel.java:125-138 | The cards that draws take from what is left of the deck are cards of the deck. |
| Game.TakenInRound | src/main/java/com/example/proyecto3_/model/Game/GameModel.java:126-131 | The draw of one seat in a round is one of the round's draws. |
| Game.TakenWithin | src/main/java/com/example/proyecto3_/model/Game/GameModel.java:125-132 | The draws of one round, or of one seat's turn, take cards that the whole deal takes. |
| Game.FirstDeal | src/main/java/com/example/proyecto3_/model/Game/GameModel.java:124-140 | Dealing from a complete deck to 2..4 empty hands gives four cards each, with one card left to turn up and 52 - 4n before it. |
| Game.PlayVerdict | src/main/java/com/example/proyecto3_/model/Game/GameModel.java:194-213 | A play passes exactly when the card is non-null, in the hand, and keeps the sum within 50. The faults are checked in that order. |
| Game.PooledSize | src/main/java/com/example/proyecto3_/model/Game/GameModel.java:119-140 | The pooled hands hold as many cards as the hands together. |
| Game.PooledUpdate | src/main/java/com/example/proyecto3_/model/Game/GameModel.java:215-218 | Replacing one hand replaces its cards in the pool and nothing else. |
| Game.Census | src/main/java/com/example/proyecto3_/model/Game/GameModel.java:119-140 | Deck, hands and table pooled are the deck's, the hands' and the table's cards. |
| Game.DeckNotHeld | src/main/java/com/example/proyecto3_/model/Game/GameModel.java:119-140 | With every card held once, no card of the deck is in a hand. |
| Game.DeckApart | src/main/java/com/example/proyecto3_/model/Game/GameModel.java:119-140 | With every card held once, no card lies at two positions of the deck. |
| Game.TopApart | src/main/java/com/example/proyecto3_/model/Game/GameModel.java:127-138 | With every card held once, the top card of the deck lies at no other position of it. |
| Game.KeptDealt | src/main/java/com/example/proyecto3_/model/Game/GameModel.java:125-132 | Dealing the top card to a seat keeps nothing new. A card kept afterwards is a card left in the pile, a card already held, or the dealt card when it goes to a machine. |
| Game.MachinesKept | src/main/java/com/example/proyecto3_/model/Game/GameModel.java:125-132 | Every card of a machine's seat is a kept card. |
| Game.TableApart | src/main/java/com/example/proyecto3_/model/Game/GameModel.java:263-277 | With every card held once, the table's cards are all different and none of them is in a hand. |
| Game.MultiplicityOneDistinct | src/main/java/com/example/proyecto3_/model/Game/GameModel.java:263-277 | A pile whose cards are each held once has no two equal positions. |
| Game.RecycledTop | src/main/java/com/example/proyecto3_/model/Game/GameModel.java:249-254 | The top card of a deck refilled from all but the last table card is one of those table cards. |
| Game.MoveTopToHand | src/main/java/com/example/proyecto3_/model/Game/GameModel.java:252-254 | Moving the deck's top card into a hand keeps the 52 cards in play. |
| Game.MoveTopToTable | src/main/java/com/example/proyecto3_/model/Game/GameModel.java:135-138 | Moving the deck's top card onto the table keeps the 52 cards in play. |
| Game.MoveHandToTable | src/main/java/com/example/proyecto3_/model/Game/GameModel.java:215-222 | Moving a card from a hand to the table keeps the 52 cards in play. |
| Game.MoveHandToDeck | src/main/java/com/example/proyecto3_/model/Game/GameModel.java:330-331 | Emptying a hand onto the deck keeps the 52 cards in play. |
| Game.RecycleTable | src/main/java/com/example/proyecto3_/model/Game/GameModel.java:271-286 | Moving all but the last table card into the deck, in any order, keeps the 52 cards in play. |
| Game.FiftyTwoInPlay | src/main/java/com/example/proyecto3_/model/Game/GameModel.java:119-140 | Deck size plus hand sizes plus table size is 52, and every card lies in exactly one place. |
| Game.FullDeckCensus | src/main/java/com/example/proyecto3_/model/Deck/Deck.java:15-37 | A complete deck holds 52 cards, each exactly once. |
| Game.GameModel.GetCurrentPlayer | src/main/java/com/example/proyecto3_/model/Game/GameModel.java:155-160 | The player at the current index. InvalidGameState exactly when the index is not a seat, which the invariant rules out. |
| Game.GameModel.constructor | src/main/java/com/example/proyecto3_/model/Game/GameModel.java:88-113 | A valid game with a new complete deck and numBots + 1 new seats. Hands and table are empty, the sum is 0, the human plays first, the queue is every seat, and every counter is zero. |
| Game.GameModel.InitiallyValid | src/main/java/com/example/proyecto3_/model/Game/GameModel.java:88-113 | Seats, a complete deck, empty hands and table, and zero counters make a valid game. |
| Game.GameModel.Create | src/main/java/com/example/proyecto3_/model/Game/GameModel.java:83-114 | IllegalArgument exactly when numBots is outside 1..3. Otherwise a new valid game in the initial state: a new complete deck of new face-down cards, numBots + 1 new seats with empty hands and in play, an empty table, sum 0, the human first, the queue holding every seat, and zero counters. |
| Game.GameModel.CardsAccountedFor | src/main/java/com/example/proyecto3_/model/Game/GameModel.java:119-140 | In every valid state the deck, hands and table hold 52 cards together, each card in exactly one place. |
| Game.GameModel.Start | src/main/java/com/example/proyecto3_/model/Game/GameModel.java:119-141 | Four rounds deal one card per seat in seat order while the deck lasts, and the hands become DealtSoFar of the deck. The next card goes face up on the table, and the sum becomes its value at 0. Every card dealt to the human is face up. Every card of a machine's seat is a card of the old pile or hands and keeps its flag. The kept cards (the pile, the machines' seats and the human's earlier cards) are kept cards from before and keep their flags. The game stays valid. |
| Game.GameModel.DealAll | src/main/java/com/example/proyecto3_/model/Game/GameModel.java:124-132 | The four rounds: the hands become DealtSoFar of the deck, the deck loses 4n cards, and every card dealt to the human is face up. The kept cards afterwards were kept before and keep their flags, so a machine's dealt card keeps its flag. |
| Game.GameModel.TurnUp | src/main/java/com/example/proyecto3_/model/Game/GameModel.java:134-140 | After the deal, the next card of the deck goes face up on the table and sets the sum. The hands stay as they are, and no card in a hand or left in the pile is turned over: the kept cards keep their flags. The human's dealt cards stay face up. |
| Game.GameModel.DealFourRounds | src/main/java/com/example/proyecto3_/model/Game/GameModel.java:125-132 | The outer loop: after four rounds the hands are DealtSoFar of the deck and the deck has lost 4n cards. The cards are conserved, the human's new cards are face up, and no field of the game changes. The kept cards afterwards (the pile, the machines' seats, the human's earlier cards) were kept before and keep their flags. |
| Game.GameModel.DealNextRound | src/main/java/com/example/proyecto3_/model/Game/GameModel.java:125-132 | One pass of the outer loop completes one more round, with the cards conserved, the human's new cards face up, and every kept card kept before and with its flag. |
| Game.GameModel.DealRound | src/main/java/com/example/proyecto3_/model/Game/GameModel.java:126-131 | The inner loop: one card to each seat in seat order, the deck at RestInRound, and the human's new card face up. The kept cards afterwards were kept before and keep their flags. Only the round's cards can be turned over. |
| Game.GameModel.DealStep | src/main/java/com/example/proyecto3_/model/Game/GameModel.java:127-130 | Seat j receives the next draw, if the deck has one. The human's cards stay face up, and every kept card afterwards was kept before and keeps its flag, so a machine's new card keeps its flag. Only that card can be turned over. |
| Game.GameModel.DealTo | src/main/java/com/example/proyecto3_/model/Game/GameModel.java:127-130 | On an empty deck, null and nothing changes. Otherwise the top card leaves the deck and joins seat j's hand, face up for the human and with its flag kept for a machine. No card already in a hand is turned over, and every kept card afterwards was kept before and keeps its flag. |
| Game.GameModel.DrawDealt | src/main/java/com/example/proyecto3_/model/Game/GameModel.java:127-130 | DealTo's draw from a deck that holds a card: the top card joins seat j's hand, face up for the human and with its flag kept for a machine. No card in a hand is turned over, and every kept card afterwards was kept before and keeps its flag. |
| Game.GameModel.DrawInto | src/main/java/com/example/proyecto3_/model/Game/GameModel.java:127-130 | From a deck that holds a card: the top card leaves the deck and joins seat j's hand, face up for the human and with its flag kept for a machine, with the cards conserved. No card already in a hand is turned over. |
| Game.GameModel.TurnUpFirstCard | src/main/java/com/example/proyecto3_/model/Game/GameModel.java:135-140 | The top card, if any, goes face up on the table and the sum becomes its value at 0. On an empty deck nothing changes. No card in a hand or left in the deck is turned over. |
| Game.GameModel.DrawToTable | src/main/java/com/example/proyecto3_/model/Game/GameModel.java:135-138 | The top card, if any, moves onto the table with the cards conserved. |
| Game.GameModel.GetTopCard | src/main/java/com/example/proyecto3_/model/Game/GameModel.java:182-187 | Null exactly when the table is empty, otherwise the last card played. |
| Game.GameModel.IsGameOver | src/main/java/com/example/proyecto3_/model/Game/GameModel.java:345-353 | True exactly when at most one seat is in play. |
| Game.GameModel.GetWinner | src/main/java/com/example/proyecto3_/model/Game/GameModel.java:359-375 | Null with nothing marked while the game goes on. Once it is over, the first seat in play, with only its counters marked as the winner's. |
| Game.GameModel.NextTurn | src/main/java/com/example/proyecto3_/model/Game/GameModel.java:295-316 | One more turn in the game's and the departing player's counters. The turn passes to the next seat in play (to the next seat once the game is over). The queue becomes the seats in play from the new seat. The game stays valid. |
| Game.GameModel.SeatAfter | src/main/java/com/example/proyecto3_/model/Game/GameModel.java:304-306 | The do-while ends on a seat, and the turn passes from the given seat to that seat. |
| Game.GameModel.QueueFrom | src/main/java/com/example/proyecto3_/model/Game/GameModel.java:308-315 | The rebuilt queue is the seats in play, read round the table from the given seat. |
| Game.GameModel.PlayCard | src/main/java/com/example/proyecto3_/model/Game/GameModel.java:194-231 | A null card, a card not in the hand, or a sum past 50 is refused with nothing changed, the card keeping its flag. Otherwise the card leaves the hand and goes face up on the table, the sum grows by its value, and both cardsPlayed counters grow by one. Only the played card can be turned over. The turn stays. |
| Game.GameModel.PlayGiven | src/main/java/com/example/proyecto3_/model/Game/GameModel.java:199-231 | The same outcomes as PlayCard once the card is known to be non-null: NotInHand with nothing changed when the current player does not hold it, and otherwise the outcome of PlayHeld. The turn stays. |
| Game.GameModel.PlayHeld | src/main/java/com/example/proyecto3_/model/Game/GameModel.java:206-231 | The same outcomes as PlayCard for a card the current player holds: OverLimit with nothing changed when the sum would pass 50, and otherwise the card is played and scored. The turn stays. |
| Game.GameModel.PlayChecked | src/main/java/com/example/proyecto3_/model/Game/GameModel.java:215-230 | A play that passed the checks: the card leaves the hand, goes face up on the table and is scored, keeping the game valid. Only that card can be turned over. |
| Game.GameModel.HandToTable | src/main/java/com/example/proyecto3_/model/Game/GameModel.java:215-222 | The card leaves the current hand and goes face up on the table, keeping the game valid. Only that card can be turned over. |
| Game.GameModel.DrawCard | src/main/java/com/example/proyecto3_/model/Game/GameModel.java:238-258 | DeckEmpty exactly when the deck is empty and the table holds at most one card; then nothing changes. Otherwise the top card goes to the current hand, face up for the human and with its flag kept for a machine. After a refill, the table keeps only its last card, the deck plus the drawn card are the other table cards, every one of them but the drawn card is face down, and the sum stays. Only the drawn card, or the recycled cards, can be turned over. |
| Game.GameModel.RefillThenDraw | src/main/java/com/example/proyecto3_/model/Game/GameModel.java:240-257 | The empty-deck path: DeckEmpty with nothing changed exactly when the table holds at most one card. Otherwise the table keeps its last card and the deck plus the drawn card are the other table cards. All of them but the drawn card are face down, the drawn card is face up exactly for the human, and it joins the current hand. |
| Game.GameModel.DrawRecycled | src/main/java/com/example/proyecto3_/model/Game/GameModel.java:252-256 | The draw after a refill from the table T: the deck plus the drawn card are all but the last of T, and those cards but the drawn one stay face down. The drawn card is face up exactly for the human and joins the current hand. |
| Game.GameModel.DrawForCurrent | src/main/java/com/example/proyecto3_/model/Game/GameModel.java:252-256 | The top card leaves the deck and joins the current player's hand, face up for the human and with its flag kept for a machine. It is the only card that can be turned over. |
| Game.GameModel.RecycleDeck | src/main/java/com/example/proyecto3_/model/Game/GameModel.java:263-290 | A table of at most one card is left alone. Otherwise all but the last card go face down into the deck, which is shuffled, and the table keeps its last card. That card and every card in a hand keep their flags. |
| Game.GameModel.TableFaceDown | src/main/java/com/example/proyecto3_/model/Game/GameModel.java:272-277 | All table cards but the last are turned face down and returned in table order. The last table card and every card in a hand keep their flags. |
| Game.GameModel.RefillDeck | src/main/java/com/example/proyecto3_/model/Game/GameModel.java:279-286 | The table keeps its last card; the deck gains the others. |
| Game.GameModel.TurnDown | src/main/java/com/example/proyecto3_/model/Game/GameModel.java:273-277 | The loop: every table card but the last face down, collected in order. Only those cards can be turned over. |
| Game.GameModel.EliminateCurrentPlayer | src/main/java/com/example/proyecto3_/model/Game/GameModel.java:322-339 | A player who can still play gets InvalidGameState with nothing changed. Otherwise the hand goes onto the deck, the seat is flagged out, playersEliminated grows by one, and the outcome is always NoValidCard with the player's name. |
| Game.GameModel.HandToDeck | src/main/java/com/example/proyecto3_/model/Game/GameModel.java:330-331 | The current hand goes onto the deck in order and is emptied. |
| Game.GameModel.MarkEliminated | src/main/java/com/example/proyecto3_/model/Game/GameModel.java:334-335 | The current seat is flagged out and counted. |
| Game.NewGameStarted | src/main/java/com/example/proyecto3_/model/Game/GameModel.java:83-140 | A started new game: four cards per seat, every card of the human's hand face up, one face-up table card whose value at 0 is the sum, and 51 - 4n cards in the deck. |
| Game.StartNew | src/main/java/com/example/proyecto3_/model/Game/GameModel.java:119-140 | Start on a game as the constructor leaves it: four cards per seat, every card of the human's hand face up, one face-up table card whose value at 0 is the sum, and 51 - 4n cards in the deck. |
| Config.GameConfig.constructor | src/main/java/com/example/proyecto3_/model/Game/GameConfig.java:14-16 | The default is one machine. |
| Config.GameConfig.SetNumBots | src/main/java/com/example/proyecto3_/model/Game/GameConfig.java:30-35 | Values outside 1..3 are refused with IllegalArgument and the stored value stays. Others are stored. The value stays within 1..3. |
| Config.GameConfig.GetNumBots | src/main/java/com/example/proyecto3_/model/Game/GameConfig.java:41-43 | The stored value, which is within 1..3. |
| Config.SetThenGet | src/main/java/com/example/proyecto3_/model/Game/GameConfig.java:30-43 | A value accepted by the setter is what the getter returns. |

## Left out

- The user interface and its threads (controllers, views, the application entry point) are not part of the engine.
- Console output (the progress messages of drawCard and recycleDeck, and printPlayerStats) has no effect on the state and is left out.
- Randomness: the shuffle's random number generator is the parameter `draws`. The shuffle is specified only as a permutation.
- Display strings (toString of cards and of per-player counters) are left out.
- Java's 32-bit int: the table sum and the counters are unbounded integers. A play changes the sum by at most 10, the sum never passes 50, and the counters grow by one per action, so wrap-around is out of reach in any real game. As in the source, the sum has no lower bound.
- The counters are values held in fields. The aliasing of the counter objects that getStats and getPlayerStats return, and the copy getAllPlayerStats makes, are not modelled.
- The plain getters (getStats, getPlayers, getTableSum, getDeckSize, isDeckEmpty, getPlayerStats, getAllPlayerStats, getName, getHand, isMachine, isEliminated, getRank, getSuit, isFaceUp, size, getCards) are reads of the fields of the classes above.
- The process-wide single configuration instance and its holder class are left out; the configuration is a plain object.
- Game.GameModel.Start: its guard against an empty seat list is not modelled, because every game has two to four seats.
- Game.GameModel.PlayCard: the "failed to remove" branch cannot be reached after the membership check, so it is an assertion.
- Game.GameModel.PlayCard and Game.GameModel.NextTurn compute the new counters before they move cards or seats. They then store the new values in one step, as the source's in-place updates do one by one.
- Game.GameModel.DrawCard returns a card that is never null. The deck is non-empty at the draw, so the source's null check after the draw cannot fail.
- Game.GameModel.DrawCard: in the recycled case the face-down claim covers every recycled card except the drawn card. A human's drawn card is turned face up again when it enters the hand.
- Game.GameModel.Start and the other operations on the game state promise only through their frames that a card outside the frame keeps its face-up flag; no `ensures` repeats the frame. Within the frame the flags are explicit: the cards in hands, the card kept on the table, the drawn or played card, and for the deal the kept cards (the pile, the machines' seats and the human's earlier cards).
- Game.NewGameStarted does not restate that the machines' cards are face down. That follows from the constructor's face-down deck and Start's clause for the machines' seats.
- Game.GameModel.DealNextRound: its frame is every card of the four-round deal, not only the cards of its own round. DealRound's and DealStep's frames are exact.
- Game.GameModel.DealAll and the deal methods (Game.GameModel.DealTo and the rest) deal to every seat whatever its flag, as the source does.
- The interfaces ICard, IDeck and IPlayer and the exception classes have no behaviour. The exceptions are the `GameError` values.
- Players.HandIterator.Next past the end yields no card, where the source's list lookup throws.
