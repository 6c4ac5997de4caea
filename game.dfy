/**
 * The rules engine: one human ("You") and one to three machines ("Bot 1" ..)
 * take turns playing cards onto a table whose running sum must never pass
 * 50, drawing from a deck that is refilled from the table when it runs out,
 * and dropping out when they hold no playable card; the last one left wins.
 *
 * The engine's state lives in a GameModel object. Its invariant, Valid(),
 * says among other things that the 52 cards are all present exactly once
 * across the deck, the hands and the table, and that the table sum is at most
 * 50. Every operation keeps it.
 */
module Game {
  import opened Cards
  import opened Decks
  import opened Players

  /** Why a play was refused. */
  datatype MoveFault = NullCard | NotInHand | OverLimit

  /** The engine's signals, one per exception class of the engine. */
  datatype GameError =
    | InvalidMove(fault: MoveFault)
    | DeckEmpty
    | NoValidCard(playerName: string)
    | InvalidGameState
    | IllegalArgument

  datatype Result<T> = Ok(value: T) | Err(error: GameError)

  datatype Outcome = Pass | Fail(error: GameError)

  /** Counters for the whole game. */
  datatype GameStats = GameStats(totalTurns: nat, cardsPlayed: nat, playersEliminated: nat)

  /** Counters for one player, looked up by the player's name. */
  datatype PlayerGameStats = PlayerGameStats(cardsPlayed: nat, turnsPlayed: nat, isWinner: bool)

  const NoGameStats := GameStats(0, 0, 0)
  const NoPlayerStats := PlayerGameStats(0, 0, false)

  /** One more card played by `name`, if `name` has counters. */
  function CountPlay(m: map<string, PlayerGameStats>, name: string): map<string, PlayerGameStats>
  {
    if name in m then m[name := m[name].(cardsPlayed := m[name].cardsPlayed + 1)] else m
  }

  /** One more turn taken by `name`, if `name` has counters. */
  function CountTurn(m: map<string, PlayerGameStats>, name: string): map<string, PlayerGameStats>
  {
    if name in m then m[name := m[name].(turnsPlayed := m[name].turnsPlayed + 1)] else m
  }

  /** `name` marked as the winner, if `name` has counters. */
  function MarkWinner(m: map<string, PlayerGameStats>, name: string): map<string, PlayerGameStats>
  {
    if name in m then m[name := m[name].(isWinner := true)] else m
  }

  /** Marking the winner twice is marking it once; the other counters stay. */
  lemma MarkWinnerIdempotent(m: map<string, PlayerGameStats>, name: string)
    ensures MarkWinner(MarkWinner(m, name), name) == MarkWinner(m, name)
    ensures MarkWinner(m, name).Keys == m.Keys
    ensures forall k :: k in m ==>
      MarkWinner(m, name)[k].cardsPlayed == m[k].cardsPlayed && MarkWinner(m, name)[k].turnsPlayed == m[k].turnsPlayed
  {
  }

  /**
   * Counting a play or a turn for a player with counters adds one to that
   * count of that player only; a name without counters changes nothing.
   */
  lemma CountersBumpOne(m: map<string, PlayerGameStats>, name: string)
    ensures CountPlay(m, name).Keys == m.Keys && CountTurn(m, name).Keys == m.Keys
    ensures name in m ==> && CountPlay(m, name)[name] == m[name].(cardsPlayed := m[name].cardsPlayed + 1)
                          && CountTurn(m, name)[name] == m[name].(turnsPlayed := m[name].turnsPlayed + 1)
    ensures forall k :: k in m && k != name ==> CountPlay(m, name)[k] == m[k] && CountTurn(m, name)[k] == m[k]
  {
  }

  /** The name of the i-th machine. */
  function BotName(i: nat): string
    requires 1 <= i <= 9
  {
    "Bot " + [('0' as int + i) as char]
  }

  /** The seats: the human "You" first, then machines "Bot 1", "Bot 2", .. */
  predicate Seated(ps: seq<Player>)
  {
    && 2 <= |ps| <= 4
    && ps[0].name == "You" && !ps[0].isMachine
    && (forall i :: 1 <= i < |ps| ==> ps[i].name == BotName(i) && ps[i].isMachine)
  }

  /** The names of the seated players. */
  function NamesOf(ps: seq<Player>): set<string>
  {
    set p | p in ps :: p.name
  }

  /** No two seats share a name, so per-player counters never mix. */
  lemma SeatNamesDistinct(ps: seq<Player>)
    requires Seated(ps)
    ensures forall i, j :: 0 <= i < j < |ps| ==> ps[i].name != ps[j].name
  {
    forall i, j | 0 <= i < j < |ps| ensures ps[i].name != ps[j].name {
      if i == 0 {
        assert ps[i].name[0] != ps[j].name[0];
      } else {
        assert ps[i].name[4] != ps[j].name[4];
      }
    }
  }

  /** All the cards of several hands together. */
  function Pooled(hs: seq<seq<Card>>): multiset<Card>
  {
    if hs == [] then multiset{} else Pooled(hs[..|hs| - 1]) + multiset(hs[|hs| - 1])
  }

  /** The number of cards in several hands. */
  function TotalSize(hs: seq<seq<Card>>): nat
  {
    if hs == [] then 0 else TotalSize(hs[..|hs| - 1]) + |hs[|hs| - 1]|
  }

  /** Pooling hands loses and adds no card. */
  lemma {:induction false} PooledSize(hs: seq<seq<Card>>)
    ensures |Pooled(hs)| == TotalSize(hs)
  {
    if hs != [] {
      PooledSize(hs[..|hs| - 1]);
    }
  }

  /** Hands that are all empty pool to nothing. */
  lemma {:induction false} PooledEmpty(hs: seq<seq<Card>>)
    requires forall i :: 0 <= i < |hs| ==> hs[i] == []
    ensures Pooled(hs) == multiset{}
  {
    if hs != [] {
      PooledEmpty(hs[..|hs| - 1]);
    }
  }

  /** Replacing one hand replaces its cards in the pool and nothing else. */
  lemma {:induction false} PooledUpdate(hs: seq<seq<Card>>, i: nat, h: seq<Card>)
    requires i < |hs|
    ensures multiset(hs[i]) <= Pooled(hs)
    ensures Pooled(hs[i := h]) == Pooled(hs) - multiset(hs[i]) + multiset(h)
  {
    var n := |hs|;
    if i == n - 1 {
      assert hs[i := h][..n - 1] == hs[..n - 1];
    } else {
      PooledUpdate(hs[..n - 1], i, h);
      assert hs[i := h][..n - 1] == hs[..n - 1][i := h];
    }
  }

  /** An element found at two positions occurs at least twice. */
  lemma TwoPositions(s: seq<Card>, i: nat, j: nat)
    requires i < j < |s| && s[i] == s[j]
    ensures multiset(s)[s[i]] >= 2
  {
    assert s == s[..j] + [s[j]] + s[j + 1..];
    assert s[i] in s[..j];
  }

  /** A sequence whose multiset repeats nothing has no two equal positions. */
  lemma MultiplicityOneDistinct(s: seq<Card>, pool: multiset<Card>)
    requires multiset(s) <= pool
    requires forall c :: c in pool ==> pool[c] == 1
    ensures forall i, j :: 0 <= i < j < |s| ==> s[i] != s[j]
  {
    forall i, j | 0 <= i < j < |s| && s[i] == s[j] ensures false {
      TwoPositions(s, i, j);
    }
  }

  /** The number of seats still in play, given the seats' elimination flags. */
  function InPlay(E: seq<bool>): (n: nat)
    ensures n <= |E|
  {
    if E == [] then 0 else InPlay(E[..|E| - 1]) + (if E[|E| - 1] then 0 else 1)
  }

  /** The seats in play are the seats whose elimination flag is false. */
  lemma {:induction false} InPlayCounts(E: seq<bool>)
    ensures InPlay(E) == multiset(E)[false]
  {
    if E != [] {
      InPlayCounts(E[..|E| - 1]);
      assert E == E[..|E| - 1] + [E[|E| - 1]];
    }
  }

  /** Counting the flags of a prefix one position further. */
  lemma InPlayStep(E: seq<bool>, i: nat)
    requires i < |E|
    ensures InPlay(E[..i + 1]) == InPlay(E[..i]) + (if E[i] then 0 else 1)
  {
    assert E[..i + 1][..i] == E[..i];
  }

  /** Eliminating a seat in play leaves one seat fewer in play; eliminating it again changes nothing. */
  lemma {:induction false} InPlayEliminate(E: seq<bool>, q: nat)
    requires q < |E|
    ensures InPlay(E[q := true]) == if E[q] then InPlay(E) else InPlay(E) - 1
  {
    var n := |E|;
    if q < n - 1 {
      InPlayEliminate(E[..n - 1], q);
      assert E[q := true][..n - 1] == E[..n - 1][q := true];
    } else {
      assert E[q := true][..n - 1] == E[..n - 1];
    }
  }

  /** Nobody is in play exactly when every seat is eliminated. */
  lemma {:induction false} NoneInPlay(E: seq<bool>)
    ensures InPlay(E) == 0 <==> forall i :: 0 <= i < |E| ==> E[i]
  {
    if E != [] {
      var n := |E|;
      NoneInPlay(E[..n - 1]);
      assert forall i :: 0 <= i < n - 1 ==> E[..n - 1][i] == E[i];
    }
  }

  /** At most one seat in play means: any two seats in play are the same seat. */
  lemma {:induction false} AtMostOneInPlay(E: seq<bool>)
    ensures InPlay(E) <= 1 <==> forall i, j :: 0 <= i < |E| && 0 <= j < |E| && !E[i] && !E[j] ==> i == j
  {
    if E != [] {
      var n := |E|;
      var init := E[..n - 1];
      AtMostOneInPlay(init);
      NoneInPlay(init);
      assert forall i :: 0 <= i < n - 1 ==> init[i] == E[i];
    }
  }

  /** The first seat still in play, if any: every seat before it is eliminated. */
  function FirstInPlay(E: seq<bool>): (r: Option<nat>)
    ensures r.Some? ==> r.value < |E| && !E[r.value] && forall k :: 0 <= k < r.value ==> E[k]
    ensures r.None? ==> forall k :: 0 <= k < |E| ==> E[k]
  {
    if E == [] then None
    else if !E[0] then Some(0)
    else
      match FirstInPlay(E[1..])
      case None =>
        assert forall k :: 1 <= k < |E| ==> E[k] == E[1..][k - 1];
        None
      case Some(i) => Some(i + 1)
  }

  /**
   * Once at most one seat is in play, the first seat in play is the only one,
   * and there is none exactly when every seat is eliminated.
   */
  lemma LastStanding(E: seq<bool>)
    requires InPlay(E) <= 1
    ensures FirstInPlay(E).None? <==> InPlay(E) == 0
    ensures FirstInPlay(E).Some? ==> forall i :: 0 <= i < |E| && !E[i] ==> i == FirstInPlay(E).value
  {
    NoneInPlay(E);
    AtMostOneInPlay(E);
  }

  /** The first seat in play is the one with only eliminated seats before it. */
  lemma FirstInPlayAt(E: seq<bool>, i: nat)
    requires i < |E| && !E[i] && forall k :: 0 <= k < i ==> E[k]
    ensures FirstInPlay(E) == Some(i)
  {
  }

  /** The items whose flag is false, in order. */
  function Survivors<T>(s: seq<T>, E: seq<bool>): (r: seq<T>)
    requires |s| == |E|
    ensures |r| <= |s|
  {
    if s == [] then []
    else Survivors(s[..|s| - 1], E[..|E| - 1]) + (if E[|E| - 1] then [] else [s[|s| - 1]])
  }

  /** Filtering a prefix one position further. */
  lemma SurvivorsStep<T>(s: seq<T>, E: seq<bool>, i: nat)
    requires |s| == |E| && i < |s|
    ensures Survivors(s[..i + 1], E[..i + 1]) == Survivors(s[..i], E[..i]) + (if E[i] then [] else [s[i]])
  {
    assert s[..i + 1][..i] == s[..i];
    assert E[..i + 1][..i] == E[..i];
  }

  /** The survivors are as many as the items in play, and every item in play survives. */
  lemma {:induction false} SurvivorsAre<T>(s: seq<T>, E: seq<bool>)
    requires |s| == |E|
    ensures |Survivors(s, E)| == InPlay(E)
    ensures forall i :: 0 <= i < |s| && !E[i] ==> s[i] in Survivors(s, E)
  {
    if s != [] {
      var n := |s|;
      SurvivorsAre(s[..n - 1], E[..n - 1]);
      assert forall i :: 0 <= i < n - 1 ==> s[..n - 1][i] == s[i] && E[..n - 1][i] == E[i];
    }
  }

  /** A sequence read from position k round to position k - 1. */
  function Rotated<T>(s: seq<T>, k: nat): (r: seq<T>)
    requires k <= |s|
    ensures |r| == |s|
  {
    s[k..] + s[..k]
  }

  /** Position i of a rotation by k is position k + i of the original, round the end. */
  lemma {:induction false} RotatedAt<T>(s: seq<T>, k: nat, i: nat)
    requires k < |s| && i < |s|
    ensures Rotated(s, k)[i] == s[(k + i) % |s|]
  {
    var n := |s|;
    if k + i < n {
      assert (k + i) % n == k + i;
      assert Rotated(s, k)[i] == s[k..][i];
    } else {
      assert (k + i) % n == k + i - n;
      assert Rotated(s, k)[i] == s[..k][i - (n - k)];
    }
  }

  /**
   * The turn order from seat k: the seats still in play, going round the table
   * from seat k.
   */
  function TurnOrder<T>(s: seq<T>, E: seq<bool>, k: nat): (r: seq<T>)
    requires |s| == |E| && k <= |s|
  {
    Survivors(Rotated(s, k), Rotated(E, k))
  }

  /**
   * The turn order from seat k holds as many players as are in play, every
   * one of them, and starts with seat k itself when that seat is in play.
   */
  lemma TurnOrderFrom<T>(s: seq<T>, E: seq<bool>, k: nat)
    requires |s| == |E| && k < |s|
    ensures |TurnOrder(s, E, k)| == InPlay(E)
    ensures forall i :: 0 <= i < |s| && !E[i] ==> s[i] in TurnOrder(s, E, k)
    ensures !E[k] ==> |TurnOrder(s, E, k)| > 0 && TurnOrder(s, E, k)[0] == s[k]
  {
    var rs, rE := Rotated(s, k), Rotated(E, k);
    SurvivorsAre(rs, rE);
    RotatedInPlay(E, k);
    forall i | 0 <= i < |s| && !E[i] ensures s[i] in TurnOrder(s, E, k) {
      var j := if i >= k then i - k else i + |s| - k;
      assert rs[j] == s[i] && rE[j] == E[i];
    }
    if !E[k] {
      SurvivorsFirst(rs, rE);
    }
  }

  /** A rotation keeps the number of seats in play. */
  lemma {:induction false} RotatedInPlay(E: seq<bool>, k: nat)
    requires k <= |E|
    ensures InPlay(Rotated(E, k)) == InPlay(E)
  {
    assert Rotated(E, k) == E[k..] + E[..k];
    InPlayAppend(E[k..], E[..k]);
    InPlayAppend(E[..k], E[k..]);
    assert E[..k] + E[k..] == E;
  }

  /** Counting the seats in play of two parts counts them in the whole. */
  lemma {:induction false} InPlayAppend(A: seq<bool>, B: seq<bool>)
    ensures InPlay(A + B) == InPlay(A) + InPlay(B)
  {
    if B != [] {
      var n := |B|;
      InPlayAppend(A, B[..n - 1]);
      assert (A + B)[..|A + B| - 1] == A + B[..n - 1];
      assert (A + B)[|A + B| - 1] == B[n - 1];
      assert B[..n - 1] == B[..|B| - 1];
    } else {
      assert A + B == A;
    }
  }

  /** When the first item survives it heads the survivors. */
  lemma {:induction false} SurvivorsFirst<T>(s: seq<T>, E: seq<bool>)
    requires |s| == |E| && s != [] && !E[0]
    ensures Survivors(s, E) != [] && Survivors(s, E)[0] == s[0]
  {
    var n := |s|;
    if n > 1 {
      SurvivorsFirst(s[..n - 1], E[..n - 1]);
    }
  }

  /** The forward distance from seat `from` to seat `to` around a table of n seats, in 1..n. */
  function Gap(from: nat, to: nat, n: nat): nat
    requires from < n
  {
    if to > from then to - from else to + n - from
  }

  /** The seat e places after seat `start` around a table of n seats, for e up to n. */
  function Seat(start: nat, e: nat, n: nat): (s: nat)
    requires start < n && e <= n
    ensures s < n
  {
    if start + e < n then start + e else start + e - n
  }

  /** Moving on by one more seat, the wrap-around written as the engine computes it. */
  lemma SeatStep(start: nat, e: nat, n: nat)
    requires start < n && e < n
    ensures Seat(start, 0, n) == start
    ensures (Seat(start, e, n) + 1) % n == Seat(start, e + 1, n)
  {
  }

  /** Going forward by the gap from one seat to another arrives there. */
  lemma SeatAfterGap(from: nat, to: nat, n: nat)
    requires from < n && to < n
    ensures 1 <= Gap(from, to, n) <= n && Seat(from, Gap(from, to, n), n) == to
  {
    if to <= from {
      assert from + Gap(from, to, n) == to + n;
    }
  }

  /** The gap to the seat e places on is e. */
  lemma GapOfSeat(from: nat, e: nat, n: nat)
    requires from < n && 1 <= e <= n
    ensures Gap(from, Seat(from, e, n), n) == e
  {
  }

  /**
   * The turn passes from seat `from` to seat `to`: to the next seat once at
   * most one seat is in play, and otherwise to the first seat in play going
   * round the table, every seat passed over being eliminated.
   */
  predicate PassesTo(E: seq<bool>, from: nat, to: nat)
    requires from < |E| && to < |E|
  {
    if InPlay(E) <= 1 then to == (from + 1) % |E|
    else !E[to] && forall d :: 1 <= d < Gap(from, to, |E|) ==> E[Seat(from, d, |E|)]
  }

  /** The seat the turn passes to is determined by the flags and the departing seat. */
  lemma PassesToUnique(E: seq<bool>, from: nat, a: nat, b: nat)
    requires from < |E| && a < |E| && b < |E|
    requires PassesTo(E, from, a) && PassesTo(E, from, b)
    ensures a == b
  {
    var n := |E|;
    if InPlay(E) > 1 {
      SeatAfterGap(from, a, n);
      SeatAfterGap(from, b, n);
    }
  }

  /** A round from `start` that has met only eliminated seats while one is in play is not complete. */
  lemma RoundNotDone(E: seq<bool>, start: nat, e: nat)
    requires start < |E| && e <= |E| && InPlay(E) > 0
    requires forall d :: 1 <= d <= e ==> E[Seat(start, d, |E|)]
    ensures e < |E|
  {
    var n := |E|;
    if e == n {
      forall q | 0 <= q < n ensures E[q] {
        SeatAfterGap(start, q, n);
      }
      NoneInPlay(E);
    }
  }

  /** The card drawn k-th from a pile D (top last), if the pile has that many. */
  function DrawAt(D: seq<Card>, k: nat): seq<Card>
  {
    if k < |D| then [D[|D| - 1 - k]] else []
  }

  /**
   * The cards a seat receives in `rounds` rounds of dealing one card to each
   * of n seats in turn from the pile D, when its first card is draw number
   * `first`: draws first, first + n, first + 2n, ..
   */
  function Dealt(D: seq<Card>, n: nat, first: nat, rounds: nat): seq<Card>
    decreases rounds
  {
    if rounds == 0 then [] else DrawAt(D, first) + Dealt(D, n, first + n, rounds - 1)
  }

  /** The number of cards drawn by `rounds` full rounds at n seats. */
  function Drawn(n: nat, rounds: nat): nat
  {
    if rounds == 0 then 0 else Drawn(n, rounds - 1) + n
  }

  /** That number is rounds times n. */
  lemma {:induction false} DrawnIsProduct(n: nat, rounds: nat)
    ensures Drawn(n, rounds) == rounds * n
  {
    if rounds > 0 {
      DrawnIsProduct(n, rounds - 1);
    }
  }

  /** Four rounds for n seats draw 4n cards. */
  lemma FourRoundsDrawn(n: nat)
    ensures Drawn(n, 4) == 4 * n
  {
    DrawnIsProduct(n, 4);
  }

  /** A further round adds the card of draw number first + rounds * n. */
  lemma {:induction false} DealtStep(D: seq<Card>, n: nat, first: nat, rounds: nat, k: nat)
    requires k == first + Drawn(n, rounds)
    ensures Dealt(D, n, first, rounds + 1) == Dealt(D, n, first, rounds) + DrawAt(D, k)
    decreases rounds
  {
    if rounds > 0 {
      DrawnShift(n, rounds - 1);
      DealtStep(D, n, first + n, rounds - 1, k);
    }
  }

  /** Counting the first round last: n + Drawn(n, r) == Drawn(n, r + 1). */
  lemma {:induction false} DrawnShift(n: nat, r: nat)
    ensures Drawn(n, r + 1) == n + Drawn(n, r)
  {
  }

  /** The hands hs0 after the first j seats of a round took draws k0, k0 + 1, .. */
  function RoundSoFar(D: seq<Card>, hs0: seq<seq<Card>>, k0: nat, j: nat): (hs: seq<seq<Card>>)
    ensures |hs| == |hs0|
  {
    seq(|hs0|, q requires 0 <= q < |hs0| => if q < j then hs0[q] + DrawAt(D, k0 + q) else hs0[q])
  }

  /** Before the first seat is served, a round has changed no hand. */
  lemma RoundSoFarStart(D: seq<Card>, hs0: seq<seq<Card>>, k0: nat)
    ensures RoundSoFar(D, hs0, k0, 0) == hs0
  {
    assert forall q :: 0 <= q < |hs0| ==> RoundSoFar(D, hs0, k0, 0)[q] == hs0[q];
  }

  /** Serving seat j adds draw k0 + j to its hand and changes no other hand. */
  lemma RoundSoFarStep(D: seq<Card>, hs0: seq<seq<Card>>, k0: nat, j: nat)
    requires j < |hs0|
    ensures RoundSoFar(D, hs0, k0, j)[j] == hs0[j]
    ensures RoundSoFar(D, hs0, k0, j + 1) == RoundSoFar(D, hs0, k0, j)[j := hs0[j] + DrawAt(D, k0 + j)]
  {
  }

  /** The hands H after `rounds` rounds of dealing to |H| seats from the pile D. */
  function DealtSoFar(D: seq<Card>, H: seq<seq<Card>>, rounds: nat): (hs: seq<seq<Card>>)
    ensures |hs| == |H|
  {
    seq(|H|, q requires 0 <= q < |H| => H[q] + Dealt(D, |H|, q, rounds))
  }

  /** No round dealt, no hand changed. */
  lemma DealtNone(D: seq<Card>, H: seq<seq<Card>>)
    ensures DealtSoFar(D, H, 0) == H
  {
    assert forall q :: 0 <= q < |H| ==> DealtSoFar(D, H, 0)[q] == H[q];
  }

  /**
   * A round that starts where `rounds` rounds left off, serving seat q with
   * draw Drawn(n, rounds) + q, completes round rounds + 1 of every seat.
   */
  lemma RoundDealt(D: seq<Card>, H: seq<seq<Card>>, rounds: nat)
    ensures RoundSoFar(D, DealtSoFar(D, H, rounds), Drawn(|H|, rounds), |H|) == DealtSoFar(D, H, rounds + 1)
  {
    var n := |H|;
    var before := DealtSoFar(D, H, rounds);
    var after := RoundSoFar(D, before, Drawn(n, rounds), n);
    forall q | 0 <= q < n
      ensures after[q] == DealtSoFar(D, H, rounds + 1)[q]
    {
      var dealt := Dealt(D, n, q, rounds);
      var drawn := DrawAt(D, Drawn(n, rounds) + q);
      DealtStep(D, n, q, rounds, Drawn(n, rounds) + q);
      assert after[q] == (H[q] + dealt) + drawn;
      assert (H[q] + dealt) + drawn == H[q] + (dealt + drawn);
    }
  }

  /** The pile D after k draws: its k top cards gone, or nothing left once it held no more. */
  function Rest(D: seq<Card>, k: nat): seq<Card>
  {
    if k < |D| then D[..|D| - k] else []
  }

  /** The pile D during a round that started after k0 draws, once j seats are served. */
  function RestInRound(D: seq<Card>, k0: nat, j: nat): seq<Card>
  {
    Rest(D, k0 + j)
  }

  /**
   * A draw from the pile left after k draws takes the card DrawAt(D, k) and
   * leaves the pile after k + 1 draws; no draw leaves the pile as it was.
   */
  lemma NextDraw(D: seq<Card>, k: nat)
    ensures Rest(D, 0) == D
    ensures Rest(D, k) == [] <==> k >= |D|
    ensures Rest(D, k) == [] ==> DrawAt(D, k) == [] && Rest(D, k + 1) == []
    ensures Rest(D, k) != [] ==> var r := Rest(D, k);
      DrawAt(D, k) == [r[|r| - 1]] && Rest(D, k + 1) == r[..|r| - 1]
  {
  }

  /** NextDraw for the draw that serves seat j of a round that started after k0 draws. */
  lemma NextDrawInRound(D: seq<Card>, k0: nat, j: nat)
    ensures var r := RestInRound(D, k0, j);
      && (r == [] ==> DrawAt(D, k0 + j) == [] && RestInRound(D, k0, j + 1) == [])
      && (r != [] ==> DrawAt(D, k0 + j) == [r[|r| - 1]] && RestInRound(D, k0, j + 1) == r[..|r| - 1])
  {
    NextDraw(D, k0 + j);
  }

  /** The cards the first k draws from the pile D take: its k top cards, or all of it. */
  function Taken(D: seq<Card>, k: nat): (t: seq<Card>)
    ensures |t| == if k < |D| then k else |D|
  {
    if k < |D| then D[|D| - k..] else D
  }

  /** The draw of seat j in a round of K draws that starts after k0 draws is one of the round's draws. */
  lemma TakenInRound(D: seq<Card>, k0: nat, j: nat, K: nat)
    requires j < K
    ensures forall i :: 0 <= i < |Taken(RestInRound(D, k0, j), 1)| ==> Taken(RestInRound(D, k0, j), 1)[i] in Taken(Rest(D, k0), K)
  {
    TakenWithin(D, k0, k0 + j, 1, K);
  }

  /** The cards that draws take from a pile left over from D are cards of D. */
  lemma TakenFromPile(D: seq<Card>, k: nat, m: nat)
    ensures forall i :: 0 <= i < |Taken(Rest(D, k), m)| ==> Taken(Rest(D, k), m)[i] in D
  {
    var R := Rest(D, k);
    var t := Taken(R, m);
    forall i | 0 <= i < |t|
      ensures t[i] in D
    {
      assert D[|R| - |t| + i] == t[i];
    }
  }

  /**
   * The m draws that follow the first k draws from D take cards that the K
   * draws following the first k0 take, when k0 <= k and k + m <= k0 + K.
   */
  lemma TakenWithin(D: seq<Card>, k0: nat, k: nat, m: nat, K: nat)
    requires k0 <= k && k + m <= k0 + K
    ensures forall i :: 0 <= i < |Taken(Rest(D, k), m)| ==> Taken(Rest(D, k), m)[i] in Taken(Rest(D, k0), K)
  {
    var R0 := Rest(D, k0);
    var R := Rest(D, k);
    var t := Taken(R, m);
    forall i | 0 <= i < |t|
      ensures t[i] in Taken(R0, K)
    {
      var p := |R| - |t| + i;
      assert R0[p] == t[i];
      if K < |R0| {
        assert Taken(R0, K)[p - (|R0| - K)] == t[i];
      }
    }
  }

  /** More rounds draw no fewer cards. */
  lemma {:induction false} DrawnMono(n: nat, i: nat, r: nat)
    requires i <= r
    ensures Drawn(n, i) <= Drawn(n, r)
    decreases r - i
  {
    if i < r {
      DrawnMono(n, i + 1, r);
    }
  }

  /** The table cards a refill takes: every one but the last. */
  function Recyclable(T: seq<Card>): (r: seq<Card>)
    ensures |r| == if T == [] then 0 else |T| - 1
    ensures forall i :: 0 <= i < |r| ==> r[i] == T[i]
  {
    if T == [] then [] else T[..|T| - 1]
  }

  /** The hand h reaches position m, and its cards from there on are face up. */
  ghost predicate FaceUpFrom(h: seq<Card>, m: nat)
    reads h
  {
    m <= |h| && forall i :: m <= i < |h| ==> h[i].faceUp
  }

  /**
   * The cards a deal leaves as they were: those still in the pile d, every
   * card of the seats after the first (the machines' seats), and the first
   * m cards of the human's seat.
   */
  ghost function Kept(d: seq<Card>, hs: seq<seq<Card>>, m: nat): set<Card>
  {
    (set c | c in d)
    + (set q, i | 0 < q < |hs| && 0 <= i < |hs[q]| :: hs[q][i])
    + (set i | 0 <= i < m && 0 < |hs| && i < |hs[0]| :: hs[0][i])
  }

  /**
   * Dealing the top card of d to seat j keeps nothing new: every card kept
   * afterwards was kept before, and is a card left in the pile, a card
   * already held, or the dealt card going to a machine's seat.
   */
  lemma KeptDealt(d: seq<Card>, hs: seq<seq<Card>>, m: nat, j: nat)
    requires d != [] && j < |hs| && m <= |hs[0]|
    ensures var top := d[|d| - 1]; var K := Kept(d[..|d| - 1], hs[j := hs[j] + [top]], m);
      && K <= Kept(d, hs, m)
      && forall c :: c in K ==>
           || (exists i :: 0 <= i < |d| - 1 && c == d[i])
           || (0 < j && c == top)
           || exists q, i :: 0 <= q < |hs| && 0 <= i < |hs[q]| && c == hs[q][i]
  {
  }

  /** A kept card lies at some position of the pile or of a hand. */
  lemma KeptWhere(d: seq<Card>, hs: seq<seq<Card>>, m: nat)
    ensures forall c :: c in Kept(d, hs, m) ==>
      (exists i :: 0 <= i < |d| && d[i] == c) || exists q, i :: 0 <= q < |hs| && 0 <= i < |hs[q]| && hs[q][i] == c
  {
  }

  /** Taking cards off the top of the pile keeps nothing new. */
  lemma KeptShrinks(d: seq<Card>, x: seq<Card>, hs: seq<seq<Card>>, m: nat)
    ensures Kept(d, hs, m) <= Kept(d + x, hs, m)
  {
  }

  /** Every card of a machine's seat is kept. */
  lemma MachinesKept(d: seq<Card>, hs: seq<seq<Card>>, m: nat)
    ensures forall q, c :: 0 < q < |hs| && c in hs[q] ==> c in Kept(d, hs, m)
  {
    forall q, c | 0 < q < |hs| && c in hs[q] ensures c in Kept(d, hs, m) {
      var i :| 0 <= i < |hs[q]| && hs[q][i] == c;
    }
  }

  /** With every card held once, no card lies twice in the deck. */
  lemma DeckApart(D: seq<Card>, hs: seq<seq<Card>>, T: seq<Card>, all: multiset<Card>)
    requires CardsConserved(D, hs, T, all)
    requires forall c :: c in all ==> all[c] == 1
    ensures forall i, j :: 0 <= i < j < |D| ==> D[i] != D[j]
  {
    Census(D, hs, T);
    MultiplicityOneDistinct(D, all);
  }

  /** With every card held once, the top card of the deck lies nowhere else in it. */
  lemma TopApart(D: seq<Card>, hs: seq<seq<Card>>, T: seq<Card>, all: multiset<Card>)
    requires CardsConserved(D, hs, T, all) && D != []
    requires forall c :: c in all ==> all[c] == 1
    ensures forall i :: 0 <= i < |D| - 1 ==> D[i] != D[|D| - 1]
  {
    DeckApart(D, hs, T, all);
  }

  /** With every card held once, no card of the deck is in a hand. */
  lemma DeckNotHeld(D: seq<Card>, hs: seq<seq<Card>>, T: seq<Card>, all: multiset<Card>)
    requires CardsConserved(D, hs, T, all)
    requires forall c :: c in all ==> all[c] == 1
    ensures forall q, i :: 0 <= q < |hs| && 0 <= i < |hs[q]| ==> hs[q][i] !in D
  {
    Census(D, hs, T);
    forall q, i | 0 <= q < |hs| && 0 <= i < |hs[q]| ensures hs[q][i] !in D {
      var c := hs[q][i];
      PooledUpdate(hs, q, hs[q]);
      assert c in multiset(hs[q]);
      assert all[c] == multiset(D)[c] + Pooled(hs)[c] + multiset(T)[c] == 1;
    }
  }

  /**
   * With every card held once, the table's cards are all different and
   * none of them is in a hand.
   */
  lemma TableApart(D: seq<Card>, hs: seq<seq<Card>>, T: seq<Card>, all: multiset<Card>)
    requires CardsConserved(D, hs, T, all)
    requires forall c :: c in all ==> all[c] == 1
    ensures forall i, j :: 0 <= i < j < |T| ==> T[i] != T[j]
    ensures forall q, i :: 0 <= q < |hs| && 0 <= i < |hs[q]| ==> hs[q][i] !in T
  {
    Census(D, hs, T);
    MultiplicityOneDistinct(T, all);
    forall q, i | 0 <= q < |hs| && 0 <= i < |hs[q]| ensures hs[q][i] !in T {
      var c := hs[q][i];
      PooledUpdate(hs, q, hs[q]);
      assert c in multiset(hs[q]);
      assert multiset(T)[c] == 0;
    }
  }

  /**
   * Dealing four rounds from a complete deck to two to four empty hands gives
   * every hand four cards, leaves a card to turn up, and 52 - 4n cards before it is.
   */
  lemma FirstDeal(D: seq<Card>, H: seq<seq<Card>>)
    requires |D| == 52 && 2 <= |H| <= 4 && forall q :: 0 <= q < |H| ==> H[q] == []
    ensures forall q :: 0 <= q < |H| ==> |DealtSoFar(D, H, 4)[q]| == 4
    ensures |DrawAt(D, 4 * |H|)| == 1 && |Rest(D, 4 * |H|)| == 52 - 4 * |H|
  {
  }

  /** The verdict on playing `card` from `hand` on a table summing to `sum`. */
  function PlayVerdict(hand: seq<Card>, sum: int, card: Card?): (r: Outcome)
    ensures r == Pass <==> card != null && card in hand && Playable(card, sum)
  {
    if card == null then Fail(InvalidMove(NullCard))
    else if card !in hand then Fail(InvalidMove(NotInHand))
    else if sum + Value(card.rank, sum) > Limit then Fail(InvalidMove(OverLimit))
    else Pass
  }

  /**
   * The deck D, the hands hs and the table T together hold exactly the cards
   * of `all`: the piles pooled, deck first and table last.
   */
  ghost predicate CardsConserved(D: seq<Card>, hs: seq<seq<Card>>, T: seq<Card>, all: multiset<Card>)
  {
    Pooled([D] + hs + [T]) == all
  }

  /** A pile put in front of several hands adds its cards to theirs. */
  lemma {:induction false} PooledFront(D: seq<Card>, hs: seq<seq<Card>>)
    ensures Pooled([D] + hs) == multiset(D) + Pooled(hs)
  {
    if hs == [] {
      assert ([D] + hs)[..0] == [];
    } else {
      var n := |hs|;
      PooledFront(D, hs[..n - 1]);
      assert ([D] + hs)[..n] == [D] + hs[..n - 1];
    }
  }

  /** Deck, hands and table pooled are the deck's, the hands' and the table's cards. */
  lemma Census(D: seq<Card>, hs: seq<seq<Card>>, T: seq<Card>)
    ensures Pooled([D] + hs + [T]) == multiset(D) + Pooled(hs) + multiset(T)
  {
    PooledFront(D, hs);
    assert ([D] + hs + [T])[..|hs| + 1] == [D] + hs;
  }

  /** Moving the top card of the deck into one hand keeps every card in play. */
  lemma MoveTopToHand(D: seq<Card>, hs: seq<seq<Card>>, T: seq<Card>, all: multiset<Card>, j: nat)
    requires CardsConserved(D, hs, T, all) && D != [] && j < |hs|
    ensures CardsConserved(D[..|D| - 1], hs[j := hs[j] + [D[|D| - 1]]], T, all)
    ensures D[|D| - 1] in all
  {
    var top := D[|D| - 1];
    Census(D, hs, T);
    Census(D[..|D| - 1], hs[j := hs[j] + [top]], T);
    assert D == D[..|D| - 1] + [top];
    PooledUpdate(hs, j, hs[j] + [top]);
  }

  /** Moving the top card of the deck onto the table keeps every card in play. */
  lemma MoveTopToTable(D: seq<Card>, hs: seq<seq<Card>>, T: seq<Card>, all: multiset<Card>)
    requires CardsConserved(D, hs, T, all) && D != []
    ensures CardsConserved(D[..|D| - 1], hs, T + [D[|D| - 1]], all)
    ensures D[|D| - 1] in all
  {
    Census(D, hs, T);
    Census(D[..|D| - 1], hs, T + [D[|D| - 1]]);
    assert D == D[..|D| - 1] + [D[|D| - 1]];
  }

  /** Playing a card from hand j onto the table keeps every card in play. */
  lemma MoveHandToTable(D: seq<Card>, hs: seq<seq<Card>>, T: seq<Card>, all: multiset<Card>, j: nat, c: Card)
    requires CardsConserved(D, hs, T, all) && j < |hs| && c in hs[j]
    ensures CardsConserved(D, hs[j := RemoveFirst(hs[j], c)], T + [c], all)
    ensures c in all
  {
    Census(D, hs, T);
    Census(D, hs[j := RemoveFirst(hs[j], c)], T + [c]);
    PooledUpdate(hs, j, RemoveFirst(hs[j], c));
    assert c in multiset(hs[j]);
  }

  /** Emptying hand j onto the top of the deck keeps every card in play. */
  lemma MoveHandToDeck(D: seq<Card>, hs: seq<seq<Card>>, T: seq<Card>, all: multiset<Card>, j: nat)
    requires CardsConserved(D, hs, T, all) && j < |hs|
    ensures CardsConserved(D + hs[j], hs[j := []], T, all)
  {
    Census(D, hs, T);
    Census(D + hs[j], hs[j := []], T);
    PooledUpdate(hs, j, []);
  }

  /**
   * Every table card but the last going into the deck, in any order, keeps
   * every card in play, and each of those cards is a card of the game.
   */
  lemma RecycleTable(D: seq<Card>, D': seq<Card>, hs: seq<seq<Card>>, T: seq<Card>, all: multiset<Card>)
    requires CardsConserved(D, hs, T, all) && |T| >= 2
    requires multiset(D') == multiset(D) + multiset(T[..|T| - 1])
    ensures CardsConserved(D', hs, [T[|T| - 1]], all)
  {
    Census(D, hs, T);
    Census(D', hs, [T[|T| - 1]]);
    assert T == T[..|T| - 1] + [T[|T| - 1]];
  }

  /** The top card of a deck refilled from all but the last of T is one of those cards of T. */
  lemma RecycledTop(D: seq<Card>, T: seq<Card>) returns (k: nat)
    requires D != [] && |T| >= 1 && multiset(D) == multiset(T[..|T| - 1])
    ensures k < |T| - 1 && T[k] == D[|D| - 1]
  {
    TopLast(D);
    assert D[|D| - 1] in multiset(D);
    assert D[|D| - 1] in T[..|T| - 1];
    k :| 0 <= k < |T| - 1 && T[k] == D[|D| - 1];
  }

  /** A pile is the pile below its top card with the top card put back. */
  lemma TopLast(D: seq<Card>)
    requires D != []
    ensures D == D[..|D| - 1] + [D[|D| - 1]]
  {
  }

  /**
   * With every card of the game held exactly once, the deck, the hands and
   * the table hold 52 cards together, and each card is in exactly one place.
   */
  lemma FiftyTwoInPlay(D: seq<Card>, hs: seq<seq<Card>>, T: seq<Card>, all: multiset<Card>)
    requires CardsConserved(D, hs, T, all)
    requires |all| == 52 && forall c :: c in all ==> all[c] == 1
    ensures |D| + TotalSize(hs) + |T| == 52
    ensures forall c :: c in all ==> multiset(D)[c] + Pooled(hs)[c] + multiset(T)[c] == 1
  {
    Census(D, hs, T);
    PooledSize(hs);
  }

  /** A complete deck holds 52 cards, each of them exactly once. */
  lemma FullDeckCensus(s: seq<Card>)
    requires FullDeck(s)
    ensures |multiset(s)| == 52
    ensures forall c :: c in multiset(s) ==> multiset(s)[c] == 1 && c in s
  {
    assert |multiset(s)| == |s|;
  }

  /**
   * The seats of a new game: "You", a human, then `numBots` machines named
   * "Bot 1", "Bot 2", .., every one new, holding nothing and in play, each
   * with zeroed counters under its name.
   */
  method NewSeats(numBots: nat) returns (ps: seq<Player>, m: map<string, PlayerGameStats>, ghost seat: map<Player, nat>)
    requires 1 <= numBots <= 3
    ensures |ps| == numBots + 1 && Seated(ps)
    ensures forall q :: 0 <= q < |ps| ==> ps[q] in seat && seat[ps[q]] == q
    ensures forall q :: 0 <= q < |ps| ==> fresh(ps[q]) && ps[q].hand == [] && !ps[q].isEliminated
    ensures m.Keys == NamesOf(ps)
    ensures forall name :: name in m ==> m[name] == NoPlayerStats
    ensures fresh(seat.Keys)
  {
    var human := new Player("You", false);
    ps := [human];
    m := map["You" := NoPlayerStats];
    seat := map[human := 0];
    for i := 1 to numBots + 1
      invariant |ps| == i && ps[0] == human && human.name == "You" && !human.isMachine
      invariant forall q :: 1 <= q < |ps| ==> ps[q].name == BotName(q) && ps[q].isMachine
      invariant forall q :: 0 <= q < |ps| ==> ps[q] in seat && seat[ps[q]] == q
      invariant forall q :: 0 <= q < |ps| ==> fresh(ps[q]) && ps[q].hand == [] && !ps[q].isEliminated
      invariant m.Keys == NamesOf(ps)
      invariant forall name :: name in m ==> m[name] == NoPlayerStats
      invariant fresh(seat.Keys)
    {
      var bot := new Player(BotName(i), true);
      ps := ps + [bot];
      m := m[bot.name := NoPlayerStats];
      seat := seat[bot := i];
    }
  }

  class GameModel {
    const deck: Deck
    const players: seq<Player>
    var tableCards: seq<Card>
    var tableSum: int
    var currentPlayerIndex: int
    var turnQueue: seq<Player>
    var stats: GameStats
    var playerStats: map<string, PlayerGameStats>
    /** The 52 cards the game was created with. */
    ghost const allCards: multiset<Card>
    /** The hands of the seats, in seat order, as values. */
    ghost var hands: seq<seq<Card>>
    /** The elimination flags of the seats, in seat order. */
    ghost var eliminated: seq<bool>
    /** The seat each player holds. */
    ghost const seatOf: map<Player, nat>

    /** The seats: "You" first, then the machines, every seat a different player. */
    ghost predicate Seats()
    {
      Seated(players) && DistinctSeats()
    }

    /**
     * No player holds two seats: each seat's player is mapped back to that
     * seat, so two seats with the same player are the same seat.
     */
    ghost predicate DistinctSeats()
    {
      forall q :: 0 <= q < |players| ==> players[q] in seatOf && seatOf[players[q]] == q
    }

    /** The game's cards: 52 different card objects. */
    ghost predicate FiftyTwo()
    {
      |allCards| == 52 && (forall c :: c in allCards ==> allCards[c] == 1)
    }

    /** Whose turn it is, and every seat has counters under its name. */
    predicate TurnAndCounters()
      reads this`currentPlayerIndex, this`playerStats
    {
      && 0 <= currentPlayerIndex < |players|
      && (forall i :: 0 <= i < |players| ==> players[i].name in playerStats)
    }

    /** The seats hold the hands hs, seat by seat. */
    ghost predicate HandsAre(hs: seq<seq<Card>>)
      reads players
    {
      |hs| == |players| && forall q :: 0 <= q < |players| ==> players[q].hand == hs[q]
    }

    /** `hands` is the seats' hands, seat by seat. */
    ghost predicate HandsMatch()
      reads this`hands, players
    {
      HandsAre(hands)
    }

    /** The seats' elimination flags are E, seat by seat. */
    ghost predicate FlagsAre(E: seq<bool>)
      reads players
    {
      |E| == |players| && forall q :: 0 <= q < |players| ==> players[q].isEliminated == E[q]
    }

    /** `eliminated` is the seats' elimination flags, seat by seat. */
    ghost predicate FlagsMatch()
      reads this`eliminated, players
    {
      FlagsAre(eliminated)
    }

    /** Deck, hands and table together hold exactly the game's cards. */
    ghost predicate Conserved()
      reads this`hands, this`tableCards, deck
    {
      CardsConserved(deck.cards, hands, tableCards, allCards)
    }

    /**
     * The game's invariant: valid seats and cards, a current seat with
     * counters for every seat, and the table sum within the limit.
     */
    ghost predicate Valid()
      reads this`currentPlayerIndex, this`playerStats, this`tableCards, this`tableSum, this`hands, this`eliminated, deck, players
    {
      Cards() && TurnAndCounters()
    }

    /**
     * The part of the invariant about seats and cards: the seats' hands and
     * flags are mirrored, every card of the game is in play exactly once,
     * and the table sum is at most 50.
     */
    ghost predicate Cards()
      reads this`tableCards, this`tableSum, this`hands, this`eliminated, deck, players
    {
      Seats() && FiftyTwo() && HandsMatch() && FlagsMatch() && Conserved() && tableSum <= Limit
    }

    /**
     * The player whose turn it is; InvalidGameState when the index is not a
     * seat, which Valid() rules out.
     */
    function GetCurrentPlayer(): (r: Result<Player>)
      reads this
      ensures r.Ok? <==> 0 <= currentPlayerIndex < |players|
      ensures r.Ok? ==> r.value == players[currentPlayerIndex]
      ensures r.Err? ==> r.error == InvalidGameState
    {
      if currentPlayerIndex < 0 || currentPlayerIndex >= |players| then Err(InvalidGameState)
      else Ok(players[currentPlayerIndex])
    }

    /** Whether at most one seat is still in play. */
    ghost predicate GameOver()
      reads this`eliminated
    {
      InPlay(eliminated) <= 1
    }

    /**
     * A new game for one human and `numBots` machines, before any dealing:
     * every hand empty, no card on the table, every counter zero, the human to
     * play, and a freshly shuffled complete deck.
     */
    constructor (numBots: nat, draws: seq<nat>)
      requires 1 <= numBots <= 3
      ensures Valid() && fresh(deck) && FullDeck(deck.cards) && allCards == multiset(deck.cards)
      ensures forall c :: c in deck.cards ==> fresh(c) && !c.faceUp
      ensures |players| == numBots + 1
      ensures forall i :: 0 <= i < |players| ==> fresh(players[i]) && players[i].hand == [] && !players[i].isEliminated
      ensures tableCards == [] && tableSum == 0 && currentPlayerIndex == 0 && turnQueue == players
      ensures stats == NoGameStats
      ensures playerStats.Keys == NamesOf(players)
      ensures forall name :: name in playerStats ==> playerStats[name] == NoPlayerStats
      ensures fresh(seatOf.Keys)
    {
      var d := new Deck(draws);
      var ps, m, seat := NewSeats(numBots);
      deck := d;
      players := ps;
      allCards := multiset(d.cards);
      tableCards := [];
      tableSum := 0;
      currentPlayerIndex := 0;
      turnQueue := ps;
      stats := NoGameStats;
      playerStats := m;
      hands := seq(numBots + 1, q => []);
      eliminated := seq(numBots + 1, q => false);
      seatOf := seat;
      new;
      InitiallyValid();
    }

    /** Seats, a complete deck, empty hands and table, and zeroed counters make a valid game. */
    lemma InitiallyValid()
      requires Seated(players) && DistinctSeats()
      requires FullDeck(deck.cards) && allCards == multiset(deck.cards)
      requires currentPlayerIndex == 0 && forall q :: 0 <= q < |players| ==> players[q].name in playerStats
      requires |hands| == |players| && forall q :: 0 <= q < |players| ==> hands[q] == [] && players[q].hand == []
      requires |eliminated| == |players| && forall q :: 0 <= q < |players| ==> !eliminated[q] && !players[q].isEliminated
      requires tableCards == [] && tableSum == 0
      ensures Valid()
    {
      PooledEmpty(hands);
      Census(deck.cards, hands, []);
      FullDeckCensus(deck.cards);
    }

    /**
     * The checked way to make a game: IllegalArgument when `numBots` is not
     * 1, 2 or 3, and otherwise a new valid game with that many machines.
     */
    static method Create(numBots: int, draws: seq<nat>) returns (r: Result<GameModel>)
      ensures r.Err? <==> numBots < 1 || numBots > 3
      ensures r.Err? ==> r.error == IllegalArgument
      ensures r.Ok? ==> var g := r.value;
        && fresh(g) && g.Valid() && fresh(g.deck) && FullDeck(g.deck.cards) && g.allCards == multiset(g.deck.cards)
        && (forall c :: c in g.deck.cards ==> fresh(c) && !c.faceUp)
        && |g.players| == numBots + 1
        && (forall i :: 0 <= i < |g.players| ==> fresh(g.players[i]) && g.players[i].hand == [] && !g.players[i].isEliminated)
        && g.tableCards == [] && g.tableSum == 0 && g.currentPlayerIndex == 0 && g.turnQueue == g.players
        && g.stats == NoGameStats && g.playerStats.Keys == NamesOf(g.players)
        && (forall name :: name in g.playerStats ==> g.playerStats[name] == NoPlayerStats)
    {
      if numBots < 1 || numBots > 3 {
        return Err(IllegalArgument);
      }
      var g := new GameModel(numBots, draws);
      return Ok(g);
    }

    /**
     * In a valid game the deck, the hands and the table hold 52 cards
     * together, and every card of the game lies in exactly one place.
     */
    lemma CardsAccountedFor()
      requires Valid()
      ensures |deck.cards| + TotalSize(hands) + |tableCards| == 52
      ensures forall c :: c in allCards ==> multiset(deck.cards)[c] + Pooled(hands)[c] + multiset(tableCards)[c] == 1
    {
      FiftyTwoInPlay(deck.cards, hands, tableCards, allCards);
    }

    /**
     * Deals four rounds of one card to each seat in seat order, skipping a
     * seat when the deck has run out, then turns one more card face up onto
     * the table and restarts the sum from that card's value at 0. Only the
     * cards it draws can be turned over: every card dealt to the human is
     * face up, and every card of a machine's seat comes from the pile or the
     * hands and keeps its flag. Nothing stops it from being called again.
     */
    method Start()
      requires Valid()
      modifies this`tableCards, this`tableSum, this`hands, deck, seatOf.Keys
      modifies Taken(deck.cards, 4 * |players|), Taken(Rest(deck.cards, 4 * |players|), 1)
      ensures Kept(deck.cards, hands, |old(hands[0])|) <= Kept(old(deck.cards), old(hands), |old(hands[0])|)
      ensures forall c :: c in Kept(deck.cards, hands, |old(hands[0])|) ==> c.faceUp == old(c.faceUp)
      ensures forall q, c :: 0 < q < |hands| && c in hands[q] ==>
        c in Kept(old(deck.cards), old(hands), |old(hands[0])|) && c.faceUp == old(c.faceUp)
      ensures Valid()
      ensures hands == DealtSoFar(old(deck.cards), old(hands), 4)
      ensures FaceUpFrom(hands[0], |old(hands[0])|)
      ensures eliminated == old(eliminated)
      ensures var D := old(deck.cards); var k := 4 * |players|;
        && deck.cards + DrawAt(D, k) == Rest(D, k)
        && tableCards == old(tableCards) + DrawAt(D, k)
        && (DrawAt(D, k) != [] ==> DrawAt(D, k)[0].faceUp && tableSum == Value(DrawAt(D, k)[0].rank, 0))
        && (DrawAt(D, k) == [] ==> tableSum == old(tableSum))
    {
      ghost var D := deck.cards;
      DealAll();
      TurnUp(D, 4 * |players|, |old(hands[0])|);
      MachinesKept(deck.cards, hands, |old(hands[0])|);
      assert forall q, c :: 0 < q < |hands| && c in hands[q] ==> c in Kept(D, old(hands), |old(hands[0])|);
    }

    /**
     * The four rounds of dealing, as a step that keeps the game valid; the
     * cards dealt to the human are face up, and every kept card (the pile's,
     * the machines' and the human's earlier cards) keeps its flag.
     */
    method DealAll()
      requires Valid()
      modifies this`hands, deck, seatOf.Keys, Taken(deck.cards, 4 * |players|)
      ensures Kept(deck.cards, hands, |old(hands[0])|) <= Kept(old(deck.cards), old(hands), |old(hands[0])|)
      ensures forall c :: c in Kept(deck.cards, hands, |old(hands[0])|) ==> c.faceUp == old(c.faceUp)
      ensures Valid()
      ensures hands == DealtSoFar(old(deck.cards), old(hands), 4)
      ensures deck.cards == Rest(old(deck.cards), 4 * |players|)
      ensures FaceUpFrom(hands[0], |old(hands[0])|)
    {
      FourRoundsDrawn(|players|);
      ghost var H := hands;
      // The ghost hands take their dealt value first; the deal then brings the seats to it.
      hands := DealtSoFar(deck.cards, H, 4);
      assert forall q :: 0 <= q < |players| ==> players[q].hand == H[q];
      assert forall q :: 0 <= q < |players| ==> players[q].isEliminated == eliminated[q];
      ghost var hs := DealFourRounds(eliminated, H);
    }

    /**
     * Turning up the first card, as a step that keeps the game valid, once k
     * cards of D have been drawn: the next card of D goes face up onto the
     * table. No card in a hand or left in the pile is turned over.
     */
    method TurnUp(ghost D: seq<Card>, ghost k: nat, ghost m: nat)
      requires Valid() && deck.cards == Rest(D, k) && FaceUpFrom(hands[0], m)
      modifies this`tableCards, this`tableSum, deck, Taken(deck.cards, 1)
      ensures Kept(deck.cards, hands, m) <= Kept(old(deck.cards), hands, m)
      ensures forall c :: c in Kept(deck.cards, hands, m) ==> c.faceUp == old(c.faceUp)
      ensures Valid()
      ensures forall q, i :: 0 <= q < |hands| && 0 <= i < |hands[q]| ==> hands[q][i].faceUp == old(hands[q][i].faceUp)
      ensures FaceUpFrom(hands[0], m)
      ensures hands == old(hands) && eliminated == old(eliminated)
      ensures deck.cards + DrawAt(D, k) == Rest(D, k)
      ensures tableCards == old(tableCards) + DrawAt(D, k)
      ensures DrawAt(D, k) != [] ==> DrawAt(D, k)[0].faceUp && tableSum == Value(DrawAt(D, k)[0].rank, 0)
      ensures DrawAt(D, k) == [] ==> tableSum == old(tableSum)
    {
      NextDraw(D, k);
      ghost var r := deck.cards;
      ghost var T := tableCards;
      TurnUpFirstCard();
      KeptWhere(deck.cards, hands, m);
      KeptShrinks(deck.cards, DrawAt(D, k), hands, m);
      assert r == [] ==> tableCards == T;
      assert r != [] ==> tableCards == T + [r[|r| - 1]];
    }

    /**
     * Four rounds of dealing, one card to each seat in seat order per round,
     * while the deck lasts. The ghost values follow the seats: E their
     * elimination flags, H the hands before and hs the hands after. The
     * human's new cards are face up, and every kept card keeps its flag.
     */
    method DealFourRounds(ghost E: seq<bool>, ghost H: seq<seq<Card>>) returns (ghost hs: seq<seq<Card>>)
      requires DistinctSeats() && FiftyTwo() && HandsAre(H) && FlagsAre(E) && 0 < |players| && !players[0].isMachine
      requires forall q :: 0 < q < |players| ==> players[q].isMachine
      requires CardsConserved(deck.cards, H, tableCards, allCards)
      modifies deck, seatOf.Keys, Taken(deck.cards, 4 * |players|)
      ensures Kept(deck.cards, hs, |H[0]|) <= Kept(old(deck.cards), H, |H[0]|)
      ensures forall c :: c in Kept(deck.cards, hs, |H[0]|) ==> c.faceUp == old(c.faceUp)
      ensures HandsAre(hs) && FlagsAre(E)
      ensures hs == DealtSoFar(old(deck.cards), H, 4)
      ensures deck.cards == Rest(old(deck.cards), Drawn(|players|, 4))
      ensures CardsConserved(deck.cards, hs, tableCards, allCards)
      ensures FaceUpFrom(hs[0], |H[0]|)
      ensures unchanged(this)
    {
      ghost var D := deck.cards;
      FourRoundsDrawn(|players|);
      NextDraw(D, 0);
      DealtNone(D, H);
      hs := H;
      ghost var flags := map c | c in Kept(D, H, |H[0]|) :: c.faceUp;
      for i := 0 to 4
        invariant deck.cards == Rest(D, Drawn(|players|, i))
        invariant HandsAre(hs) && FlagsAre(E)
        invariant hs == DealtSoFar(D, H, i)
        invariant CardsConserved(deck.cards, hs, tableCards, allCards)
        invariant FaceUpFrom(hs[0], |H[0]|)
        invariant forall c :: c in Kept(deck.cards, hs, |H[0]|) ==> c in flags && c.faceUp == flags[c]
      {
        hs := DealNextRound(D, E, H, i, hs, |H[0]|);
      }
    }

    /**
     * Round i + 1 of the deal, after i rounds took the hands from H to hs;
     * the human's new card is face up, and every kept card keeps its flag.
     */
    method DealNextRound(ghost D: seq<Card>, ghost E: seq<bool>, ghost H: seq<seq<Card>>, i: nat, ghost hs: seq<seq<Card>>,
                         ghost m: nat)
      returns (ghost hs': seq<seq<Card>>)
      requires DistinctSeats() && FiftyTwo() && HandsAre(hs) && FlagsAre(E) && 0 < |H| == |players| && !players[0].isMachine
      requires i < 4 && deck.cards == Rest(D, Drawn(|players|, i))
      requires hs == DealtSoFar(D, H, i)
      requires CardsConserved(deck.cards, hs, tableCards, allCards)
      requires FaceUpFrom(hs[0], m)
      requires forall q :: 0 < q < |players| ==> players[q].isMachine
      modifies deck, seatOf.Keys, Taken(D, 4 * |players|)
      ensures Kept(deck.cards, hs', m) <= Kept(old(deck.cards), hs, m)
      ensures forall c :: c in Kept(deck.cards, hs', m) ==> c.faceUp == old(c.faceUp)
      ensures HandsAre(hs') && FlagsAre(E)
      ensures deck.cards == Rest(D, Drawn(|players|, i + 1))
      ensures hs' == DealtSoFar(D, H, i + 1)
      ensures CardsConserved(deck.cards, hs', tableCards, allCards)
      ensures FaceUpFrom(hs'[0], m)
    {
      FourRoundsDrawn(|players|);
      DrawnShift(|players|, i);
      DrawnMono(|players|, i + 1, 4);
      TakenWithin(D, 0, Drawn(|players|, i), |players|, 4 * |players|);
      assert Rest(D, 0) == D;
      hs' := DealRound(D, E, hs, Drawn(|players|, i), m);
      RoundDealt(D, H, i);
    }

    /**
     * One round of dealing: one card from the top of the deck to each seat in
     * seat order, while the deck lasts. The round starts after k0 draws from
     * the pile D, with the hands hs0; the result is the hands afterwards. The
     * human's new cards are face up, and every kept card keeps its flag.
     */
    method DealRound(ghost D: seq<Card>, ghost E: seq<bool>, ghost hs0: seq<seq<Card>>, ghost k0: nat, ghost m: nat)
      returns (ghost hs: seq<seq<Card>>)
      requires DistinctSeats() && FiftyTwo() && HandsAre(hs0) && FlagsAre(E) && 0 < |players| && !players[0].isMachine
      requires deck.cards == Rest(D, k0)
      requires CardsConserved(deck.cards, hs0, tableCards, allCards)
      requires FaceUpFrom(hs0[0], m)
      requires forall q :: 0 < q < |players| ==> players[q].isMachine
      modifies deck, seatOf.Keys, Taken(deck.cards, |players|)
      ensures Kept(deck.cards, hs, m) <= Kept(old(deck.cards), hs0, m)
      ensures forall c :: c in Kept(deck.cards, hs, m) ==> c.faceUp == old(c.faceUp)
      ensures HandsAre(hs) && FlagsAre(E)
      ensures deck.cards == RestInRound(D, k0, |players|)
      ensures hs == RoundSoFar(D, hs0, k0, |players|)
      ensures CardsConserved(deck.cards, hs, tableCards, allCards)
      ensures FaceUpFrom(hs[0], m)
    {
      RoundSoFarStart(D, hs0, k0);
      hs := hs0;
      ghost var flags := map c | c in Kept(deck.cards, hs0, m) :: c.faceUp;
      for j := 0 to |players|
        invariant HandsAre(hs) && FlagsAre(E)
        invariant deck.cards == RestInRound(D, k0, j)
        invariant hs == RoundSoFar(D, hs0, k0, j)
        invariant CardsConserved(deck.cards, hs, tableCards, allCards)
        invariant FaceUpFrom(hs[0], m)
        invariant forall c :: c in Kept(deck.cards, hs, m) ==> c in flags && c.faceUp == flags[c]
      {
        TakenInRound(D, k0, j, |players|);
        hs := DealStep(D, E, hs0, k0, j, hs, m);
      }
    }

    /**
     * The turn of seat j in a round: it gets draw k0 + j, if the pile still
     * has a card. The human's new card is face up, and every kept card keeps
     * its flag: the pile's, the machines' and the human's first m.
     */
    method DealStep(ghost D: seq<Card>, ghost E: seq<bool>, ghost hs0: seq<seq<Card>>, ghost k0: nat, j: nat,
                    ghost hs: seq<seq<Card>>, ghost m: nat)
      returns (ghost hs': seq<seq<Card>>)
      requires DistinctSeats() && FiftyTwo() && HandsAre(hs) && FlagsAre(E) && j < |hs0| == |players|
      requires !players[0].isMachine && FaceUpFrom(hs[0], m)
      requires forall q :: 0 < q < |players| ==> players[q].isMachine
      requires deck.cards == RestInRound(D, k0, j)
      requires hs == RoundSoFar(D, hs0, k0, j)
      requires CardsConserved(deck.cards, hs, tableCards, allCards)
      modifies deck, players[j], Taken(deck.cards, 1)
      ensures Kept(deck.cards, hs', m) <= Kept(old(deck.cards), hs, m)
      ensures forall c :: c in Kept(deck.cards, hs', m) ==> c.faceUp == old(c.faceUp)
      ensures HandsAre(hs') && FlagsAre(E)
      ensures deck.cards == RestInRound(D, k0, j + 1)
      ensures hs' == RoundSoFar(D, hs0, k0, j + 1)
      ensures CardsConserved(deck.cards, hs', tableCards, allCards)
      ensures FaceUpFrom(hs'[0], m)
    {
      NextDrawInRound(D, k0, j);
      RoundSoFarStep(D, hs0, k0, j);
      ghost var drawn := DrawAt(D, k0 + j);
      var c;
      c, hs' := DealTo(E, j, hs, m);
      if c == null {
        assert drawn == [] && hs0[j] + drawn == hs[j];
        assert hs' == hs;
      } else {
        assert drawn == [c];
        assert hs'[0] == if j == 0 then hs[0] + [c] else hs[0];
      }
    }

    /**
     * Moves the top card of the deck, if any, into the hand of seat j; a
     * human's card is turned face up, a machine's keeps its flag, and no card
     * already held is turned over. The ghost hands hs follow the hands, and
     * the cards kept with the human's first m keep their flags.
     */
    method DealTo(ghost E: seq<bool>, j: nat, ghost hs: seq<seq<Card>>, ghost m: nat) returns (c: Card?, ghost hs': seq<seq<Card>>)
      requires DistinctSeats() && FiftyTwo() && HandsAre(hs) && FlagsAre(E) && j < |players|
      requires CardsConserved(deck.cards, hs, tableCards, allCards)
      requires m <= |hs[0]| && (0 < j ==> players[j].isMachine)
      modifies deck, players[j], Taken(deck.cards, 1)
      ensures Kept(deck.cards, hs', m) <= Kept(old(deck.cards), hs, m)
      ensures forall x :: x in Kept(deck.cards, hs', m) ==> x.faceUp == old(x.faceUp)
      ensures HandsAre(hs') && FlagsAre(E)
      ensures old(deck.cards) == [] ==> c == null && deck.cards == [] && hs' == hs
      ensures old(deck.cards) != [] ==>
        && c == old(deck.cards)[|old(deck.cards)| - 1]
        && deck.cards == old(deck.cards)[..|old(deck.cards)| - 1]
        && hs' == hs[j := hs[j] + [c]]
      ensures CardsConserved(deck.cards, hs', tableCards, allCards)
      ensures c != null ==> c.faceUp == (if players[j].isMachine then old(c.faceUp) else true)
      ensures forall q, i :: 0 <= q < |hs| && 0 <= i < |hs[q]| ==> hs[q][i].faceUp == old(hs[q][i].faceUp)
    {
      if deck.cards == [] {
        c := deck.DrawCard();
        hs' := hs;
        return;
      }
      c, hs' := DrawDealt(E, j, hs, m);
    }

    /** The draw of DealTo from a deck that holds a card; its contract is DealTo's for that case. */
    method DrawDealt(ghost E: seq<bool>, j: nat, ghost hs: seq<seq<Card>>, ghost m: nat) returns (c: Card, ghost hs': seq<seq<Card>>)
      requires DistinctSeats() && FiftyTwo() && HandsAre(hs) && FlagsAre(E) && j < |players| && deck.cards != []
      requires CardsConserved(deck.cards, hs, tableCards, allCards)
      requires m <= |hs[0]| && (0 < j ==> players[j].isMachine)
      modifies deck, players[j], Taken(deck.cards, 1)
      ensures Kept(deck.cards, hs', m) <= Kept(old(deck.cards), hs, m)
      ensures forall x :: x in Kept(deck.cards, hs', m) ==> x.faceUp == old(x.faceUp)
      ensures HandsAre(hs') && FlagsAre(E)
      ensures c == old(deck.cards)[|old(deck.cards)| - 1] && deck.cards == old(deck.cards)[..|old(deck.cards)| - 1]
      ensures hs' == hs[j := hs[j] + [c]]
      ensures CardsConserved(deck.cards, hs', tableCards, allCards)
      ensures c.faceUp == (if players[j].isMachine then old(c.faceUp) else true)
      ensures forall q, i :: 0 <= q < |hs| && 0 <= i < |hs[q]| ==> hs[q][i].faceUp == old(hs[q][i].faceUp)
    {
      ghost var d := deck.cards;
      TopApart(d, hs, tableCards, allCards);
      assert Taken(d, 1) == [d[|d| - 1]];
      assert forall x :: x in Kept(d, hs, m) ==> allocated(x);
      c, hs' := DrawInto(E, j, hs);
      KeptDealt(d, hs, m, j);
    }

    /**
     * The draw into seat j's hand from a deck that holds a card: the top card
     * moves into the hand, face up for the human and with its flag kept for a
     * machine, and no card already held is turned over. Its contract is
     * DealTo's for a deck that holds a card, less the kept cards, which
     * DrawDealt adds.
     */
    method DrawInto(ghost E: seq<bool>, j: nat, ghost hs: seq<seq<Card>>) returns (c: Card, ghost hs': seq<seq<Card>>)
      requires DistinctSeats() && FiftyTwo() && HandsAre(hs) && FlagsAre(E) && j < |players| && deck.cards != []
      requires CardsConserved(deck.cards, hs, tableCards, allCards)
      modifies deck, players[j], Taken(deck.cards, 1)
      ensures c == old(deck.cards)[|old(deck.cards)| - 1] && deck.cards == old(deck.cards)[..|old(deck.cards)| - 1]
      ensures c.faceUp == (if players[j].isMachine then old(c.faceUp) else true)
      ensures forall q, i :: 0 <= q < |hs| && 0 <= i < |hs[q]| ==> hs[q][i].faceUp == old(hs[q][i].faceUp)
      ensures hs' == hs[j := hs[j] + [c]]
      ensures HandsAre(hs') && FlagsAre(E)
      ensures CardsConserved(deck.cards, hs', tableCards, allCards)
    {
      ghost var D := deck.cards;
      DeckNotHeld(D, hs, tableCards, allCards);
      var drawn := deck.DrawCard();
      c := drawn;
      assert Taken(D, 1)[0] == c;
      MoveTopToHand(D, hs, tableCards, allCards, j);
      assert forall q, i :: 0 <= q < |hs| && 0 <= i < |hs[q]| ==> hs[q][i] != c;
      players[j].AddCard(c);
      hs' := hs[j := hs[j] + [c]];
      forall q | 0 <= q < |players| && q != j
        ensures players[q].hand == hs'[q] && players[q].isEliminated == E[q]
      {
        assert seatOf[players[q]] != seatOf[players[j]];
      }
    }

    /**
     * Turns the top card of the deck, if any, face up onto the table; the sum
     * restarts from its value at 0. No seat changes, and no other card is
     * turned over.
     */
    method TurnUpFirstCard()
      requires FiftyTwo() && HandsMatch() && FlagsMatch() && Conserved() && tableSum <= Limit
      modifies this`tableCards, this`tableSum, deck, Taken(deck.cards, 1)
      ensures HandsMatch() && FlagsMatch() && Conserved() && tableSum <= Limit
      ensures forall q, i :: 0 <= q < |hands| && 0 <= i < |hands[q]| ==> hands[q][i].faceUp == old(hands[q][i].faceUp)
      ensures old(deck.cards) == [] ==> deck.cards == [] && tableCards == old(tableCards) && tableSum == old(tableSum)
      ensures old(deck.cards) != [] ==> var D := old(deck.cards);
        && deck.cards == D[..|D| - 1]
        && tableCards == old(tableCards) + [D[|D| - 1]] && D[|D| - 1].faceUp
        && tableSum == Value(D[|D| - 1].rank, 0)
      ensures forall i :: 0 <= i < |deck.cards| ==> deck.cards[i].faceUp == old(deck.cards[i].faceUp)
    {
      ghost var D := deck.cards;
      ghost var T := tableCards;
      DeckNotHeld(D, hands, T, allCards);
      var initial := DrawToTable();
      if initial != null {
        TopApart(D, hands, T, allCards);
        assert Taken(D, 1)[0] == initial;
        initial.SetFaceUp(true);
        tableSum := initial.GetValue(0);
      }
    }

    /** The last card played onto the table, or null when the table is empty. */
    function GetTopCard(): (c: Card?)
      reads this`tableCards
      ensures c == null <==> tableCards == []
      ensures c != null ==> c == tableCards[|tableCards| - 1]
    {
      if tableCards == [] then null else tableCards[|tableCards| - 1]
    }

    /** Counts the seats still in play; the game is over when at most one is. */
    method IsGameOver() returns (over: bool)
      requires FlagsMatch()
      ensures over <==> GameOver()
    {
      var active := 0;
      for i := 0 to |players|
        invariant active == InPlay(eliminated[..i])
      {
        InPlayStep(eliminated, i);
        if !players[i].isEliminated {
          active := active + 1;
        }
      }
      assert eliminated[..|players|] == eliminated;
      over := active <= 1;
    }

    /**
     * The winner once the game is over: the first seat still in play, whose
     * counters are marked as the winner's. Null, with nothing marked, while
     * the game goes on or when no seat is left in play.
     */
    method GetWinner() returns (w: Player?)
      requires Valid()
      modifies this`playerStats
      ensures Valid()
      ensures !GameOver() ==> w == null && playerStats == old(playerStats)
      ensures GameOver() && FirstInPlay(eliminated).None? ==> w == null && playerStats == old(playerStats)
      ensures GameOver() && FirstInPlay(eliminated).Some? ==>
        w == players[FirstInPlay(eliminated).value] && playerStats == MarkWinner(old(playerStats), w.name)
    {
      var over := IsGameOver();
      if !over {
        return null;
      }
      for i := 0 to |players|
        invariant forall k :: 0 <= k < i ==> eliminated[k]
      {
        var p := players[i];
        if !p.isEliminated {
          assert FirstInPlay(eliminated) == Some(i) by {
            FirstInPlayAt(eliminated, i);
          }
          playerStats := MarkWinner(playerStats, p.name);
          return p;
        }
      }
      return null;
    }

    /**
     * Ends the current turn: one more turn in the counters, of the game and of
     * the departing player, then the turn passes round the table to the next
     * seat still in play (or just to the next seat once at most one is in
     * play), and the turn queue is rebuilt from the new current seat.
     */
    method NextTurn()
      requires Valid()
      modifies this`currentPlayerIndex, this`turnQueue, this`stats, this`playerStats
      ensures Valid()
      ensures stats == old(stats).(totalTurns := old(stats).totalTurns + 1)
      ensures playerStats == CountTurn(old(playerStats), players[old(currentPlayerIndex)].name)
      ensures PassesTo(eliminated, old(currentPlayerIndex), currentPlayerIndex)
      ensures turnQueue == TurnOrder(players, eliminated, currentPlayerIndex)
    {
      var counted := stats.(totalTurns := stats.totalTurns + 1);
      var current := players[currentPlayerIndex];
      var perPlayer := CountTurn(playerStats, current.name);
      var next := SeatAfter(currentPlayerIndex);
      var queue := QueueFrom(next);
      SetTurn(counted, perPlayer, next, queue);
    }

    /** Stores the counters, the current seat and the turn queue of a turn change. */
    method SetTurn(s: GameStats, m: map<string, PlayerGameStats>, next: nat, queue: seq<Player>)
      requires Valid() && next < |players| && forall i :: 0 <= i < |players| ==> players[i].name in m
      modifies this`stats, this`playerStats, this`currentPlayerIndex, this`turnQueue
      ensures Valid()
      ensures stats == s && playerStats == m && currentPlayerIndex == next && turnQueue == queue
    {
      stats := s;
      playerStats := m;
      currentPlayerIndex := next;
      turnQueue := queue;
    }

    /**
     * The do-while of the turn, on the seat index: move on one seat, and on
     * while that seat is out and the game is not over.
     */
    method SeatAfter(from: nat) returns (to: nat)
      requires FlagsMatch() && from < |players|
      ensures to < |players| && PassesTo(eliminated, from, to)
    {
      var n := |players|;
      ghost var e := 0;
      SeatStep(from, 0, n);
      to := from;
      var moving := true;
      while moving
        invariant e <= n && to == Seat(from, e, n)
        invariant moving ==> e < n && (e > 0 ==> !GameOver())
        invariant moving ==> forall d :: 1 <= d <= e ==> eliminated[Seat(from, d, n)]
        invariant !moving ==> e >= 1 && (GameOver() ==> e == 1)
        invariant !moving && !GameOver() ==>
          !eliminated[to] && forall d :: 1 <= d < e ==> eliminated[Seat(from, d, n)]
        decreases n - e
      {
        SeatStep(from, e, n);
        to := (to + 1) % n;
        e := e + 1;
        var over := IsGameOver();
        moving := players[to].isEliminated && !over;
        if moving {
          RoundNotDone(eliminated, from, e);
        }
      }
      GapOfSeat(from, e, n);
    }

    /** The turn queue from seat k: the seats in play, round the table from seat k. */
    method QueueFrom(k: nat) returns (queue: seq<Player>)
      requires FlagsMatch() && k < |players|
      ensures queue == TurnOrder(players, eliminated, k)
    {
      var n := |players|;
      ghost var rs := Rotated(players, k);
      ghost var rE := Rotated(eliminated, k);
      queue := [];
      for i := 0 to n
        invariant queue == Survivors(rs[..i], rE[..i])
      {
        var index := (k + i) % n;
        RotatedAt(players, k, i);
        RotatedAt(eliminated, k, i);
        SurvivorsStep(rs, rE, i);
        var p := players[index];
        if !p.isEliminated {
          queue := queue + [p];
        }
      }
      assert rs[..n] == rs && rE[..n] == rE;
    }

    /**
     * Plays `card` for the current player. It is refused, with nothing
     * changed, when it is null, when the current player does not hold it, or
     * when it would take the table sum past 50, checked in that order.
     * Otherwise it leaves the hand, goes face up onto the table, the sum grows
     * by its value, and the game's and the player's played-card counts grow
     * by one. No other card is turned over.
     */
    method PlayCard(card: Card?) returns (o: Outcome)
      requires Valid()
      modifies this`tableCards, this`tableSum, this`hands, this`stats, this`playerStats, seatOf.Keys, card
      ensures Valid()
      ensures o == PlayVerdict(old(hands[currentPlayerIndex]), old(tableSum), card)
      ensures o.Fail? ==> && tableCards == old(tableCards) && tableSum == old(tableSum) && hands == old(hands)
                          && stats == old(stats) && playerStats == old(playerStats)
                          && (card != null ==> card.faceUp == old(card.faceUp))
      ensures o.Pass? ==> var q := currentPlayerIndex; var sum := old(tableSum);
        && hands == old(hands)[q := RemoveFirst(old(hands[q]), card)]
        && tableCards == old(tableCards) + [card] && card.faceUp
        && tableSum == sum + Value(card.rank, sum)
        && stats == old(stats).(cardsPlayed := old(stats).cardsPlayed + 1)
        && playerStats == CountPlay(old(playerStats), players[q].name)
    {
      if card == null {
        return Fail(InvalidMove(NullCard));
      }
      o := PlayGiven(card);
    }

    /**
     * A play of a given card, from the check that the current player holds it
     * on. Its contract is PlayCard's for a card that is not null.
     */
    method PlayGiven(card: Card?) returns (o: Outcome)
      requires Valid() && card != null
      modifies this`tableCards, this`tableSum, this`hands, this`stats, this`playerStats, seatOf.Keys, card
      ensures Valid()
      ensures o == PlayVerdict(old(hands[currentPlayerIndex]), old(tableSum), card)
      ensures o.Fail? ==> && tableCards == old(tableCards) && tableSum == old(tableSum) && hands == old(hands)
                          && stats == old(stats) && playerStats == old(playerStats)
                          && (card != null ==> card.faceUp == old(card.faceUp))
      ensures o.Pass? ==> var q := currentPlayerIndex; var sum := old(tableSum);
        && hands == old(hands)[q := RemoveFirst(old(hands[q]), card)]
        && tableCards == old(tableCards) + [card] && card.faceUp
        && tableSum == sum + Value(card.rank, sum)
        && stats == old(stats).(cardsPlayed := old(stats).cardsPlayed + 1)
        && playerStats == CountPlay(old(playerStats), players[q].name)
      ensures currentPlayerIndex == old(currentPlayerIndex)
    {
      var current := GetCurrentPlayer().value;
      if card !in current.hand {
        return Fail(InvalidMove(NotInHand));
      }
      o := PlayHeld(card);
    }

    /**
     * A play of a card the current player holds, from the check of the sum
     * on. Its contract is PlayGiven's for a card the current player holds.
     */
    method PlayHeld(card: Card?) returns (o: Outcome)
      requires Valid() && card != null && card in hands[currentPlayerIndex]
      modifies this`tableCards, this`tableSum, this`hands, this`stats, this`playerStats, seatOf.Keys, card
      ensures Valid()
      ensures o == PlayVerdict(old(hands[currentPlayerIndex]), old(tableSum), card)
      ensures o.Fail? ==> && tableCards == old(tableCards) && tableSum == old(tableSum) && hands == old(hands)
                          && stats == old(stats) && playerStats == old(playerStats)
                          && (card != null ==> card.faceUp == old(card.faceUp))
      ensures o.Pass? ==> var q := currentPlayerIndex; var sum := old(tableSum);
        && hands == old(hands)[q := RemoveFirst(old(hands[q]), card)]
        && tableCards == old(tableCards) + [card] && card.faceUp
        && tableSum == sum + Value(card.rank, sum)
        && stats == old(stats).(cardsPlayed := old(stats).cardsPlayed + 1)
        && playerStats == CountPlay(old(playerStats), players[q].name)
      ensures currentPlayerIndex == old(currentPlayerIndex)
    {
      var newSum := tableSum + card.GetValue(tableSum);
      if newSum > Limit {
        return Fail(InvalidMove(OverLimit));
      }
      PlayChecked(card, newSum);
      return Pass;
    }

    /** A play that passed every check: the card moves to the table and is scored. */
    method PlayChecked(card: Card, newSum: int)
      requires Valid() && card in hands[currentPlayerIndex]
      requires newSum == tableSum + Value(card.rank, tableSum) <= Limit
      modifies this`tableCards, this`tableSum, this`hands, this`stats, this`playerStats, seatOf.Keys, card
      ensures Valid()
      ensures var q := currentPlayerIndex; var sum := old(tableSum);
        && hands == old(hands)[q := RemoveFirst(old(hands[q]), card)]
        && tableCards == old(tableCards) + [card] && card.faceUp
        && tableSum == sum + Value(card.rank, sum)
        && stats == old(stats).(cardsPlayed := old(stats).cardsPlayed + 1)
        && playerStats == CountPlay(old(playerStats), players[q].name)
      ensures currentPlayerIndex == old(currentPlayerIndex)
    {
      var q := currentPlayerIndex;
      var counted := stats.(cardsPlayed := stats.cardsPlayed + 1);
      var perPlayer := CountPlay(playerStats, players[q].name);
      HandToTable(card, q);
      Score(newSum, counted, perPlayer);
    }

    /** The card leaves the current player's hand and goes face up onto the table. */
    method HandToTable(card: Card, q: nat)
      requires Valid() && q == currentPlayerIndex && card in hands[q]
      modifies this`tableCards, this`hands, seatOf.Keys, card
      ensures Valid()
      ensures hands == old(hands)[q := RemoveFirst(old(hands)[q], card)]
      ensures tableCards == old(tableCards) + [card] && card.faceUp
      ensures currentPlayerIndex == old(currentPlayerIndex)
    {
      var current := players[q];
      MoveHandToTable(deck.cards, hands, tableCards, allCards, q, card);
      var removed := current.RemoveCard(card);
      assert removed;
      card.SetFaceUp(true);
      tableCards := tableCards + [card];
      hands := hands[q := current.hand];
      forall i | 0 <= i < |players| && i != q
        ensures players[i].hand == hands[i] && players[i].isEliminated == eliminated[i]
      {
        assert seatOf[players[i]] != seatOf[players[q]];
      }
    }

    /** Stores the sum and the counters after a card is played. */
    method Score(newSum: int, s: GameStats, m: map<string, PlayerGameStats>)
      requires Valid() && newSum <= Limit && forall i :: 0 <= i < |players| ==> players[i].name in m
      modifies this`tableSum, this`stats, this`playerStats
      ensures Valid()
      ensures tableSum == newSum && stats == s && playerStats == m
    {
      tableSum := newSum;
      stats := s;
      playerStats := m;
    }

    /**
     * The current player draws a card. An empty deck is first refilled from
     * the table; DeckEmpty, with nothing changed, when the deck is empty and
     * the table holds at most one card. Otherwise the top card of the deck
     * goes to the current player's hand and is returned, face up when the
     * current player is the human. Only the drawn card, or the recycled table
     * cards, can be turned over.
     */
    method DrawCard(draws: seq<nat>) returns (r: Result<Card>)
      requires Valid()
      modifies this`tableCards, this`hands, deck, seatOf.Keys,
        if deck.cards == [] then Recyclable(tableCards) else Taken(deck.cards, 1)
      ensures Valid()
      ensures r.Err? <==> old(deck.cards) == [] && |old(tableCards)| <= 1
      ensures r.Err? ==> && r.error == DeckEmpty && deck.cards == old(deck.cards)
                         && tableCards == old(tableCards) && hands == old(hands)
      ensures old(deck.cards) != [] ==> var D := old(deck.cards); var q := currentPlayerIndex;
        && r == Ok(D[|D| - 1]) && deck.cards == D[..|D| - 1] && tableCards == old(tableCards)
        && hands == old(hands)[q := old(hands[q]) + [D[|D| - 1]]]
        && D[|D| - 1].faceUp == (if players[q].isMachine then old(D[|D| - 1].faceUp) else true)
      ensures old(deck.cards) == [] && |old(tableCards)| >= 2 ==> var T := old(tableCards); var q := currentPlayerIndex;
        && r.Ok? && tableCards == [T[|T| - 1]]
        && multiset(deck.cards + [r.value]) == multiset(T[..|T| - 1])
        && (forall i :: 0 <= i < |T| - 1 && T[i] != r.value ==> !T[i].faceUp)
        && r.value.faceUp == !players[q].isMachine
        && hands == old(hands)[q := old(hands[q]) + [r.value]]
    {
      if deck.IsEmpty() {
        r := RefillThenDraw(draws);
        return;
      }
      assert Taken(deck.cards, 1)[0] == deck.cards[|deck.cards| - 1];
      var c := DrawForCurrent();
      return Ok(c);
    }

    /**
     * The draw from an empty deck: the deck is refilled from the table, and
     * when that leaves it empty still, DeckEmpty with nothing changed. The
     * drawn card was turned face down with the rest, and is turned face up
     * again when the human draws it.
     */
    method RefillThenDraw(draws: seq<nat>) returns (r: Result<Card>)
      requires Valid() && deck.cards == []
      modifies this`tableCards, this`hands, deck, seatOf.Keys, Recyclable(tableCards)
      ensures Valid()
      ensures r.Err? <==> |old(tableCards)| <= 1
      ensures r.Err? ==> && r.error == DeckEmpty && deck.cards == old(deck.cards)
                         && tableCards == old(tableCards) && hands == old(hands)
      ensures r.Ok? ==> var T := old(tableCards); var q := currentPlayerIndex;
        && tableCards == [T[|T| - 1]]
        && multiset(deck.cards + [r.value]) == multiset(T[..|T| - 1])
        && (forall i :: 0 <= i < |T| - 1 && T[i] != r.value ==> !T[i].faceUp)
        && r.value.faceUp == !players[q].isMachine
        && hands == old(hands)[q := old(hands[q]) + [r.value]]
    {
      ghost var T := tableCards;
      RecycleDeck(draws);
      if deck.IsEmpty() {
        return Err(DeckEmpty);
      }
      ghost var k := RecycledTop(deck.cards, T);
      var c := DrawRecycled(T);
      return Ok(c);
    }

    /**
     * The draw that follows a refill from the table cards T: the card comes
     * from the face-down cards of T, and is turned face up for the human.
     * Its contract is RefillThenDraw's for a refill that leaves a card to draw.
     */
    method DrawRecycled(ghost T: seq<Card>) returns (c: Card)
      requires Valid() && |T| >= 2 && deck.cards != []
      requires multiset(deck.cards) == multiset(T[..|T| - 1])
      requires forall i :: 0 <= i < |T| - 1 ==> !T[i].faceUp
      modifies this`hands, deck, seatOf.Keys, deck.cards[|deck.cards| - 1]
      ensures Valid()
      ensures multiset(deck.cards + [c]) == multiset(T[..|T| - 1])
      ensures forall i :: 0 <= i < |T| - 1 && T[i] != c ==> !T[i].faceUp
      ensures c.faceUp == !players[currentPlayerIndex].isMachine
      ensures hands == old(hands)[currentPlayerIndex := old(hands[currentPlayerIndex]) + [c]]
    {
      ghost var D := deck.cards;
      TopLast(D);
      assert D[|D| - 1] in multiset(T[..|T| - 1]);
      c := DrawForCurrent();
    }

    /**
     * The top card of a non-empty deck goes into the current player's hand,
     * turned face up for the human; a machine's card keeps its flag.
     */
    method DrawForCurrent() returns (c: Card)
      requires Valid() && deck.cards != []
      modifies this`hands, deck, seatOf.Keys, deck.cards[|deck.cards| - 1]
      ensures Valid()
      ensures var D := old(deck.cards); c == D[|D| - 1] && deck.cards == D[..|D| - 1]
      ensures hands == old(hands)[currentPlayerIndex := old(hands[currentPlayerIndex]) + [c]]
      ensures c.faceUp == (if players[currentPlayerIndex].isMachine then old(c.faceUp) else true)
    {
      var q := currentPlayerIndex;
      ghost var D := deck.cards;
      MoveTopToHand(D, hands, tableCards, allCards, q);
      var drawn := deck.DrawCard();
      c := drawn;
      var current := GetCurrentPlayer().value;
      current.AddCard(c);
      hands := hands[q := hands[q] + [c]];
      forall i | 0 <= i < |players| && i != q
        ensures players[i].hand == hands[i] && players[i].isEliminated == eliminated[i]
      {
        assert seatOf[players[i]] != seatOf[players[q]];
      }
    }

    /**
     * Refills the deck from the table: when the table holds two cards or
     * more, every card but the last is turned face down and pushed onto the
     * deck, in table order, and the deck is shuffled; the table keeps its last
     * card, with its flag, and the sum stays as it is; no card in a hand is
     * turned over. A table of at most one card is left alone.
     */
    method RecycleDeck(draws: seq<nat>)
      requires Valid()
      modifies this`tableCards, deck, Recyclable(tableCards)
      ensures Valid()
      ensures |old(tableCards)| <= 1 ==> tableCards == old(tableCards) && deck.cards == old(deck.cards)
      ensures |old(tableCards)| >= 2 ==> var T := old(tableCards);
        && tableCards == [T[|T| - 1]]
        && multiset(deck.cards) == multiset(old(deck.cards)) + multiset(T[..|T| - 1])
        && (forall i :: 0 <= i < |T| - 1 ==> !T[i].faceUp)
        && T[|T| - 1].faceUp == old(T[|T| - 1].faceUp)
        && forall q, i :: 0 <= q < |hands| && 0 <= i < |hands[q]| ==> hands[q][i].faceUp == old(hands[q][i].faceUp)
    {
      if |tableCards| <= 1 {
        return;
      }
      var toRecycle := TableFaceDown();
      RefillDeck(toRecycle, draws);
    }

    /**
     * Every table card but the last is turned face down, as a step that keeps
     * the game valid; the last table card and the cards in hands keep their flags.
     */
    method TableFaceDown() returns (cards: seq<Card>)
      requires Valid() && |tableCards| >= 2
      modifies Recyclable(tableCards)
      ensures Valid()
      ensures cards == tableCards[..|tableCards| - 1]
      ensures forall i :: 0 <= i < |cards| ==> !cards[i].faceUp
      ensures tableCards[|tableCards| - 1].faceUp == old(tableCards[|tableCards| - 1].faceUp)
      ensures forall q, i :: 0 <= q < |hands| && 0 <= i < |hands[q]| ==> hands[q][i].faceUp == old(hands[q][i].faceUp)
    {
      TableApart(deck.cards, hands, tableCards, allCards);
      cards := TurnDown();
    }

    /**
     * The table keeps its last card, the cards before it go onto the deck in
     * table order, and the deck is shuffled.
     */
    method RefillDeck(cards: seq<Card>, draws: seq<nat>)
      requires Valid() && |tableCards| >= 2 && cards == tableCards[..|tableCards| - 1]
      modifies this`tableCards, deck
      ensures Valid()
      ensures var T := old(tableCards); tableCards == [T[|T| - 1]]
      ensures multiset(deck.cards) == multiset(old(deck.cards)) + multiset(cards)
    {
      ghost var T := tableCards;
      ghost var D := deck.cards;
      var lastCard := tableCards[|tableCards| - 1];
      tableCards := [lastCard];
      deck.AddCards(cards);
      deck.Shuffle(draws);
      RecycleTable(D, deck.cards, hands, T, allCards);
    }

    /**
     * Turns every table card but the last face down and returns them in table
     * order; it may turn over no other card.
     */
    method TurnDown() returns (cards: seq<Card>)
      requires |tableCards| >= 1
      modifies tableCards[..|tableCards| - 1]
      ensures cards == tableCards[..|tableCards| - 1]
      ensures forall i :: 0 <= i < |cards| ==> !cards[i].faceUp
    {
      cards := [];
      for i := 0 to |tableCards| - 1
        invariant cards == tableCards[..i]
        invariant forall k :: 0 <= k < i ==> !tableCards[k].faceUp
      {
        var card := tableCards[i];
        card.SetFaceUp(false);
        cards := cards + [card];
      }
    }

    /**
     * Puts the current player out when they hold no playable card: their
     * hand goes onto the deck, in hand order, they are flagged eliminated and
     * the eliminated count grows by one, and the outcome is NoValidCard with
     * their name. When they can still play, InvalidGameState and nothing changes.
     */
    method EliminateCurrentPlayer() returns (o: Outcome)
      requires Valid()
      modifies this`hands, this`eliminated, this`stats, deck, seatOf.Keys
      ensures Valid()
      ensures var q := currentPlayerIndex; CanPlayHand(old(hands[q]), tableSum) ==>
        && o == Fail(InvalidGameState)
        && hands == old(hands) && eliminated == old(eliminated) && deck.cards == old(deck.cards) && stats == old(stats)
      ensures var q := currentPlayerIndex; !CanPlayHand(old(hands[q]), tableSum) ==>
        && o == Fail(NoValidCard(players[q].name))
        && hands == old(hands)[q := []] && eliminated == old(eliminated)[q := true]
        && deck.cards == old(deck.cards) + old(hands[q])
        && stats == old(stats).(playersEliminated := old(stats).playersEliminated + 1)
    {
      var player := GetCurrentPlayer().value;
      var can := player.CanPlay(tableSum);
      if can {
        return Fail(InvalidGameState);
      }
      HandToDeck();
      MarkEliminated();
      return Fail(NoValidCard(player.name));
    }

    /** The current player's hand goes onto the deck, in hand order, and the hand is left empty. */
    method HandToDeck()
      requires Valid()
      modifies this`hands, deck, seatOf.Keys
      ensures Valid()
      ensures hands == old(hands)[currentPlayerIndex := []]
      ensures deck.cards == old(deck.cards) + old(hands[currentPlayerIndex])
    {
      var q := currentPlayerIndex;
      var player := players[q];
      MoveHandToDeck(deck.cards, hands, tableCards, allCards, q);
      var cards := player.ClearHand();
      deck.AddCards(cards);
      hands := hands[q := []];
      forall i | 0 <= i < |players| && i != q
        ensures players[i].hand == hands[i] && players[i].isEliminated == eliminated[i]
      {
        assert seatOf[players[i]] != seatOf[players[q]];
      }
    }

    /** The current player is flagged eliminated and counted. */
    method MarkEliminated()
      requires Valid()
      modifies this`eliminated, this`stats, seatOf.Keys
      ensures Valid()
      ensures eliminated == old(eliminated)[currentPlayerIndex := true]
      ensures stats == old(stats).(playersEliminated := old(stats).playersEliminated + 1)
    {
      var q := currentPlayerIndex;
      var player := players[q];
      player.Eliminate();
      eliminated := eliminated[q := true];
      stats := stats.(playersEliminated := stats.playersEliminated + 1);
      forall i | 0 <= i < |players| && i != q
        ensures players[i].hand == hands[i] && players[i].isEliminated == eliminated[i]
      {
        assert seatOf[players[i]] != seatOf[players[q]];
      }
    }

    /** Moves the top card of the deck, if any, onto the table, as it lies. */
    method DrawToTable() returns (c: Card?)
      requires Conserved()
      modifies this`tableCards, deck
      ensures Conserved()
      ensures old(deck.cards) == [] ==> c == null && deck.cards == [] && tableCards == old(tableCards)
      ensures old(deck.cards) != [] ==>
        && c == old(deck.cards)[|old(deck.cards)| - 1] && c in allCards
        && deck.cards == old(deck.cards)[..|old(deck.cards)| - 1]
        && tableCards == old(tableCards) + [c]
    {
      ghost var D := deck.cards;
      c := deck.DrawCard();
      if c != null {
        MoveTopToTable(D, hands, tableCards, allCards);
        tableCards := tableCards + [c];
      }
    }
  }

  /**
   * A new game once started: every seat holds four cards, one card lies face
   * up on the table with the sum its value at 0, and the deck holds the
   * remaining 51 - 4n cards, for n seats.
   */
  method NewGameStarted(numBots: nat, draws: seq<nat>) returns (g: GameModel)
    requires 1 <= numBots <= 3
    ensures g.Valid() && |g.players| == numBots + 1
    ensures forall q :: 0 <= q < |g.players| ==> |g.players[q].hand| == 4
    ensures |g.tableCards| == 1 && g.tableCards[0].faceUp && g.tableSum == Value(g.tableCards[0].rank, 0)
    ensures |g.deck.cards| == 51 - 4 * |g.players|
    ensures forall i :: 0 <= i < |g.players[0].hand| ==> g.players[0].hand[i].faceUp
  {
    g := new GameModel(numBots, draws);
    ghost var D := g.deck.cards;
    TakenFromPile(D, 0, 4 * |g.players|);
    TakenFromPile(D, 4 * |g.players|, 1);
    ghost var dealt := Taken(D, 4 * |g.players|);
    ghost var turned := Taken(Rest(D, 4 * |g.players|), 1);
    assert Rest(D, 0) == D;
    forall i | 0 <= i < |dealt|
      ensures fresh(dealt[i])
    {
      assert dealt[i] in dealt;
    }
    forall i | 0 <= i < |turned|
      ensures fresh(turned[i])
    {
      assert turned[i] in turned;
    }
    StartNew(g);
  }

  /**
   * Start on a game as the constructor leaves it: a full deck, empty hands
   * and an empty table. Its contract is NewGameStarted's for such a game.
   */
  method StartNew(g: GameModel)
    requires g.Valid() && |g.deck.cards| == 52 && 2 <= |g.players| <= 4 && g.tableCards == []
    requires forall q :: 0 <= q < |g.hands| ==> g.hands[q] == []
    modifies g`tableCards, g`tableSum, g`hands, g.deck, g.seatOf.Keys
    modifies Taken(g.deck.cards, 4 * |g.players|), Taken(Rest(g.deck.cards, 4 * |g.players|), 1)
    ensures g.Valid()
    ensures forall q :: 0 <= q < |g.players| ==> |g.players[q].hand| == 4
    ensures |g.tableCards| == 1 && g.tableCards[0].faceUp && g.tableSum == Value(g.tableCards[0].rank, 0)
    ensures |g.deck.cards| == 51 - 4 * |g.players|
    ensures forall i :: 0 <= i < |g.players[0].hand| ==> g.players[0].hand[i].faceUp
  {
    FirstDeal(g.deck.cards, g.hands);
    g.Start();
  }
}