// A room of the card game: who plays, whose turn it is, where the cards are, and the
// state machine that timer ticks and the players' requests drive.

module Rooms {
  import opened Arith
  import opened Cards
  import opened RoomRules

  const TIMER_DEALING_INTERVAL := 5
  const TIMER_SELECT_FIRST_CARD_INTERVAL := 2
  const TIMER_PLAYER_THINKING := 200
  const PUNISH: nat := 2
  const PLAYER_AUTO_PLAY_THINKING_TIME := 170
  const MAX_PLAYERS: nat := 20

  datatype GameState = Idle | Dealing | DealingDealer | SelectFirstCard | WaitPlayer

  /** What a room is driven by. */
  datatype Event =
    | Starts | Ticks(offline: bool)
    | Plays(uid: nat, c: int, withUno: bool, chgColor: int) | Draws(uid: nat) | Reports(uid: nat)
    | Leaves(uid: nat) | Enters(uid: nat) | Shuffles

  datatype Reason = Normal | Draw | BadUno | Report | LastCard

  /** The position of a player at the table. */
  function IndexOf(s: seq<nat>, u: nat): (i: nat)
    requires u in s
    ensures i < |s| && s[i] == u
  {
    if s[0] == u then 0 else 1 + IndexOf(s[1..], u)
  }

  lemma IndexUnique(s: seq<nat>, i: nat)
    requires Distinct(s) && i < |s|
    ensures IndexOf(s, s[i]) == i
  {
  }

  /** Everybody has what a round robin deal of t cards from seat d on gives. */
  ghost predicate RoundRobin(seats: seq<nat>, hands: map<nat, seq<int>>, d: nat, t: nat, direction: int)
    requires d < |seats|
  {
    forall i :: 0 <= i < |seats| ==>
      seats[i] in hands && |hands[seats[i]]| == RoomRules.Dealt(t, Offset(i, d, direction, |seats|), |seats|)
  }

  /** Seven cards for everybody, and some more for the dealer. */
  ghost predicate StartHands(seats: seq<nat>, hands: map<nat, seq<int>>, dealer: int, extra: nat) {
    forall u :: u in seats ==> u in hands && |hands[u]| == PLAYER_START_CARD_COUNT + if u == dealer then extra else 0
  }

  lemma StartMeans(seats: seq<nat>, hands: map<nat, seq<int>>, dealer: int)
    requires StartHands(seats, hands, dealer, DEALER_START_CARD_EXT_COUNT)
    ensures forall u :: u in seats ==> u in hands && |hands[u]| == if u == dealer then 9 else 7
  {
  }

  ghost function Members(s: seq<nat>): set<nat> {
    set u | u in s
  }

  /** A hand without the first card of a kind. */
  function Removed(hand: seq<int>, c: int): (r: seq<int>)
    requires c in hand
    ensures |r| == |hand| - 1
  {
    if hand[0] == c then hand[1..] else [hand[0]] + Removed(hand[1..], c)
  }

  lemma {:induction false} RemovedCards(hand: seq<int>, c: int)
    requires c in hand
    ensures multiset(Removed(hand, c)) + multiset{c} == multiset(hand)
  {
    assert hand == [hand[0]] + hand[1..];
    if hand[0] != c {
      RemovedCards(hand[1..], c);
    }
  }

  lemma {:induction false} RemovedAt(hand: seq<int>, i: nat)
    requires i < |hand| && hand[i] !in hand[..i]
    ensures Removed(hand, hand[i]) == hand[..i] + hand[i + 1..]
  {
    if i == 0 {
      assert hand[..0] + hand[1..] == hand[1..];
    } else {
      assert hand[0] in hand[..i];
      assert hand[1..][..i - 1] == hand[..i][1..];
      RemovedAt(hand[1..], i - 1);
      assert hand[1..][i - 1] == hand[i] && hand[1..][i..] == hand[i + 1..];
      assert hand[..i] + hand[i + 1..] == [hand[0]] + (hand[1..][..i - 1] + hand[1..][i..]);
    }
  }

  /** The hands after one player got a card. */
  function WithCard(hands: map<nat, seq<int>>, u: nat, c: int): map<nat, seq<int>>
    requires u in hands
  {
    hands[u := hands[u] + [c]]
  }

  function Cleared(hands: map<nat, seq<int>>): (r: map<nat, seq<int>>)
    ensures r.Keys == hands.Keys && forall u :: u in r ==> r[u] == []
  {
    map u | u in hands :: []
  }

  // Randomness: an arbitrary permutation, an arbitrary member, an arbitrary index. Callers
  // know nothing else about the result.

  method RandomShuffle<T(==)>(s: seq<T>) returns (t: seq<T>)
    ensures multiset(t) == multiset(s) && |t| == |s|
  {
    t := s;
  }

  method RandomSelect<T>(s: seq<T>) returns (x: T)
    requires s != []
    ensures x in s
  {
    x := s[0];
  }

  method RandomIndex(n: nat) returns (i: nat)
    requires n > 0
    ensures i < n
  {
    i := 0;
  }

  class Room {
    var playing: bool
    var seats: seq<nat>
    var currPlayers: int
    var maxPlayers: nat
    var hands: map<nat, seq<int>>
    var lastWin: int
    var lastDirection: int
    var gameState: GameState
    var dealTurn: nat
    var cursor: int
    var direction: int
    var dealer: int
    var timer: int
    var heap: seq<int>
    var history: seq<int>
    var last: nat
    var lastChgColor: int
    var draw: nat
    var lastCanReport: int
    var canPlayAhead: bool
    ghost var played: seq<int>   // the cards played since the last regular deal
    ghost var markLeft: bool     // the player who can be reported has left

    /** The players at the table, in a game or not. */
    ghost predicate Table()
      reads this`currPlayers, this`seats, this`maxPlayers, this`hands, this`lastWin, this`lastDirection
    {
      && currPlayers == |seats| <= maxPlayers <= MAX_PLAYERS && Distinct(seats)
      && hands.Keys == Members(seats)
      && (lastWin == -1 || (lastWin >= 0 && lastWin in seats))
      && (lastDirection == 1 || lastDirection == -1)
    }

    /** Whose turn it is. */
    ghost predicate Turned()
      reads this`seats, this`cursor, this`direction
    {
      |seats| >= 2 && 0 <= cursor < |seats| && (direction == 1 || direction == -1)
    }

    /** All cards are in the pile, in the discard history, or in a hand. */
    ghost predicate Conserved()
      reads this`heap, this`history, this`seats, this`hands
    {
      multiset(heap) + multiset(history) + HandsOf(seats, hands) == Deck()
    }

    /** The open penalty is what the penalty cards since the last regular deal add up to. */
    ghost predicate Penalised()
      reads this`last, this`draw, this`played, this`lastCanReport
    {
      && (last == 0 || IsCard(last)) && (draw > 0 ==> IsPenalty(last))
      && draw == Penalties(played) && lastCanReport >= -1
    }

    /** The player who can be reported is at the table, unless that player has left. */
    ghost predicate Marked()
      reads this`lastCanReport, this`seats, this`markLeft
    {
      if lastCanReport < 0 then !markLeft else markLeft <==> lastCanReport !in seats
    }

    /** Nothing has been played. */
    ghost predicate Fresh()
      reads this`draw, this`history, this`last, this`lastChgColor, this`played, this`lastCanReport
      reads this`dealer, this`seats
    {
      && draw == 0 && history == [] && last == 0 && lastChgColor == 0 && played == [] && lastCanReport == -1
      && dealer >= 0 && dealer in seats
    }

    /** How far the dealing is: whose turn, and how many cards everybody has. */
    ghost predicate Dealt()
      reads this`canPlayAhead, this`dealTurn, this`seats, this`cursor, this`direction, this`dealer, this`heap
      reads this`hands
      reads this`gameState, this`draw, this`history, this`last, this`lastChgColor, this`played, this`lastCanReport
      requires Turned()
    {
      match gameState
      case Idle => false
      case WaitPlayer => true
      case Dealing => Fresh() && RoundPhase()
      case DealingDealer => Fresh() && DealerPhase()
      case SelectFirstCard => Fresh() && FirstPhase()
    }

    /** Seven cards for everybody, from the dealer on in the direction of the game. */
    ghost predicate RoundPhase()
      reads this`canPlayAhead, this`dealTurn, this`seats, this`cursor, this`direction, this`dealer, this`heap
      reads this`hands
      requires Turned()
    {
      && !canPlayAhead && dealTurn < PLAYER_START_CARD_COUNT * |seats|
      && cursor == Seat(DealerSeat(), dealTurn, direction, |seats|)
      && |heap| == DECK_SIZE - dealTurn
      && RoundRobin(seats, hands, DealerSeat(), dealTurn, direction)
    }

    /** Two more for the dealer. */
    ghost predicate DealerPhase()
      reads this`canPlayAhead, this`dealTurn, this`seats, this`cursor, this`direction, this`dealer, this`heap
      reads this`hands
      requires Turned()
    {
      && !canPlayAhead && seats[cursor] == dealer && dealTurn < DEALER_START_CARD_EXT_COUNT
      && |heap| == DECK_SIZE - PLAYER_START_CARD_COUNT * |seats| - dealTurn
      && StartHands(seats, hands, dealer, dealTurn)
    }

    /** A first card to play on. */
    ghost predicate FirstPhase()
      reads this`canPlayAhead, this`dealTurn, this`seats, this`cursor, this`direction, this`dealer, this`heap
      reads this`hands
      requires Turned()
    {
      && canPlayAhead && seats[cursor] == dealer && dealTurn == 0
      && |heap| == DECK_SIZE - PLAYER_START_CARD_COUNT * |seats| - DEALER_START_CARD_EXT_COUNT
      && StartHands(seats, hands, dealer, DEALER_START_CARD_EXT_COUNT)
    }

    ghost function DealerSeat(): (d: nat)
      reads this`seats, this`dealer
      ensures seats != [] ==> d < |seats|
    {
      if dealer >= 0 && dealer in seats then IndexOf(seats, dealer) else 0
    }

    /** What every state of a game keeps. */
    ghost predicate InGame()
      reads this`canPlayAhead, this`dealTurn, this`seats, this`cursor, this`direction, this`dealer, this`heap
      reads this`hands
      reads this`gameState, this`draw, this`history, this`last, this`lastChgColor, this`played, this`lastCanReport
      reads this`playing, this`currPlayers, this`maxPlayers, this`lastWin, this`lastDirection, this`markLeft
    {
      playing && Table() && Turned() && Conserved() && Penalised() && Marked() && Dealt()
    }

    ghost predicate Valid()
      reads this
    {
      if playing then InGame() else Table() && !markLeft
    }

    // The room outside a game.

    /** A new room with its owner. */
    constructor (owner: nat, playerCount: nat)
      requires 2 <= playerCount <= MAX_PLAYERS
      ensures Valid() && !playing && !markLeft && seats == [owner] && maxPlayers == playerCount
    {
      hide Distinct, Members, Room.InGame;
      OneSeat(owner);
      playing, seats, currPlayers, maxPlayers := false, [owner], 1, playerCount;
      hands := map[owner := []];
      lastWin, lastDirection, gameState := -1, -1, Idle;
      dealTurn, cursor, direction, dealer, timer := 0, 0, 0, 0, 0;
      heap, history, last, lastChgColor, draw := [], [], 0, 0, 0;
      lastCanReport, canPlayAhead, played, markLeft := -1, false, [], false;
    }

    /** A player enters unless a game is on, the room is full, or the player is in it. */
    method Enter(uid: nat) returns (ok: bool)
      requires Valid()
      modifies this
      ensures Valid() && ok == (!old(playing) && old(currPlayers) < maxPlayers && uid !in old(seats))
      ensures seats == (if ok then old(seats) + [uid] else old(seats)) && playing == old(playing)
      ensures hands == if ok then old(hands)[uid := []] else old(hands)
      ensures markLeft ==> old(markLeft)
    {
      hide InGame;
      if playing || currPlayers >= maxPlayers || uid in hands {
        return false;
      }
      hands := hands[uid := []];
      currPlayers := currPlayers + 1;
      seats := seats + [uid];
      ok := true;
    }

    /** A player leaves, or is sent away, between games. The turn's position, which means
        nothing then, is compared as an unsigned number: from -1 it goes to -2. The source
        then reads the seat at it, which is one exactly when the position was one before
        and not that of a player leaving from the last seat. */
    method LeaveIdle(uid: nat)
      requires !playing && Table() && uid in seats
      modifies this
      ensures !playing && seats == WithoutSeat(old(seats), uid) && (seats != [] ==> Table())
      ensures hands == old(hands) - {uid} && markLeft == old(markLeft)
      ensures lastWin == if seats != [] && old(lastWin) == uid then -1 else old(lastWin)
      ensures cursor == old(cursor) - (if U64(old(cursor)) > IndexOf(old(seats), uid) then 1 else 0)
      ensures old(cursor) == -1 ==> cursor == -2
      ensures 0 <= cursor < |seats|
              <==> 0 <= old(cursor) < |old(seats)|
                   && !(old(cursor) == IndexOf(old(seats), uid) == |old(seats)| - 1)
    {
      hide WithoutSeat, IndexOf, U64, HandsOf;
      LeaveTable(seats, hands, uid);
      PositionAfter(cursor, IndexOf(seats, uid), |seats|);
      EraseSeat(uid);
      hands := hands - {uid};
      currPlayers := currPlayers - 1;
      if currPlayers > 0 && lastWin == uid {
        lastWin := -1;
      }
    }

    method EraseSeat(uid: nat)
      requires Distinct(seats) && uid in seats && |seats| <= MAX_PLAYERS
      modifies this`seats, this`cursor
      ensures seats == WithoutSeat(old(seats), uid)
      ensures cursor == old(cursor) - (if U64(old(cursor)) > IndexOf(old(seats), uid) then 1 else 0)
      ensures old(cursor) == -1 ==> cursor == -2
    {
      ghost var at := IndexOf(seats, uid);
      for i := 0 to |seats|
        invariant i <= at && seats == old(seats) && cursor == old(cursor)
      {
        if seats[i] == uid {
          IndexUnique(seats, i);
          seats := seats[..i] + seats[i + 1..];
          if U64(cursor) > i {
            cursor := cursor - 1;
          }
          break;
        }
      }
    }

    /** The owner has the seats shuffled. */
    method ShuffleSeats()
      requires !playing && Table()
      modifies this
      ensures !playing && Table() && multiset(seats) == multiset(old(seats))
      ensures markLeft ==> old(markLeft)
    {
      ghost var before := seats;
      seats := RandomShuffle(seats);
      SameSeats(before, seats);
    }

    // The pile.

    /** Takes a card off the pile, after turning the history into a new pile when there is
        none; -1 when there is no card anywhere. */
    method HeapDeal() returns (c: int)
      modifies this`heap, this`history
      ensures old(heap) != [] ==>
                c == old(heap[|heap| - 1]) && heap == old(heap[..|heap| - 1]) && history == old(history)
      ensures old(heap + history) == [] ==> c == -1 && heap == [] && history == []
      ensures old(heap + history) != [] ==>
                && multiset(heap) + multiset(history) + multiset{c} == old(multiset(heap) + multiset(history))
                && |heap| + |history| + 1 == old(|heap| + |history|)
    {
      if |heap| == 0 {
        heap := RandomShuffle(history);
        history := [];
      }
      if |heap| == 0 {
        return -1;
      }
      c := heap[|heap| - 1];
      assert heap == heap[..|heap| - 1] + [c];
      heap := heap[..|heap| - 1];
    }

    ghost function Stock(): multiset<int>
      reads this`heap, this`history
    {
      multiset(heap) + multiset(history)
    }

    /** Moves the top card, if there is one, to a hand. */
    method DrawOne(uid: nat) returns (c: int)
      requires uid in hands && forall x :: x in Stock() ==> IsCard(x)
      modifies this`heap, this`history, this`hands
      ensures c > 0 <==> old(|heap| + |history|) > 0
      ensures hands == if c > 0 then old(hands)[uid := old(hands)[uid] + [c]] else old(hands)
      ensures Stock() + (if c > 0 then multiset{c} else multiset{}) == old(Stock())
      ensures |heap| + |history| + (if c > 0 then 1 else 0) == old(|heap| + |history|)
    {
      ghost var before := Stock();
      c := HeapDeal();
      assert c in before ==> IsCard(c);
      if c > 0 {
        hands := hands[uid := hands[uid] + [c]];
      }
    }

    /** Moves up to count cards from the pile to a hand: all there are when there are fewer. */
    method DrawCards(uid: nat, count: nat) returns (arr: seq<int>)
      requires uid in hands && forall c :: c in Stock() ==> IsCard(c)
      modifies this`heap, this`history, this`hands
      ensures |arr| == Min(count, old(|heap| + |history|))
      ensures hands == old(hands)[uid := old(hands)[uid] + arr]
      ensures Stock() + multiset(arr) == old(Stock())
      ensures |heap| + |history| + |arr| == old(|heap| + |history|)
    {
      hide IsCard, Room.Stock;
      arr := [];
      ghost var hand := hands[uid];
      assert hand + [] == hand;
      for i := 0 to count
        invariant uid in hands && hands == old(hands)[uid := old(hands)[uid] + arr]
        invariant Stock() + multiset(arr) == old(Stock())
        invariant |heap| + |history| + |arr| == old(|heap| + |history|)
        invariant |arr| == Min(i, old(|heap| + |history|))
      {
        ghost var before := Stock();
        assert forall x :: x in before ==> x in before + multiset(arr);
        var c := DrawOne(uid);
        if c > 0 {
          assert multiset(arr + [c]) == multiset(arr) + multiset{c};
          assert hand + (arr + [c]) == hand + arr + [c];
          arr := arr + [c];
        }
      }
    }

    // Turns.

    /** Moves the turn by some steps from a player, or from whose turn it is, round the
        table. */
    method CursorMove(base: int, step: int) returns (c: int)
      requires Distinct(seats) && 0 <= cursor < |seats| && currPlayers == |seats|
      requires base >= 0 ==> base in seats
      requires -2 <= step <= 2
      modifies this`cursor
      ensures c == cursor && 0 <= cursor < |seats|
      ensures cursor == ((if base >= 0 then IndexOf(seats, base) else old(cursor)) + step) % |seats|
    {
      c := cursor;
      if base >= 0 {
        for i := 0 to |seats|
          invariant c == cursor && forall k :: 0 <= k < i ==> seats[k] != base
        {
          if seats[i] == base {
            c := i;
            IndexUnique(seats, i);
            break;
          }
        }
        assert c == IndexOf(seats, base) by {
          IndexUnique(seats, IndexOf(seats, base));
        }
      }
      ghost var start := c;
      SmallMod(start, |seats|);
      var sign := if step > 0 then 1 else if step < 0 then -1 else 0;
      for i := 0 to if step < 0 then -step else step
        invariant 0 <= c < |seats| && c == (start + i * sign) % |seats|
      {
        ModStep(start + i * sign, |seats|);
        c := c + sign;
        if c >= currPlayers {
          c := 0;
        } else if c < 0 {
          c := currPlayers - 1;
        }
      }
      cursor := c;
    }

    // The end and the start of a game.

    /** Ends the game: the winner is remembered, everything else is cleared. */
    method GameOver(uid: nat)
      requires playing && Table() && (direction == 1 || direction == -1) && uid in seats
      modifies this
      ensures !playing && Table() && lastWin == uid && lastDirection == old(direction)
      ensures seats == old(seats) && heap == [] && history == [] && gameState == Idle
      ensures cursor == -1 && direction == 1 && dealer == -1 && dealTurn == 0 && timer == 0
      ensures last == 0 && lastChgColor == 0 && draw == 0 && played == [] && lastCanReport == -1 && !canPlayAhead
      ensures !markLeft
      ensures forall u :: u in hands ==> hands[u] == []
    {
      hide Members, Distinct, Cleared;
      Won(uid);
      ClearGame();
    }

    method Won(uid: nat)
      requires Table() && (direction == 1 || direction == -1) && uid in seats
      modifies this`lastWin, this`lastDirection, this`playing, this`cursor
      ensures Table() && lastWin == uid && lastDirection == direction && !playing && cursor == -1
    {
      hide Members, Distinct;
      lastWin, lastDirection, playing, cursor := uid, direction, false, -1;
    }

    /** Clears what belongs to one game. */
    method ClearGame()
      modifies this
      ensures unchanged(this`playing, this`seats, this`currPlayers, this`maxPlayers)
      ensures unchanged(this`lastWin, this`lastDirection, this`cursor)
      ensures dealTurn == 0 && direction == 1 && dealer == -1 && timer == 0
      ensures gameState == Idle && heap == [] && history == [] && last == 0 && lastChgColor == 0 && draw == 0
      ensures lastCanReport == -1 && !canPlayAhead && played == [] && !markLeft
      ensures hands.Keys == old(hands).Keys && forall u :: u in hands ==> hands[u] == []
      ensures old(Table()) ==> Table()
    {
      hide Members, Distinct;
      ClearTurn();
      ClearCards();
      lastCanReport, canPlayAhead, played, markLeft := -1, false, [], false;
    }

    method ClearTurn()
      modifies this`gameState, this`dealTurn, this`direction, this`dealer, this`timer
      ensures gameState == Idle && dealTurn == 0 && direction == 1 && dealer == -1 && timer == 0
    {
      gameState, dealTurn, direction, dealer, timer := Idle, 0, 1, -1, 0;
    }

    method ClearCards()
      modifies this`heap, this`last, this`lastChgColor, this`draw, this`history, this`hands
      ensures heap == [] && history == [] && last == 0 && lastChgColor == 0 && draw == 0
      ensures hands.Keys == old(hands).Keys && forall u :: u in hands ==> hands[u] == []
    {
      heap, last, lastChgColor, draw, history := [], 0, 0, 0, [];
      hands := Cleared(hands);
    }

    /** Starts a game: the last winner deals, or anybody, and the first cards go the other
        way round than last time. */
    method GameStart()
      requires !playing && Table() && 2 <= |seats|
      modifies this
      ensures InGame() && playing && gameState == Dealing && dealTurn == 0 && seats == old(seats) && !markLeft
      ensures direction == -old(lastDirection) && 0 <= cursor < |seats| && seats[cursor] == dealer
      ensures old(lastWin) != -1 ==> dealer == old(lastWin)
    {
      hide CardSet, Deck, Members, Cleared, Distinct, InGame, Conserved, Penalised, Room.Dealt, Room.Table;
      ClearGame();
      ChooseDealer();
      NewPile();
      StartDealing();
      Prepared();
    }

    method StartDealing()
      modifies this`playing, this`gameState, this`timer
      ensures playing && gameState == Dealing && timer == TIMER_DEALING_INTERVAL
    {
      playing, gameState, timer := true, Dealing, TIMER_DEALING_INTERVAL;
    }

    method NewPile()
      modifies this`heap
      ensures multiset(heap) == Deck() && |heap| == DECK_SIZE
    {
      hide CardSet, Deck;
      heap := RandomShuffle(ThreeSets());
    }

    /** The last winner deals, or anybody. */
    method ChooseDealer()
      requires Table() && seats != []
      modifies this`dealer, this`cursor, this`direction
      ensures dealer >= 0 && 0 <= cursor < |seats| && seats[cursor] == dealer && direction == -lastDirection
      ensures lastWin != -1 ==> dealer == lastWin
      ensures direction == 1 || direction == -1
    {
      hide Members, Distinct;
      if lastWin != -1 {
        dealer := lastWin;
      } else {
        dealer := RandomSelect(seats);
      }
      FindDealer();
      direction := -lastDirection;
    }

    /** Puts the turn on the dealer. */
    method FindDealer()
      requires Distinct(seats) && dealer >= 0 && dealer in seats
      modifies this`cursor
      ensures 0 <= cursor < |seats| && seats[cursor] == dealer
    {
      ghost var at := IndexOf(seats, dealer);
      for i := 0 to |seats|
        invariant i <= at
      {
        if seats[i] == dealer {
          cursor := i;
          break;
        }
      }
    }

    /** A table with empty hands and the whole deck in the pile is ready for the dealing. */
    lemma Prepared()
      requires playing && Table() && Turned() && gameState == Dealing && dealTurn == 0 && !canPlayAhead && !markLeft
      requires Fresh() && seats[cursor] == dealer && (forall u :: u in hands ==> hands[u] == [])
      requires multiset(heap) == Deck() && |heap| == DECK_SIZE
      ensures InGame()
    {
      hide Deck, CardSet;
      EmptyHands(seats, hands);
      assert multiset(heap) + multiset{} + multiset{} == multiset(heap);
      IndexUnique(seats, cursor);
      SeatStart(cursor, direction, |seats|);
      NothingDealt(|seats|);
    }

    // Dealing to a player.

    /** What holds between the parts of a player's action. */
    ghost predicate Core()
      reads this`playing, this`currPlayers, this`seats, this`maxPlayers, this`hands, this`lastWin, this`lastDirection
      reads this`cursor, this`direction, this`heap, this`history, this`last, this`draw, this`played
      reads this`lastCanReport, this`markLeft
    {
      playing && Table() && Turned() && Conserved() && Penalised() && Marked()
    }

    lemma StockCards()
      requires Conserved() && Table()
      ensures forall c :: c in Stock() ==> IsCard(c)
      ensures forall u, c :: u in hands && c in hands[u] ==> IsCard(c)
    {
      hide Deck, IsCard, HandsOf;
      DeckCards();
      forall u, c | u in hands && c in hands[u]
        ensures IsCard(c)
      {
        HandInHands(seats, hands, u);
        assert c in multiset(hands[u]);
        assert c in HandsOf(seats, hands);
        assert c in Deck();
      }
    }

    /** Deals to a player and keeps all cards accounted for. */
    method DealTo(uid: nat, count: nat)
      requires Core() && uid in seats
      modifies this`heap, this`history, this`hands
      ensures Core()
      ensures uid in old(hands) && uid in hands && hands == old(hands)[uid := hands[uid]]
      ensures old(hands[uid]) <= hands[uid] && |hands[uid]| == old(|hands[uid]|) + Min(count, old(|heap| + |history|))
      ensures |heap| + |history| + |hands[uid]| == old(|heap| + |history| + |hands[uid]|)
    {
      hide HandsOf, Deck, IsCard, Distinct;
      StockCards();
      ghost var before, hand, was := hands, hands[uid], Stock();
      var arr := DrawCards(uid, count);
      HandsUpdate(seats, before, uid, hand + arr);
      StillAll(was, Stock(), HandsOf(seats, before), HandsOf(seats, hands), multiset(hand), multiset(arr));
    }

    /** A player is dealt cards: the one whose turn it is on request, then as many as the
        open penalty says, or one; anybody as a punishment. */
    method PlayerDealCard(uid: nat, count0: nat, reason: Reason) returns (ok: bool)
      requires Core() && uid in seats && (reason != Normal ==> count0 > 0)
      modifies this
      ensures ok <==> (reason == Normal ==> old(seats[cursor]) == uid)
      ensures !ok ==> unchanged(this)
      ensures Core() && seats == old(seats) && direction == old(direction) && last == old(last)
      ensures ok ==>
                var count := if reason != Normal then count0 else if old(draw) != 0 then old(draw) else 1;
                && uid in old(hands) && uid in hands && hands == old(hands)[uid := hands[uid]]
                && old(hands[uid]) <= hands[uid]
                && |hands[uid]| == old(|hands[uid]|) + Min(count, old(|heap| + |history|))
                && |heap| + |history| + |hands[uid]| == old(|heap| + |history| + |hands[uid]|)
      ensures ok && reason == Normal ==>
                && InGame() && draw == 0 && played == [] && lastCanReport == -1 && !markLeft && !canPlayAhead
                && gameState == WaitPlayer && timer == TIMER_PLAYER_THINKING
                && cursor == (old(cursor) + direction) % |seats|
      ensures reason != Normal ==>
                && unchanged(this`draw, this`played, this`lastCanReport, this`canPlayAhead, this`gameState, this`timer)
                && unchanged(this`markLeft)
                && unchanged(this`cursor, this`lastChgColor, this`dealTurn, this`dealer, this`lastWin)
    {
      hide HandsOf, Deck, IsCard, Distinct, Members, Penalties, Room.Conserved, Room.Table, Room.Penalised, Core;
      hide Min, Room.Dealt, InGame;
      CoreParts();
      var cur := seats[cursor];
      var count := count0;
      if reason == Normal {
        if cur != uid {
          return false;
        }
        count := TakePenalty();
      }
      DealTo(uid, count);
      if reason == Normal {
        PassTurn();
        GameCore();
      }
      ok := true;
    }

    /** How many cards the turn costs; an open penalty is closed. */
    method TakePenalty() returns (count: nat)
      requires Core()
      modifies this`draw, this`played
      ensures Core() && draw == 0 && played == [] && count > 0
      ensures count == if old(draw) != 0 then old(draw) else 1
    {
      hide Table, Turned, Conserved, Marked, IsPenalty;
      if draw != 0 {
        count := draw;
        draw := 0;
      } else {
        count := 1;
      }
      played := [];
    }

    /** After drawing it is the next player's turn, and nobody may play out of turn. */
    method PassTurn()
      requires Core()
      modifies this`cursor, this`gameState, this`timer, this`lastCanReport, this`canPlayAhead, this`markLeft
      ensures InGame() && lastCanReport == -1 && !markLeft && !canPlayAhead && gameState == WaitPlayer
      ensures timer == TIMER_PLAYER_THINKING && cursor == (old(cursor) + direction) % |seats|
    {
      hide IsCard, Penalties, InGame, Table, Conserved, Room.Dealt, Distinct;
      TableSeats();
      var c := CursorMove(-1, direction);
      StartWait(-1, false);
      Resume();
    }

    /** A player is waited for, who may be forestalled or not, while another may be reported. */
    method StartWait(canReport: int, ahead: bool)
      modifies this`gameState, this`timer, this`lastCanReport, this`canPlayAhead, this`markLeft
      ensures gameState == WaitPlayer && timer == TIMER_PLAYER_THINKING
      ensures lastCanReport == canReport && canPlayAhead == ahead && !markLeft
    {
      gameState, timer := WaitPlayer, TIMER_PLAYER_THINKING;
      lastCanReport, markLeft, canPlayAhead := canReport, false, ahead;
    }

    lemma TableSeats()
      requires Table()
      ensures Distinct(seats) && currPlayers == |seats|
    {
    }

    /** What is needed while a player is thinking. */
    lemma Resume()
      requires playing && Table() && Turned() && Conserved() && Penalised() && Marked() && gameState == WaitPlayer
      ensures InGame()
    {
      hide Table, Turned, Conserved, Penalised, Marked;
    }

    /** Someone reports that a player with one card left did not call. The source asserts that
        the reported player is still there; leaving does not withdraw the mark, and then
        the assertion is not met. */
    method PlayerReportNoUno(uid: nat) returns (ok: bool, met: bool, ghost who: nat)
      requires InGame() && uid in seats
      modifies this
      ensures InGame() && met == !old(markLeft) && ok == (old(lastCanReport) >= 0 && met)
      ensures !ok ==> unchanged(this)
      ensures ok ==> who == old(lastCanReport) && lastCanReport == -1 && !markLeft
      ensures ok ==>
                && who in old(hands) && who in hands && hands == old(hands)[who := hands[who]]
                && |hands[who]| == |old(hands)[who]| + Min(PUNISH, old(|heap| + |history|))
      ensures unchanged(this`seats, this`cursor, this`draw, this`last, this`gameState, this`direction)
    {
      hide HandsOf, Deck, IsCard, Distinct, Members, Penalties;
      ok, met, who := false, true, uid;
      if lastCanReport < 0 {
        return;
      }
      AtTable();
      met := lastCanReport in hands;
      if !met {
        return;
      }
      var bePunished: nat := lastCanReport;
      who := bePunished;
      lastCanReport, markLeft := -1, false;
      ok := PlayerDealCard(bePunished, PUNISH, Report);
    }

    // Playing a card.

    /** Whether a request to play a card is granted. */
    ghost predicate Playable(uid: nat, c: int, chgColor: int)
      reads this
    {
      && uid in hands && c in hands[uid] && c >= 0 && 0 <= cursor < |seats|
      && (ColorOf(c) == COLOR_ALL ==> COLOR_RED <= chgColor <= COLOR_GREEN)
      && if uid != seats[cursor] then canPlayAhead && c == last
         else MayFollow(ColorOf(last), FuncOf(last), lastChgColor, draw > 0, ColorOf(c), FuncOf(c))
    }

    /** The rules for a play as a table over the colours and functions of the two cards. */
    lemma PlayableTable(uid: nat, color: nat, func: nat, lc: nat, lf: nat, chgColor: int)
      requires IsColor(color) && IsFunc(func) && IsColor(lc) && IsFunc(lf)
      requires 0 <= cursor < |seats| && last == Compose(lc, lf) && (draw > 0 ==> lf == 13 || lf == 14)
      ensures var c := Compose(color, func);
              Playable(uid, c, chgColor)
              <==> && uid in hands && c in hands[uid] && (color == 0 ==> 1 <= chgColor <= 4)
                   && (if uid != seats[cursor] then canPlayAhead && color == lc && func == lf
                       else if draw == 0 then
                         color == lc || func == lf || color == 0 || (lc == 0 && color == lastChgColor)
                       else if lc == 0 then color == 0 && func == lf
                       else if lf == 13 then func == 13 || (func == 14 && (color == lc || color == 0))
                       else func == 14)
    {
      hide ColorOf, FuncOf;
      ComposeInverse(lc, lf, 0);
      ComposeInverse(color, func, 0);
      SameCard(Compose(lc, lf), Compose(color, func));
    }

    /** Whether playing a card ends the game: it is the only one, it is a number, and it
        comes without a call. */
    ghost predicate Winning(uid: nat, c: int, withUno: bool)
      reads this
    {
      uid in hands && |hands[uid]| == 1 && c >= 0 && !IsFuncCard(c) && !withUno
    }

    /** Moves a card from a hand to the history, with its effect on the direction and the
        penalty; step is how far the turn will move. */
    method PutCard(uid: nat, index: nat, c: nat, chgColor: int) returns (step: int)
      requires Core() && uid in seats && uid in hands && index < |hands[uid]|
      requires hands[uid][index] == c && c !in hands[uid][..index] && IsCard(c) && (draw > 0 ==> IsPenalty(c))
      modifies this`hands, this`history, this`last, this`lastChgColor, this`direction, this`draw, this`played
      ensures Core() && c in old(hands[uid]) && hands == old(hands)[uid := Removed(old(hands[uid]), c)]
      ensures history == old(history) + [c] && last == c && played == old(played) + [c]
      ensures lastChgColor == if ColorOf(c) == COLOR_ALL then chgColor else 0
      ensures draw == old(draw) + Penalty(c)
      ensures direction == if FuncOf(c) == FUNC_REVERSE then -old(direction) else old(direction)
      ensures step == StepOf(c, old(direction))
    {
      hide HandsOf, Deck, Distinct, Penalties, Removed, Members, Room.Table, Room.Conserved;
      ToHistory(uid, index, c);
      step := TakeEffect(c, chgColor);
    }

    /** The card leaves the hand. */
    method ToHistory(uid: nat, index: nat, c: nat)
      requires Conserved() && Table() && uid in seats && uid in hands && index < |hands[uid]|
      requires hands[uid][index] == c && c !in hands[uid][..index]
      modifies this`hands, this`history
      ensures Conserved() && Table() && history == old(history) + [c]
      ensures c in old(hands[uid]) && hands == old(hands)[uid := Removed(old(hands[uid]), c)]
    {
      hide HandsOf, Deck, Distinct, Removed;
      ghost var hand, before := hands[uid], hands;
      RemovedAt(hand, index);
      RemovedCards(hand, c);
      HandsUpdate(seats, before, uid, Removed(hand, c));
      hands := hands[uid := hands[uid][..index] + hands[uid][index + 1..]];
      history := history + [c];
      MovedCard(multiset(heap), multiset(old(history)), HandsOf(seats, before), HandsOf(seats, hands),
                multiset(Removed(hand, c)), c);
    }

    /** The card becomes the last one, and works if it is a function card. */
    method TakeEffect(c: nat, chgColor: int) returns (step: int)
      requires Penalised() && IsCard(c) && (draw > 0 ==> IsPenalty(c))
      modifies this`last, this`lastChgColor, this`direction, this`draw, this`played
      ensures Penalised() && last == c && played == old(played) + [c]
      ensures lastChgColor == if ColorOf(c) == COLOR_ALL then chgColor else 0
      ensures draw == old(draw) + Penalty(c)
      ensures direction == if FuncOf(c) == FUNC_REVERSE then -old(direction) else old(direction)
      ensures step == StepOf(c, old(direction))
    {
      hide Penalties;
      PenaltiesPush(played, c);
      last, lastChgColor, played := c, 0, played + [c];
      var func := FuncOf(c);
      step := direction;
      if ColorOf(c) == COLOR_ALL {
        lastChgColor := chgColor;
      }
      if func == FUNC_SKIP {
        step := step * 2;
      } else if func == FUNC_REVERSE {
        step := -step;
        direction := step;
      } else if func == FUNC_DRAW2 {
        draw := draw + 2;
      } else if func == FUNC_DRAW4 {
        draw := draw + 4;
      }
    }

    /** Punishes a call that was not due, and a last card that is a function card. */
    method Punish(uid: nat, c: nat, needUno: bool, withUno: bool, rest: nat)
      requires Core() && uid in seats && uid in hands && rest == |hands[uid]|
      modifies this
      ensures Core() && uid in old(hands) && uid in hands && hands == old(hands)[uid := hands[uid]]
      ensures old(hands[uid]) <= hands[uid]
      ensures |hands[uid]| == rest + Min(Punishment(c, needUno, withUno, rest), old(|heap| + |history|))
      ensures unchanged(this`seats, this`cursor, this`direction, this`last, this`lastChgColor, this`draw, this`played)
      ensures unchanged(this`lastWin, this`dealer)
    {
      hide HandsOf, Deck, Members, Distinct, Penalties, IsCard;
      if !needUno && withUno {
        var dealt := PlayerDealCard(uid, PUNISH, LastCard);
      }
      if rest <= 0 && IsFuncCard(c) {
        var dealt := PlayerDealCard(uid, PUNISH, LastCard);
      }
    }

    /** The first position of a card in a hand, or -1. */
    method FindCard(hand: seq<int>, c: int) returns (index: int)
      ensures index == -1 <==> c !in hand
      ensures index != -1 ==> 0 <= index < |hand| && hand[index] == c && c !in hand[..index]
    {
      index := -1;
      for i := 0 to |hand|
        invariant c !in hand[..i]
      {
        if hand[i] == c {
          return i;
        }
      }
      assert hand[..|hand|] == hand;
    }

    /** Whether the card is there, the colour is given when it must be, and the card fits. */
    method CheckPlay(uid: nat, c: int, chgColor: int) returns (ok: bool, index: int)
      requires InGame() && uid in seats
      ensures ok <==> Playable(uid, c, chgColor)
      ensures uid == seats[cursor] && draw == 0 && c >= 0 ==>
                (ok <==> && uid in hands && c in hands[uid] && (ColorOf(c) == 0 ==> 1 <= chgColor <= 4)
                         && (ColorOf(c) == ColorOf(last) || FuncOf(c) == FuncOf(last) || ColorOf(c) == 0
                             || (ColorOf(last) == 0 && ColorOf(c) == lastChgColor)))
      ensures ok ==>
                && uid in hands && 0 <= index < |hands[uid]| && hands[uid][index] == c && c !in hands[uid][..index]
                && IsCard(c) && (draw > 0 ==> IsPenalty(c))
    {
      hide HandsOf, Deck, Distinct, Penalties, IsCard, Dealt;
      var hand := hands[uid];
      index := FindCard(hand, c);
      if index == -1 {
        return false, index;
      }
      StockCards();
      CardIsNatural(c);
      if ColorOf(c) == COLOR_ALL {
        if chgColor != COLOR_RED && chgColor != COLOR_GREEN && chgColor != COLOR_BLUE && chgColor != COLOR_YELLOW {
          return false, index;
        }
      }
      var ahead := uid != seats[cursor];
      CanPlayIsRule(last, lastChgColor, draw, canPlayAhead, c, ahead);
      ok := CanPlay(last, lastChgColor, draw, canPlayAhead, c, ahead);
      if ok && draw > 0 {
        OnlyPenalties(last, lastChgColor, draw, canPlayAhead, c, ahead);
      }
    }

    /** Ends the turn of a player who has cards left after playing one. */
    method AfterPlay(uid: nat, ahead: bool, step: int, mark: bool)
      requires Turned() && uid in seats && -2 <= step <= 2 && (ahead <==> uid != seats[cursor]) && Core()
      modifies this`cursor, this`gameState, this`timer, this`canPlayAhead, this`lastCanReport, this`markLeft
      ensures cursor == (IndexOf(seats, uid) + step) % |seats|
      ensures InGame() && gameState == WaitPlayer && timer == TIMER_PLAYER_THINKING && canPlayAhead
      ensures lastCanReport == (if mark then uid else -1) && !markLeft
    {
      hide IsCard, Penalties, InGame, Table, Conserved, Room.Dealt, Distinct, IndexOf, IsPenalty, Members;
      TurnIndex(uid);
      TableSeats();
      var next := CursorMove(if ahead then uid else -1, step);
      StartWait(if mark then uid else -1, true);
      Resume();
    }

    /** After a card has been put down: the punishments, and then the end of the game or the
        next turn. */
    method Settle(uid: nat, c: nat, needUno: bool, withUno: bool, ahead: bool, step: int)
      requires Core() && uid in seats && uid in hands && history != [] && -2 <= step <= 2
      requires ahead <==> uid != seats[cursor]
      modifies this
      ensures seats == old(seats)
      ensures old(hands[uid]) == [] && Punishment(c, needUno, withUno, 0) == 0 ==>
                !playing && Table() && lastWin == uid && !markLeft
      ensures !(old(hands[uid]) == [] && Punishment(c, needUno, withUno, 0) == 0) ==>
                && playing && InGame() && gameState == WaitPlayer && timer == TIMER_PLAYER_THINKING
                && cursor == (IndexOf(seats, uid) + step) % |seats|
                && unchanged(this`direction, this`last, this`lastChgColor, this`draw, this`played)
                && canPlayAhead && !markLeft && lastCanReport == (if needUno && !withUno then uid else -1)
      ensures !(old(hands[uid]) == [] && Punishment(c, needUno, withUno, 0) == 0) ==>
                && uid in hands && hands == old(hands)[uid := hands[uid]] && hands[uid] != []
                && old(hands[uid]) <= hands[uid]
                && |hands[uid]| == |old(hands[uid])|
                   + Min(Punishment(c, needUno, withUno, |old(hands[uid])|), old(|heap| + |history|))
    {
      hide HandsOf, Deck, Members, Distinct, Penalties, IsCard, Dealt, IndexOf;
      hide Conserved, Penalised, Table, InGame, Core, IsFuncCard, IsPenalty, Room.Marked;
      Punish(uid, c, needUno, withUno, |hands[uid]|);
      CoreParts();
      if hands[uid] == [] {
        GameOver(uid);
      } else {
        AfterPlay(uid, ahead, step, needUno && !withUno);
      }
    }

    /** A player plays a card, in turn or out of turn. */
    method PlayerCardPlay(uid: nat, c: int, withUno: bool, chgColor: int) returns (ok: bool)
      requires InGame() && uid in seats
      modifies this
      ensures ok <==> old(Playable(uid, c, chgColor))
      ensures !ok ==> unchanged(this)
      ensures ok ==> seats == old(seats) && uid in old(hands) && c in old(hands[uid]) && c >= 0
      ensures ok && old(Winning(uid, c, withUno)) ==> !playing && Table() && lastWin == uid && !markLeft
      ensures ok && !old(Winning(uid, c, withUno)) ==>
                playing && InGame() && gameState == WaitPlayer && timer == TIMER_PLAYER_THINKING
      ensures ok && !old(Winning(uid, c, withUno)) ==>
                && cursor == (IndexOf(seats, uid) + StepOf(c, old(direction))) % |seats|
                && direction == (if FuncOf(c) == FUNC_REVERSE then -old(direction) else old(direction))
                && last == c && lastChgColor == (if ColorOf(c) == COLOR_ALL then chgColor else 0)
                && draw == old(draw) + Penalty(c) && played == old(played) + [c]
                && canPlayAhead && !markLeft
                && lastCanReport == (if |old(hands[uid])| == 2 && !withUno then uid else -1)
      ensures ok && !old(Winning(uid, c, withUno)) ==>
                && uid in hands && hands == old(hands)[uid := hands[uid]] && hands[uid] != []
                && Removed(old(hands[uid]), c) <= hands[uid]
                && |hands[uid]| == |old(hands[uid])| - 1
                   + Min(Punishment(c, |old(hands[uid])| == 2, withUno, |old(hands[uid])| - 1),
                         old(|heap| + |history|) + 1)
    {
      hide HandsOf, Deck, Members, Distinct, Penalties, IsCard, Removed, MayFollow, Dealt, IndexOf, Penalty;
      hide Conserved, Penalised, Table, InGame, Core, IsFuncCard, IsPenalty, ColorOf, Room.Marked, FuncOf;
      var index;
      ok, index := CheckPlay(uid, c, chgColor);
      if !ok {
        return;
      }
      GameCore();
      CoreParts();
      var needUno := |hands[uid]| == 2;
      var ahead := uid != seats[cursor];
      var step := PutCard(uid, index, c, chgColor);
      Settle(uid, c, needUno, withUno, ahead, step);
    }

    lemma TurnIndex(uid: nat)
      requires Table() && Turned() && uid in seats
      ensures uid == seats[cursor] ==> IndexOf(seats, uid) == cursor
    {
      IndexUnique(seats, cursor);
    }

    // Leaving.

    /** Takes a player's seat away during a game. The turn stays with whoever has it, or
        goes to the leaving player's neighbour, who gets little time. */
    method Unseat(uid: nat)
      requires InGame() && gameState == WaitPlayer && uid in seats
      modifies this`seats, this`cursor, this`timer, this`gameState
      ensures seats == WithoutSeat(old(seats), uid) && 0 <= cursor < |seats| && gameState == WaitPlayer
      ensures if old(seats[cursor]) == uid then
                timer == TIMER_DEALING_INTERVAL
                && seats[cursor] == old(seats)[(IndexOf(old(seats), uid) + direction) % |old(seats)|]
              else timer == old(timer) && seats[cursor] == old(seats[cursor])
    {
      hide InGame, Table, Conserved, Penalised, IndexOf, Distinct;
      GameParts();
      TableSeats();
      TurnIndex(uid);
      var i := SeatOf(uid);
      DropSeat(i);
    }

    method SeatOf(uid: nat) returns (i: nat)
      requires uid in seats && Distinct(seats)
      ensures i == IndexOf(seats, uid)
    {
      i := 0;
      while seats[i] != uid
        invariant i <= IndexOf(seats, uid)
        decreases |seats| - i
      {
        i := i + 1;
      }
      IndexUnique(seats, i);
    }

    /** Takes seat i away. */
    method DropSeat(i: nat)
      requires Turned() && Distinct(seats) && currPlayers == |seats| && i < |seats|
      modifies this`seats, this`cursor, this`timer
      ensures seats == old(seats)[..i] + old(seats)[i + 1..] && 0 <= cursor < |seats|
      ensures if old(cursor) == i then
                timer == TIMER_DEALING_INTERVAL && seats[cursor] == old(seats)[(i + direction) % |old(seats)|]
              else timer == old(timer) && seats[cursor] == old(seats[cursor])
    {
      hide Distinct;
      if i == cursor {
        var next := CursorMove(-1, direction);
        NextSeat(i, direction, |seats|);
        timer := TIMER_DEALING_INTERVAL;
      }
      seats := seats[..i] + seats[i + 1..];
      if cursor > i {
        cursor := cursor - 1;
      }
    }

    /** Takes a player out of a game: the hand goes back under the pile. */
    method TakeAway(uid: nat)
      requires InGame() && gameState == WaitPlayer && uid in seats
      modifies this`heap, this`hands, this`currPlayers, this`lastWin, this`seats, this`cursor, this`timer
      modifies this`gameState
      ensures Table() && Conserved() && gameState == WaitPlayer && seats == WithoutSeat(old(seats), uid)
      ensures 0 <= cursor < |seats|
      ensures if old(seats[cursor]) == uid then
                timer == TIMER_DEALING_INTERVAL
                && seats[cursor] == old(seats)[(IndexOf(old(seats), uid) + direction) % |old(seats)|]
              else timer == old(timer) && seats[cursor] == old(seats[cursor])
      ensures uid in old(hands) && hands == old(hands) - {uid}
      ensures multiset(heap) == multiset(old(heap)) + multiset(old(hands[uid]))
    {
      hide InGame, HandsOf, Deck, Members, Penalties, IsCard, Distinct, WithoutSeat, IndexOf;
      GameParts();
      LeaveTable(seats, hands, uid);
      LeaveCards(multiset(heap), multiset(history), multiset(hands[uid]),
                 HandsOf(WithoutSeat(seats, uid), hands - {uid}), HandsOf(seats, hands));
      var rest := RandomShuffle(hands[uid]);
      Unseat(uid);
      TakeHand(uid, rest);
    }

    method TakeHand(uid: nat, rest: seq<int>)
      requires currPlayers > 0
      modifies this`heap, this`hands, this`currPlayers, this`lastWin
      ensures heap == rest + old(heap) && hands == old(hands) - {uid} && currPlayers == old(currPlayers) - 1
      ensures lastWin == if old(lastWin) == uid then -1 else old(lastWin)
    {
      heap := rest + heap;
      hands := hands - {uid};
      currPlayers := currPlayers - 1;
      if lastWin == uid {
        lastWin := -1;
      }
    }

    /** A player leaves. While cards are being dealt that is refused; when only one player
        stays, that one wins. Being reportable is not withdrawn. */
    method PlayerLeave(uid: nat) returns (ok: bool)
      requires InGame() && uid in seats
      modifies this
      ensures ok <==> old(gameState) == WaitPlayer
      ensures !ok ==> unchanged(this)
      ensures ok ==> seats == WithoutSeat(old(seats), uid)
      ensures ok && |old(seats)| == 2 ==> !playing && Table() && lastWin == seats[0] && !markLeft
      ensures ok && |old(seats)| > 2 ==>
                && playing && InGame() && gameState == WaitPlayer && direction == old(direction)
                && (old(seats[cursor]) != uid ==> seats[cursor] == old(seats[cursor]) && timer == old(timer))
                && (old(seats[cursor]) == uid ==>
                      seats[cursor] == old(seats)[(IndexOf(old(seats), uid) + direction) % |old(seats)|]
                      && timer == TIMER_DEALING_INTERVAL)
      ensures ok && |old(seats)| > 2 ==>
                && uid in old(hands) && hands == old(hands) - {uid}
                && multiset(heap) == multiset(old(heap)) + multiset(old(hands[uid])) && history == old(history)
                && last == old(last) && draw == old(draw) && lastCanReport == old(lastCanReport)
      ensures ok && |old(seats)| > 2 ==> (markLeft <==> old(markLeft) || old(lastCanReport) == uid)
    {
      hide InGame, Table, Conserved, Penalised, Room.Dealt, HandsOf, Members, Distinct, WithoutSeat, IndexOf;
      GameParts();
      if gameState == Dealing || gameState == DealingDealer || gameState == SelectFirstCard {
        return false;
      }
      SeatsAfter(uid);
      TakeAway(uid);
      if lastCanReport == uid {
        markLeft := true;
      }
      TableSeats();
      if currPlayers == 1 {
        GameOver(seats[0]);
      } else {
        Resume();
      }
      ok := true;
    }

    lemma SeatsAfter(uid: nat)
      requires Table() && uid in seats
      ensures forall x :: x in WithoutSeat(seats, uid) <==> x in seats && x != uid
    {
      hide HandsOf, WithoutSeat, IndexOf;
      LeaveTable(seats, hands, uid);
    }

    // Ticks of the timer.

    /** The card on top of the pile goes to the player whose turn it is. */
    method DealOne(uid: nat)
      requires Table() && Turned() && Conserved() && uid in seats && heap != []
      modifies this`heap, this`history, this`hands
      ensures Table() && Conserved() && history == old(history) && |heap| == old(|heap|) - 1
      ensures uid in old(hands) && uid in hands && hands == old(hands)[uid := hands[uid]]
      ensures hands[uid] == old(hands[uid]) + [old(heap[|heap| - 1])]
    {
      hide HandsOf, Deck, IsCard, Distinct;
      ghost var before, hand, was := hands, hands[uid], Stock();
      var c := HeapDeal();
      hands := hands[uid := hands[uid] + [c]];
      HandsUpdate(seats, before, uid, hand + [c]);
      StillAll(was, Stock(), HandsOf(seats, before), HandsOf(seats, hands), multiset(hand), multiset{c});
    }

    /** The turn to be dealt to goes on to the next seat. */
    method DealOn(ghost d: nat)
      requires Turned() && Distinct(seats) && currPlayers == |seats| && d < |seats|
      requires cursor == Seat(d, dealTurn, direction, |seats|)
      modifies this`cursor, this`dealTurn
      ensures dealTurn == old(dealTurn) + 1 && cursor == Seat(d, dealTurn, direction, |seats|) < |seats|
    {
      hide Distinct, Seat, IndexOf;
      SeatNext(d, dealTurn, direction, |seats|);
      var next := CursorMove(-1, direction);
      dealTurn := dealTurn + 1;
    }

    /** The next card of the round robin deal. */
    method DealRound()
      requires Table() && Turned() && Conserved() && Fresh() && heap != []
      requires cursor == Seat(DealerSeat(), dealTurn, direction, |seats|)
      requires RoundRobin(seats, hands, DealerSeat(), dealTurn, direction)
      modifies this`heap, this`history, this`hands, this`cursor, this`dealTurn
      ensures Table() && Turned() && Conserved() && Fresh() && |heap| == old(|heap|) - 1
      ensures dealTurn == old(dealTurn) + 1 && cursor == Seat(DealerSeat(), dealTurn, direction, |seats|)
      ensures RoundRobin(seats, hands, DealerSeat(), dealTurn, direction)
      ensures old(seats[cursor]) in old(hands)
      ensures hands == WithCard(old(hands), old(seats[cursor]), old(heap)[|old(heap)| - 1])
    {
      hide HandsOf, Deck, Members, IsCard, Seat, Offset, RoundRobin, IndexOf, Distinct, Room.Conserved;
      OneMoreDealt(seats, hands, DealerSeat(), dealTurn, direction, cursor, heap[|heap| - 1]);
      var uid := seats[cursor];
      DealOne(uid);
      DealOn(DealerSeat());
    }

    /** A state of a game between its phases, while the cards are dealt. */
    ghost predicate Between()
      reads this
    {
      playing && Table() && Turned() && Conserved() && Penalised() && Marked() && Fresh() && !canPlayAhead
    }

    /** After the last of the first cards it is the dealer's turn again. */
    method DealingDone()
      requires Between() && dealTurn == PLAYER_START_CARD_COUNT * |seats| && |heap| == DECK_SIZE - dealTurn
      requires cursor == Seat(DealerSeat(), dealTurn, direction, |seats|)
      requires RoundRobin(seats, hands, DealerSeat(), dealTurn, direction)
      modifies this`gameState, this`dealTurn
      ensures InGame() && gameState == DealingDealer && dealTurn == 0
    {
      hide HandsOf, Deck, Members, Penalties, IsCard, Seat, RoundRobin, IndexOf, StartHands;
      hide Distinct, IsPenalty, Room.Conserved, Room.Penalised, Room.Table;
      AllDealt(seats, hands, DealerSeat(), direction);
      SeatRounds(DealerSeat(), PLAYER_START_CARD_COUNT, direction, |seats|);
      DealersTurn();
      gameState, dealTurn := DealingDealer, 0;
    }

    /** The next of the first cards is dealt. */
    method DealStep()
      requires InGame() && gameState == Dealing
      modifies this`heap, this`history, this`hands, this`cursor, this`dealTurn, this`gameState
      ensures InGame() && old(heap) != [] && old(seats[cursor]) in old(hands)
      ensures hands == WithCard(old(hands), old(seats[cursor]), old(heap)[|old(heap)| - 1])
      ensures if old(dealTurn) + 1 == PLAYER_START_CARD_COUNT * |seats| then gameState == DealingDealer && dealTurn == 0
              else gameState == Dealing && dealTurn == old(dealTurn) + 1
    {
      hide HandsOf, Deck, Members, Penalties, IsCard, Seat, RoundRobin, IndexOf, StartHands;
      hide Distinct, IsPenalty, Room.FirstPhase, Room.Conserved, Room.Penalised, Room.DealerSeat;
      hide WithCard, Room.DealerPhase, Room.Fresh;
      DealRound();
      if dealTurn >= currPlayers * PLAYER_START_CARD_COUNT {
        DealingDone();
      }
    }

    /** A tick while the first cards are dealt: everybody in turn, until all have seven. */
    method TickDealing()
      requires InGame() && gameState == Dealing
      modifies this
      ensures InGame() && seats == old(seats) && dealer == old(dealer) && direction == old(direction)
      ensures old(timer) > 1 ==>
                gameState == Dealing && dealTurn == old(dealTurn) && hands == old(hands) && timer == old(timer) - 1
      ensures old(timer) <= 1 ==> timer == 5 && old(heap) != []
      ensures old(timer) <= 1 ==> old(seats[cursor]) in old(hands)
      ensures old(timer) <= 1 ==> hands == WithCard(old(hands), old(seats[cursor]), old(heap)[|old(heap)| - 1])
      ensures old(timer) <= 1 ==>
                if old(dealTurn) + 1 == 7 * |seats| then
                  gameState == DealingDealer && dealTurn == 0
                else gameState == Dealing && dealTurn == old(dealTurn) + 1
      ensures markLeft ==> old(markLeft)
    {
      hide InGame, WithCard;
      timer := timer - 1;
      if timer <= 0 {
        DealStep();
        timer := TIMER_DEALING_INTERVAL;
      }
    }

    lemma DealersTurn()
      requires dealer >= 0 && dealer in seats && cursor == DealerSeat()
      ensures cursor < |seats| && seats[cursor] == dealer
    {
    }

    /** One more card for the dealer. */
    method DealerRound()
      requires Table() && Turned() && Conserved() && Fresh() && heap != [] && seats[cursor] == dealer
      requires StartHands(seats, hands, dealer, dealTurn)
      modifies this`heap, this`history, this`hands, this`dealTurn
      ensures Table() && Conserved() && Fresh() && |heap| == old(|heap|) - 1
      ensures dealTurn == old(dealTurn) + 1 && StartHands(seats, hands, dealer, dealTurn)
      ensures old(seats[cursor]) in old(hands)
      ensures hands == WithCard(old(hands), old(seats[cursor]), old(heap)[|old(heap)| - 1])
    {
      hide HandsOf, Deck, IsCard, StartHands;
      var uid := seats[cursor];
      assert uid == dealer;
      DealerMore(seats, hands, uid, dealTurn, heap[|heap| - 1]);
      DealOne(uid);
      dealTurn := dealTurn + 1;
    }

    /** After the dealer's last card comes the first one to play on. */
    method DealerDone()
      requires Between() && dealTurn == DEALER_START_CARD_EXT_COUNT && seats[cursor] == dealer
      requires |heap| == DECK_SIZE - PLAYER_START_CARD_COUNT * |seats| - dealTurn
      requires StartHands(seats, hands, dealer, dealTurn)
      modifies this`gameState, this`dealTurn, this`timer, this`canPlayAhead
      ensures InGame() && gameState == SelectFirstCard && canPlayAhead && timer == 2
    {
      hide HandsOf, Deck, Members, Penalties, IsCard, Distinct, StartHands, IsPenalty;
      hide Room.Conserved, Room.Table, Room.Penalised;
      gameState, dealTurn, timer := SelectFirstCard, 0, TIMER_SELECT_FIRST_CARD_INTERVAL;
      canPlayAhead := true;
    }

    /** A tick while the dealer gets two cards more. */
    method TickDealer()
      requires InGame() && gameState == DealingDealer
      modifies this
      ensures InGame() && seats == old(seats) && cursor == old(cursor) && dealer == old(dealer)
      ensures old(timer) > 1 ==> gameState == DealingDealer && dealTurn == old(dealTurn) && hands == old(hands)
      ensures old(timer) <= 1 ==> old(heap) != [] && old(seats[cursor]) in old(hands)
      ensures old(timer) <= 1 ==> hands == WithCard(old(hands), old(seats[cursor]), old(heap)[|old(heap)| - 1])
      ensures old(timer) <= 1 ==>
                if old(dealTurn) == 1 then gameState == SelectFirstCard && canPlayAhead && timer == 2
                else gameState == DealingDealer && dealTurn == 1 && timer == 5
      ensures markLeft ==> old(markLeft)
    {
      hide HandsOf, Deck, Members, Penalties, IsCard, Distinct, StartHands, IsPenalty;
      hide Room.RoundPhase, Room.Conserved, Room.Table, Room.Penalised, WithCard, Room.FirstPhase;
      timer := timer - 1;
      if timer <= 0 {
        DealerRound();
        if dealTurn >= DEALER_START_CARD_EXT_COUNT {
          DealerDone();
        } else {
          timer := TIMER_DEALING_INTERVAL;
        }
      }
    }

    /** Puts a card somewhere into the pile, and the one from there on top. */
    method PutBack(c: int)
      modifies this`heap
      ensures multiset(heap) == multiset(old(heap)) + multiset{c} && |heap| == |old(heap)| + 1
    {
      heap := heap + [c];
      var idx := RandomIndex(|heap|);
      SwapKeeps(heap, idx, |heap| - 1);
      heap := heap[idx := heap[|heap| - 1]][|heap| - 1 := heap[idx]];
    }

    /** Draws the first card: a number card, unless too many tries bring none. */
    method DrawFirst() returns (c: int, ghost putBack: nat)
      requires |heap| > 1
      modifies this`heap, this`history
      ensures multiset(heap) + multiset{c} == multiset(old(heap)) && history == old(history)
      ensures putBack <= 101 && (c >= 0 && IsFuncCard(c) ==> putBack == 101 || |heap| <= 1)
    {
      var limit := 100;
      putBack := 0;
      while true
        invariant |heap| == |old(heap)| && multiset(heap) == multiset(old(heap)) && history == old(history)
        invariant -1 <= limit && putBack == 100 - limit
        decreases limit
      {
        ghost var before := heap;
        c := HeapDeal();
        LastOut(before);
        if limit >= 0 && c >= 0 && IsFuncCard(c) && |heap| > 1 {
          PutBack(c);
          limit := limit - 1;
          putBack := putBack + 1;
        } else {
          break;
        }
      }
    }

    /** The first card becomes the last one, and the whole history. */
    method PlaceFirst()
      requires Conserved() && Table() && |heap| > 1 && history == [] && draw == 0 && played == [] && lastCanReport == -1
      modifies this`heap, this`history, this`last, this`lastChgColor
      ensures Conserved() && Penalised() && IsCard(last) && history == [last as int] && |heap| == old(|heap|) - 1
    {
      hide HandsOf, Deck, Members, Distinct, IsPenalty;
      StockCards();
      ghost var pile, others := multiset(heap), HandsOf(seats, hands);
      var c, putBack := DrawFirst();
      FirstCard(pile, multiset(heap), others, c);
      assert c in old(Stock());
      CardIsNatural(c);
      last, lastChgColor := c, 0;
      history := history + [c];
    }

    /** A tick while the first card to play on is awaited. */
    method TickFirstCard()
      requires InGame() && gameState == SelectFirstCard
      modifies this
      ensures InGame() && seats == old(seats) && hands == old(hands) && cursor == old(cursor) && dealer == old(dealer)
      ensures old(timer) > 1 ==> gameState == SelectFirstCard && last == 0
      ensures old(timer) <= 1 ==>
                && gameState == WaitPlayer && timer == 200 && seats[cursor] == dealer
                && IsCard(last) && history == [last as int] && draw == 0
      ensures old(timer) <= 1 ==>
                && |heap| == 345 - 7 * |seats|
                && forall u :: u in seats ==> u in hands && |hands[u]| == if u == dealer then 9 else 7
      ensures markLeft ==> old(markLeft)
    {
      hide HandsOf, Deck, Members, Penalties, Distinct, StartHands, RoundPhase, DealerPhase;
      hide IsPenalty, Conserved, Table, IsCard, Penalised;
      timer := timer - 1;
      if timer <= 0 {
        StartMeans(seats, hands, dealer);
        PlaceFirst();
        assert seats[cursor] == dealer;
        gameState, timer := WaitPlayer, TIMER_PLAYER_THINKING;
        Resume();
      }
    }

    /** A colour for a card without one: roughly the most frequent in the hand. */
    method ChooseColor(red: nat, yellow: nat, green: nat, blue: nat) returns (color: int)
      ensures COLOR_RED <= color <= COLOR_GREEN
    {
      color := COLOR_ALL;
      if blue != 0 {
        color := COLOR_BLUE;
      } else if green > blue {
        color := COLOR_GREEN;
      } else if yellow > green {
        color := COLOR_YELLOW;
      } else if red > yellow {
        color := COLOR_RED;
      }
      if color == COLOR_ALL {
        color := RandomSelect([COLOR_BLUE, COLOR_GREEN, COLOR_YELLOW, COLOR_RED]);
      }
    }

    /** The cards of a hand that may be played in turn, and how many there are of each
        colour. */
    method SurveyHand(hand: seq<int>) returns (fits: seq<int>, red: nat, yellow: nat, green: nat, blue: nat)
      requires (draw > 0 ==> IsPenalty(last)) && forall k :: 0 <= k < |hand| ==> IsCard(hand[k])
      ensures forall c :: c in fits ==> c in hand && FitsTurn(c)
      ensures fits == [] ==> forall c :: c in hand ==> !FitsTurn(c)
    {
      hide CanPlay, MayFollow;
      fits, red, yellow, green, blue := [], 0, 0, 0, 0;
      for i := 0 to |hand|
        invariant forall c :: c in fits ==> c in hand && FitsTurn(c)
        invariant fits == [] ==> forall k :: 0 <= k < i ==> !FitsTurn(hand[k])
      {
        var c := hand[i];
        assert c in hand;
        CanPlayIsRule(last, lastChgColor, draw, canPlayAhead, c, false);
        if CanPlay(last, lastChgColor, draw, canPlayAhead, c, false) {
          fits := fits + [c];
        }
        var color := ColorOf(c);
        if color == COLOR_RED {
          red := red + 1;
        } else if color == COLOR_YELLOW {
          yellow := yellow + 1;
        } else if color == COLOR_GREEN {
          green := green + 1;
        } else if color == COLOR_BLUE {
          blue := blue + 1;
        }
      }
    }

    /** Plays for a player who took too long: a card that fits, or a draw when none does.
        Neither is ever refused. The card is -1 for a draw. */
    method AutoPlay() returns (card: int, color: int, withUno: bool)
      requires InGame() && gameState == WaitPlayer
      modifies this
      ensures Valid() && seats == old(seats) && old(seats[cursor]) in old(hands)
      ensures card == -1 ==>
                && InGame() && played == [] && cursor == (old(cursor) + direction) % |seats|
                && forall c :: c in old(hands)[old(seats[cursor])] ==> !old(FitsTurn(c))
      ensures card == -1 ==>
                var uid := old(seats[cursor]);
                && uid in hands && hands == old(hands)[uid := hands[uid]]
                && |hands[uid]| == |old(hands)[uid]|
                                   + Min(if old(draw) != 0 then old(draw) else 1, old(|heap| + |history|))
      ensures card == -1 ==> draw == 0
      ensures card != -1 && !playing ==> lastWin == old(seats[cursor])
      ensures card != -1 ==>
                && old(Playable(seats[cursor], card, color))
                && (playing <==> !old(Winning(seats[cursor], card, withUno)))
                && (playing ==> last == card && played == old(played) + [card])
      ensures playing ==> gameState == WaitPlayer && timer == TIMER_PLAYER_THINKING
      ensures markLeft ==> old(markLeft)
    {
      hide HandsOf, Deck, Penalties, IsCard, MayFollow, RoundPhase, DealerPhase, FirstPhase, IndexOf, Removed;
      var uid := seats[cursor];
      var hand := hands[uid];
      StockCards();
      assert forall k :: 0 <= k < |hand| ==> hand[k] in hand;
      var fits, red, yellow, green, blue := SurveyHand(hand);
      card, color, withUno := -1, COLOR_ALL, false;
      if fits == [] {
        var ok := PlayerDealCard(uid, 1, Normal);
        assert ok;
      } else {
        card := RandomSelect(fits);
        assert card in fits && card in hand && card >= 0;
        if ColorOf(card) == COLOR_ALL {
          color := ChooseColor(red, yellow, green, blue);
        }
        var coin := RandomIndex(2);
        withUno := |hand| == 2 && coin == 1;
        assert old(Playable(uid, card, color));
        var ok := PlayerCardPlay(uid, card, withUno, color);
        assert ok;
      }
    }

    /** Whether a card may be played by the player whose turn it is. */
    ghost predicate FitsTurn(c: int)
      reads this
    {
      c >= 0 && MayFollow(ColorOf(last), FuncOf(last), lastChgColor, draw > 0, ColorOf(c), FuncOf(c))
    }

    /** A tick while a player is thinking; the time is shorter for a player who has been
        offline for long. The card is what was played for the player, -1 if none was. */
    method TickWait(offline: bool) returns (ghost card: int)
      requires InGame() && gameState == WaitPlayer
      modifies this
      ensures Valid() && seats == old(seats) && old(seats[cursor]) in old(hands)
      ensures var threshold := if offline then 170 else 0;
              if old(timer) - 1 > threshold then
                timer == old(timer) - 1 && playing && hands == old(hands) && cursor == old(cursor) && heap == old(heap)
              else
                && (playing ==> timer == 200)
                && (card == -1 ==> draw == 0 && played == []
                                   && forall c :: c in old(hands)[old(seats[cursor])] ==> !old(FitsTurn(c)))
                && (card != -1 ==> card in old(hands)[old(seats[cursor])] && old(FitsTurn(card))
                                   && (if playing then played == old(played) + [card]
                                       else lastWin == old(seats[cursor])))
      ensures playing ==> gameState == WaitPlayer
      ensures markLeft ==> old(markLeft)
    {
      hide HandsOf, Deck, Members, Penalties, IsCard, MayFollow, RoundPhase, DealerPhase, FirstPhase;
      AtTable();
      assert seats[cursor] in seats;
      card := -1;
      timer := timer - 1;
      var threshold := 0;
      if offline {
        threshold := PLAYER_AUTO_PLAY_THINKING_TIME;
      }
      if timer <= threshold {
        var chosen, color, withUno := AutoPlay();
        card := chosen;
      }
    }

    /** Where a tick may take a game: on in the same phase, or to the next one; only a play
        ends it. */
    static ghost predicate NextPhase(was: GameState, playing: bool, now: GameState) {
      match was
      case Dealing => playing && (now.Dealing? || now.DealingDealer?)
      case DealingDealer => playing && (now.DealingDealer? || now.SelectFirstCard?)
      case SelectFirstCard => playing && (now.SelectFirstCard? || now.WaitPlayer?)
      case WaitPlayer => playing ==> now.WaitPlayer?
      case Idle => false
    }

    /** One tick of the timer in a game. */
    method Tick(offline: bool)
      requires InGame()
      modifies this
      ensures Valid() && seats == old(seats)
      ensures NextPhase(old(gameState), playing, gameState)
      ensures playing ==>
                (old(gameState), gameState)
                in {(Dealing, Dealing), (Dealing, DealingDealer), (DealingDealer, DealingDealer),
                    (DealingDealer, SelectFirstCard), (SelectFirstCard, SelectFirstCard),
                    (SelectFirstCard, WaitPlayer), (WaitPlayer, WaitPlayer)}
      ensures !playing ==> old(gameState) == WaitPlayer
      ensures markLeft ==> old(markLeft)
    {
      hide HandsOf, Deck, Members, Penalties, IsCard, RoundPhase, DealerPhase, FirstPhase;
      match gameState {
        case Dealing => TickDealing();
        case DealingDealer => TickDealer();
        case SelectFirstCard => TickFirstCard();
        case WaitPlayer => ghost var card := TickWait(offline);
        case Idle =>
      }
    }

    // Runs.

    /** It is the player's turn in a game. */
    ghost predicate HasTurn(uid: nat)
      reads this`playing, this`cursor, this`seats
    {
      playing && 0 <= cursor < |seats| && seats[cursor] == uid
    }

    /** Somebody at the table can be reported. */
    ghost predicate Reportable()
      reads this`lastCanReport, this`hands
    {
      lastCanReport >= 0 && lastCanReport in hands
    }

    /** The requests, as their handlers admit them. */
    method StartRequest()
      requires Valid()
      modifies this
      ensures Valid() && seats == old(seats)
      ensures old(playing) || |old(hands)| < 2 ==> unchanged(this)
      ensures !old(playing) && |old(hands)| >= 2 ==>
                && playing && gameState == Dealing && dealTurn == 0 && direction == -old(lastDirection)
                && 0 <= cursor < |seats| && seats[cursor] == dealer
      ensures markLeft ==> old(markLeft)
    {
      hide InGame;
      if !playing && |hands| >= 2 {
        PlayersAtTable();
        GameStart();
      }
    }

    method TickRequest(offline: bool)
      requires Valid()
      modifies this
      ensures Valid() && seats == old(seats)
      ensures !old(playing) ==> unchanged(this)
      ensures old(playing) ==> NextPhase(old(gameState), playing, gameState)
      ensures markLeft ==> old(markLeft)
    {
      hide InGame;
      if playing {
        Tick(offline);
      }
    }

    method PlayRequest(uid: nat, c: int, withUno: bool, chgColor: int)
      requires Valid()
      modifies this
      ensures Valid() && seats == old(seats)
      ensures !(old(playing) && old(Playable(uid, c, chgColor))) ==> unchanged(this)
      ensures old(playing) && old(Playable(uid, c, chgColor)) ==>
                if old(Winning(uid, c, withUno)) then !playing && lastWin == uid
                else playing && gameState == WaitPlayer && last == c && played == old(played) + [c]
      ensures markLeft ==> old(markLeft)
    {
      hide InGame, Core, Table, Turned, Conserved, Penalised, Room.Dealt, HandsOf, Deck, Members;
      hide Distinct, Penalties;
      hide MayFollow, Winning, Marked;
      AtTable();
      if playing && uid in hands {
        GameCore();
        var ok := PlayerCardPlay(uid, c, withUno, chgColor);
      }
    }

    method DrawRequest(uid: nat)
      requires Valid()
      modifies this
      ensures Valid() && seats == old(seats)
      ensures !old(HasTurn(uid)) ==> unchanged(this)
      ensures old(HasTurn(uid)) ==>
                && playing && gameState == WaitPlayer && draw == 0 && 0 <= cursor < |seats|
                && cursor == (old(cursor) + direction) % |seats|
      ensures old(HasTurn(uid)) ==>
                && uid in old(hands) && uid in hands && hands == old(hands)[uid := hands[uid]]
                && |hands[uid]| == |old(hands)[uid]|
                                   + Min(if old(draw) != 0 then old(draw) else 1, old(|heap| + |history|))
      ensures markLeft ==> old(markLeft)
    {
      hide InGame, Core, Table, Turned, Conserved, Penalised, Room.Dealt, HandsOf, Deck, Members;
      hide Distinct, Penalties;
      AtTable();
      if playing {
        GameCore();
        if uid in hands {
          var ok := PlayerDealCard(uid, 1, Normal);
          if ok {
            GameCore();
          }
        }
      }
    }

    /** The assertion is met exactly when the player who can be reported has not left. When
        it is not met the source ends here. */
    method ReportRequest(uid: nat) returns (met: bool)
      requires Valid()
      modifies this
      ensures Valid() && seats == old(seats)
      ensures met <==> !(old(playing) && uid in old(hands) && old(markLeft))
      ensures !met ==> unchanged(this)
      ensures !(old(playing) && uid in old(hands) && old(Reportable())) ==> unchanged(this)
      ensures old(playing) && uid in old(hands) && old(Reportable()) ==> playing && lastCanReport == -1 && !markLeft
      ensures old(playing) && uid in old(hands) && old(Reportable()) ==>
                && old(lastCanReport) in hands
                && |hands[old(lastCanReport)]|
                   == |old(hands)[old(lastCanReport)]| + Min(2, old(|heap| + |history|))
      ensures markLeft ==> old(markLeft)
    {
      hide InGame, Core, Table, Turned, Conserved, Penalised, Room.Dealt, HandsOf, Deck, Members;
      hide Distinct, Penalties;
      AtTable();
      met := true;
      if playing && uid in hands {
        GameCore();
        var ok, fine, who := PlayerReportNoUno(uid);
        met := fine;
        GameCore();
      }
    }

    method LeaveRequest(uid: nat)
      requires Valid()
      modifies this
      ensures seats != [] ==> Valid()
      ensures uid !in old(seats) || (old(playing) && old(gameState) != WaitPlayer) ==> unchanged(this)
      ensures uid in old(seats) && !(old(playing) && old(gameState) != WaitPlayer) ==>
                seats == WithoutSeat(old(seats), uid)
      ensures markLeft && !old(markLeft) ==> old(playing) && old(lastCanReport) == uid
    {
      hide InGame, Core, Table, Turned, Conserved, Penalised, Room.Dealt, HandsOf, Deck, Members;
      hide Distinct, Penalties;
      hide Marked, WithoutSeat, IndexOf;
      AtTable();
      if uid in hands {
        if playing {
          GameCore();
          var ok := PlayerLeave(uid);
        } else {
          LeaveIdle(uid);
        }
      }
    }

    method ShuffleRequest()
      requires Valid()
      modifies this
      ensures Valid() && multiset(seats) == multiset(old(seats))
      ensures old(playing) ==> unchanged(this)
      ensures markLeft ==> old(markLeft)
    {
      if !playing {
        ShuffleSeats();
      }
    }

    /** What a state of a game consists of. */
    lemma GameParts()
      requires InGame()
      ensures playing && Table() && Turned() && Conserved() && Penalised() && Marked() && gameState != Idle
    {
      hide Table, Conserved, Penalised, Marked, RoundPhase, DealerPhase, FirstPhase;
    }

    lemma CoreParts()
      requires Core()
      ensures playing && Table() && Turned()
    {
      hide Table, Turned, Conserved, Penalised, Marked;
    }

    lemma GameCore()
      requires InGame()
      ensures playing && Core() && Marked() && 0 <= cursor < |seats| && |seats| >= 2
    {
      hide HandsOf, Deck, Members, Penalties, IsCard, Distinct, RoundPhase, DealerPhase, FirstPhase;
    }

    lemma AtTable()
      requires Valid()
      ensures Table() && forall u :: u in hands <==> u in seats
    {
    }

    lemma PlayersAtTable()
      requires Table() && |hands| >= 2
      ensures |seats| >= 2
    {
      SeatsCount(seats);
      assert hands.Keys == Members(seats);
      assert |hands.Keys| == |hands|;
    }

    /** Serves one request or tick. Only a report can meet the assertion about the player who
        can be reported, and fails it exactly when that player has left. */
    method Serve(e: Event) returns (met: bool)
      requires Valid()
      modifies this
      ensures seats != [] ==> Valid()
      ensures !e.Leaves? && !e.Enters? && !e.Shuffles? ==> seats == old(seats)
      ensures e.Ticks? && old(playing) ==> NextPhase(old(gameState), playing, gameState)
      ensures !met <==> e.Reports? && old(playing) && e.uid in old(hands) && old(markLeft)
      ensures !met ==> unchanged(this)
      ensures markLeft && !old(markLeft) ==> e.Leaves? && old(playing) && old(lastCanReport) == e.uid
    {
      hide Valid;
      met := true;
      match e {
        case Starts => StartRequest();
        case Ticks(offline) => TickRequest(offline);
        case Plays(uid, c, withUno, chgColor) => PlayRequest(uid, c, withUno, chgColor);
        case Draws(uid) => DrawRequest(uid);
        case Reports(uid) => met := ReportRequest(uid);
        case Leaves(uid) => LeaveRequest(uid);
        case Enters(uid) => var ok := Enter(uid);
        case Shuffles => ShuffleRequest();
      }
    }

    /** Whatever requests and ticks come in whatever order, the room stays valid until the
        last player has left, or a report meets the mark of a player who has left. Where
        nobody leaves that does not happen. */
    method Run(events: seq<Event>) returns (met: bool, ghost served: nat)
      requires Valid() && seats != []
      modifies this
      ensures seats != [] ==> Valid()
      ensures seats != [] && playing ==>
                && multiset(heap) + multiset(history) + HandsOf(seats, hands) == Deck()
                && draw == 2 * CountFunc(played, 13) + 4 * CountFunc(played, 14)
                && (draw > 0 ==> FuncOf(last) == 13 || FuncOf(last) == 14)
                && 0 <= cursor < |seats| && forall u :: u in hands <==> u in seats
      ensures served <= |events| && (met && seats != [] ==> served == |events|)
      ensures !met ==> served < |events| && events[served].Reports? && playing && markLeft
      ensures !old(markLeft) && (forall e :: e in events ==> !e.Leaves?) ==> met && !markLeft
    {
      hide Valid;
      met, served := true, 0;
      for i := 0 to |events|
        invariant met && served <= i && (seats != [] ==> Valid() && served == i)
        invariant !old(markLeft) && (forall e :: e in events ==> !e.Leaves?) ==> !markLeft
      {
        if seats == [] {
          return;
        }
        assert events[i] in events;
        met := Serve(events[i]);
        if !met {
          GameMeans();
          return;
        }
        served := i + 1;
      }
      if seats != [] {
        GameMeans();
      }
    }

    /** What the invariant says about a game, written out. */
    lemma GameMeans()
      requires Valid()
      ensures playing ==>
                && multiset(heap) + multiset(history) + HandsOf(seats, hands) == Deck()
                && draw == 2 * CountFunc(played, 13) + 4 * CountFunc(played, 14)
                && (draw > 0 ==> FuncOf(last) == 13 || FuncOf(last) == 14)
                && 0 <= cursor < |seats|
      ensures forall u :: u in hands <==> u in seats
    {
      hide HandsOf, Deck, Penalties, CountFunc, IsCard, Distinct, RoundPhase, DealerPhase, FirstPhase;
      PenaltiesCount(played);
    }

    /** How the assertion fails: a player plays to one card without a call and leaves, and
        then anybody reports. */
    method PlayLeaveReport(uid: nat, c: int, chgColor: int) returns (met: bool)
      requires InGame() && gameState == WaitPlayer && |seats| > 2 && uid in seats
      requires Playable(uid, c, chgColor) && |hands[uid]| == 2
      modifies this
      ensures InGame() && lastCanReport == uid && uid !in seats && markLeft && !met
    {
      hide InGame, Playable, Distinct;
      var ok := PlayerCardPlay(uid, c, false, chgColor);
      ok := PlayerLeave(uid);
      GameCore();
      var reported, fine, who := PlayerReportNoUno(seats[0]);
      met := fine;
      GameCore();
    }
  }

  /** One more card dealt round robin: the one whose turn it is has one more. */
  lemma OneMoreDealt(seats: seq<nat>, hands: map<nat, seq<int>>, d: nat, t: nat, direction: int, at: nat, c: int)
    requires Distinct(seats) && d < |seats| && (direction == 1 || direction == -1)
    requires at == Seat(d, t, direction, |seats|)
    requires RoundRobin(seats, hands, d, t, direction)
    ensures at < |seats| && seats[at] in hands
    ensures RoundRobin(seats, hands[seats[at] := hands[seats[at]] + [c]], d, t + 1, direction)
  {
    hide Seat, Offset, RoomRules.Dealt;
    var n, after := |seats|, hands[seats[at] := hands[seats[at]] + [c]];
    OffsetOfSeat(d, t, direction, n);
    forall i | 0 <= i < n
      ensures |after[seats[i]]| == RoomRules.Dealt(t + 1, Offset(i, d, direction, n), n)
    {
      DealtNext(t, Offset(i, d, direction, n), n);
      if Offset(i, d, direction, n) == Offset(at, d, direction, n) {
        OffsetUnique(i, at, d, direction, n);
      }
    }
  }

  lemma DealerMore(seats: seq<nat>, hands: map<nat, seq<int>>, dealer: nat, extra: nat, c: int)
    requires StartHands(seats, hands, dealer, extra) && dealer in seats
    ensures dealer in hands && StartHands(seats, hands[dealer := hands[dealer] + [c]], dealer, extra + 1)
  {
  }

  /** After whole rounds everybody has the same number. */
  lemma AllDealt(seats: seq<nat>, hands: map<nat, seq<int>>, d: nat, direction: int)
    requires d < |seats|
    requires RoundRobin(seats, hands, d, PLAYER_START_CARD_COUNT * |seats|, direction)
    ensures forall dealer: int :: StartHands(seats, hands, dealer, 0)
  {
    hide Offset, RoomRules.Dealt;
    forall u | u in seats
      ensures u in hands && |hands[u]| == PLAYER_START_CARD_COUNT
    {
      var i := IndexOf(seats, u);
      DealtRounds(PLAYER_START_CARD_COUNT, Offset(i, d, direction, |seats|), |seats|);
      assert seats[i] == u;
    }
  }

  lemma LastOut(s: seq<int>)
    requires s != []
    ensures s[..|s| - 1] + [s[|s| - 1]] == s && multiset(s[..|s| - 1]) + multiset{s[|s| - 1]} == multiset(s)
  {
    assert s[..|s| - 1] + [s[|s| - 1]] == s;
  }

  lemma SwapKeeps(s: seq<int>, i: nat, j: nat)
    requires i < |s| && j < |s|
    ensures multiset(s[i := s[j]][j := s[i]]) == multiset(s)
  {
  }

  lemma FirstCard(pile: multiset<int>, heap: multiset<int>, others: multiset<int>, c: int)
    requires heap + multiset{c} == pile
    ensures c in pile
    ensures heap + multiset([c]) + others == pile + multiset([]) + others
  {
    assert multiset([c]) == multiset{c};
  }

  lemma {:induction false} SeatsCount(s: seq<nat>)
    ensures |Members(s)| <= |s|
  {
    if s != [] {
      SeatsCount(s[1..]);
      assert Members(s) == {s[0]} + Members(s[1..]);
    }
  }

  lemma SameSeats(s: seq<nat>, t: seq<nat>)
    requires multiset(s) == multiset(t) && Distinct(s)
    ensures Distinct(t) && |t| == |s| && Members(t) == Members(s) && forall u :: u in t <==> u in s
  {
    assert |multiset(s)| == |multiset(t)|;
    forall u: nat
      ensures u in t <==> u in s
    {
      assert u in s <==> u in multiset(s);
      assert u in t <==> u in multiset(t);
    }
    forall i, j | 0 <= i < j < |t|
      ensures t[i] != t[j]
    {
      if t[i] == t[j] {
        TwiceInSeq(t, i, j);
        OnceInSeq(s, t[i]);
      }
    }
  }

  lemma TwiceInSeq(t: seq<nat>, i: nat, j: nat)
    requires i < j < |t| && t[i] == t[j]
    ensures multiset(t)[t[i]] >= 2
  {
    assert t == t[..j] + t[j..];
    assert t[i] in multiset(t[..j]) && t[j] in multiset(t[j..]) by {
      assert t[i] == t[..j][i] && t[j] == t[j..][0];
    }
  }

  lemma {:induction false} OnceInSeq(s: seq<nat>, u: nat)
    requires Distinct(s)
    ensures multiset(s)[u] <= 1
  {
    if s != [] {
      OnceInSeq(s[1..], u);
      assert s == [s[0]] + s[1..];
      assert s[0] !in s[1..];
    }
  }

  /** The table without one player's seat. */
  function WithoutSeat(s: seq<nat>, u: nat): (r: seq<nat>)
    requires u in s
    ensures |r| == |s| - 1
  {
    s[..IndexOf(s, u)] + s[IndexOf(s, u) + 1..]
  }

  /** Where a position that is compared as an unsigned number ends up when seat i of n goes. */
  lemma PositionAfter(c: int, i: nat, n: nat)
    requires i < n < TWO32
    ensures var d := c - (if U64(c) > i then 1 else 0);
            && (0 <= d < n - 1 <==> 0 <= c < n && !(c == i == n - 1)) && (c == -1 ==> d == -2)
  {
    if c < 0 {
    } else if c < TWO64 {
      assert U64(c) == c;
    }
  }

  lemma OneSeat(owner: nat)
    ensures Distinct([owner]) && {owner} == Members([owner])
  {
  }

  /** The next seat in a direction is another one. */
  lemma NextSeat(i: nat, direction: int, n: nat)
    requires i < n && n >= 2 && (direction == 1 || direction == -1)
    ensures (i + direction) % n
            == if i + direction == n then 0 else if i + direction == -1 then n - 1 else i + direction
    ensures (i + direction) % n != i
  {
    SmallMod(i, n);
    ModStep(i, n);
  }

  /** A table that a player has left. */
  lemma LeaveTable(s: seq<nat>, hands: map<nat, seq<int>>, u: nat)
    requires Distinct(s) && u in s && hands.Keys == Members(s)
    ensures var t := WithoutSeat(s, u); Distinct(t) && Members(t) == Members(s) - {u}
    ensures (hands - {u}).Keys == Members(WithoutSeat(s, u))
    ensures forall x :: x in WithoutSeat(s, u) <==> x in s && x != u
    ensures u in hands && HandsOf(WithoutSeat(s, u), hands - {u}) + multiset(hands[u]) == HandsOf(s, hands)
  {
    hide HandsOf, IndexOf;
    var i := IndexOf(s, u);
    HandsRemove(s, hands, i);
    RestOfTable(s, u);
  }

  lemma RestOfTable(s: seq<nat>, u: nat)
    requires Distinct(s) && u in s
    ensures var t := WithoutSeat(s, u); Distinct(t) && Members(t) == Members(s) - {u}
    ensures forall x :: x in WithoutSeat(s, u) <==> x in s && x != u
  {
    hide IndexOf;
    var i, t := IndexOf(s, u), WithoutSeat(s, u);
    forall x: nat
      ensures x in t <==> x in s && x != u
    {
      if x in s && x != u {
        var j := IndexOf(s, x);
        assert x == if j < i then t[j] else t[j - 1];
      }
    }
  }

  lemma LeaveCards(heap: multiset<int>, history: multiset<int>, hand: multiset<int>, others: multiset<int>,
                   all: multiset<int>)
    requires others + hand == all
    ensures hand + heap + history + others == heap + history + all
  {
  }

  lemma CardIsNatural(c: int)
    ensures IsCard(c) ==> c > 0
    ensures IsCard(c) ==> c < 128
  {
  }

  /** How far a card moves the turn. */
  function StepOf(c: nat, direction: int): int {
    if FuncOf(c) == FUNC_SKIP then direction * 2
    else if FuncOf(c) == FUNC_REVERSE then -direction
    else direction
  }

  /** A skip moves the turn by two seats, a reversal by one the other way, every other card by
      one. */
  lemma StepTable(color: nat, func: nat, direction: int)
    requires IsColor(color) && IsFunc(func)
    ensures StepOf(Compose(color, func), direction)
            == if func == 11 then 2 * direction else if func == 12 then -direction else direction
  {
    hide ColorOf, FuncOf;
    ComposeInverse(color, func, 0);
  }

  /** Two cards for a call that was not due, and two for a last card that is no number. */
  lemma PunishmentTable(color: nat, func: nat, needUno: bool, withUno: bool, rest: nat)
    requires IsColor(color) && IsFunc(func)
    ensures var c := Compose(color, func);
            Punishment(c, needUno, withUno, rest)
            == (if withUno && !needUno then 2 else 0) + (if rest == 0 && func >= 11 then 2 else 0)
  {
    hide IsFuncCard;
    CardEffects(color, func);
  }

  /** How many cards a player is punished with after playing a card. */
  function Punishment(c: nat, needUno: bool, withUno: bool, rest: nat): nat {
    (if !needUno && withUno then PUNISH else 0) + (if rest == 0 && IsFuncCard(c) then PUNISH else 0)
  }

  /** A card that moved from a hand to the history is still there. */
  lemma MovedCard(heap: multiset<int>, history: multiset<int>, before: multiset<int>, after: multiset<int>,
                  hand: multiset<int>, c: int)
    requires after + (hand + multiset{c}) == before + hand
    ensures heap + (history + multiset{c}) + after == heap + history + before
  {
    forall x: int
      ensures (after + multiset{c})[x] == before[x]
    {
      assert (after + (hand + multiset{c}))[x] == (before + hand)[x];
    }
    assert after + multiset{c} == before;
  }

  /** Cards that moved from the pile to a hand are still there. */
  lemma StillAll(was: multiset<int>, stock: multiset<int>, before: multiset<int>, after: multiset<int>,
                 hand: multiset<int>, arr: multiset<int>)
    requires stock + arr == was && after + hand == before + (hand + arr)
    ensures stock + after == was + before
  {
    forall x: int
      ensures after[x] == (before + arr)[x]
    {
      assert (after + hand)[x] == (before + (hand + arr))[x];
    }
    assert after == before + arr;
    assert (stock + arr) + before == stock + (before + arr);
  }

  function ThreeSets(): (s: seq<int>)
    ensures multiset(s) == Deck() && |s| == DECK_SIZE
  {
    DeckCards();
    CardSet() + CardSet() + CardSet()
  }

  lemma NothingDealt(n: nat)
    requires n > 0
    ensures forall k: nat :: RoomRules.Dealt(0, k, n) == 0
  {
    DivUnique(0, n, 0, 0);
  }
}
