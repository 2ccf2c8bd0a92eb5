// The rules a room follows: who sits next to whom, how many cards have been dealt to
// whom, which card may be played on which, and where all the cards are.

module RoomRules {
  import opened Arith
  import opened Cards

  const PLAYER_START_CARD_COUNT: nat := 7
  const DEALER_START_CARD_EXT_COUNT: nat := 2
  const DECK_SIZE: nat := 348

  // Seats.

  ghost predicate Distinct(s: seq<nat>) {
    forall i, j :: 0 <= i < j < |s| ==> s[i] != s[j]
  }

  /** The seat reached from seat d after t moves in the given direction. */
  function Seat(d: nat, t: int, direction: int, n: nat): (r: nat)
    requires n > 0
    ensures r < n
  {
    if direction == 1 then (d + t) % n else (d - t) % n
  }

  /** How many moves seat i is away from seat d in the given direction. */
  function Offset(i: nat, d: nat, direction: int, n: nat): (r: nat)
    requires n > 0
    ensures r < n
  {
    if direction == 1 then (i - d) % n else (d - i) % n
  }

  /** Of t cards dealt round robin among n, how many the one k places after the first got. */
  function Dealt(t: nat, k: nat, n: nat): nat
    requires n > 0
  {
    t / n + if k < t % n then 1 else 0
  }

  lemma ModStep(x: int, n: nat)
    requires n > 0
    ensures (x % n + 1) % n == (x + 1) % n && (x % n - 1) % n == (x - 1) % n
    ensures (x % n + 1) % n == if x % n + 1 == n then 0 else x % n + 1
    ensures (x % n - 1) % n == if x % n == 0 then n - 1 else x % n - 1
  {
    DivMod(x, n);
    var q, r := x / n, x % n;
    Distribute(q, 1, n);
    Distribute(q, -1, n);
    if r + 1 == n {
      DivUnique(x + 1, n, q + 1, 0);
      DivUnique(r + 1, n, 1, 0);
    } else {
      DivUnique(x + 1, n, q, r + 1);
      DivUnique(r + 1, n, 0, r + 1);
    }
    if r == 0 {
      DivUnique(x - 1, n, q - 1, n - 1);
      DivUnique(r - 1, n, -1, n - 1);
    } else {
      DivUnique(x - 1, n, q, r - 1);
      DivUnique(r - 1, n, 0, r - 1);
    }
  }

  /** One move further. */
  lemma SeatNext(d: nat, t: nat, direction: int, n: nat)
    requires n > 0 && (direction == 1 || direction == -1)
    ensures Seat(d, t + 1, direction, n) == (Seat(d, t, direction, n) + direction) % n
  {
    ModStep(d + t, n);
    ModStep(d - t, n);
  }

  lemma SeatStart(d: nat, direction: int, n: nat)
    requires d < n
    ensures Seat(d, 0, direction, n) == d
  {
    DivUnique(d, n, 0, d);
  }

  /** Whole rounds lead back to the start. */
  lemma SeatRounds(d: nat, k: nat, direction: int, n: nat)
    requires d < n
    ensures Seat(d, k * n, direction, n) == d
  {
    DivUnique(d + k * n, n, k, d);
    MulNegate(k, n);
    DivUnique(d - k * n, n, -(k as int), d);
  }

  lemma MulNegate(k: int, n: int)
    ensures (-k) * n == -(k * n)
  {
  }

  /** The one who gets card number t is t mod n places after the first. */
  lemma OffsetOfSeat(d: nat, t: nat, direction: int, n: nat)
    requires d < n && (direction == 1 || direction == -1)
    ensures Offset(Seat(d, t, direction, n), d, direction, n) == t % n
  {
    if direction == 1 {
      var x: int := d + t;
      ModDifference(x, d, t, n);
      assert Seat(d, t, direction, n) == x % n;
    } else {
      var x: int := d - t;
      ModDifference2(x, d, t, n);
      assert Seat(d, t, direction, n) == x % n;
    }
  }

  lemma ModDifference(x: int, d: int, t: int, n: nat)
    requires n > 0 && x == d + t
    ensures (x % n - d) % n == t % n
  {
    DivMod(x, n);
    DivMod(t, n);
    Distribute(t / n, -(x / n), n);
    DivUnique(x % n - d, n, t / n - x / n, t % n);
  }

  lemma ModDifference2(x: int, d: int, t: int, n: nat)
    requires n > 0 && x == d - t
    ensures (d - x % n) % n == t % n
  {
    DivMod(x, n);
    DivMod(t, n);
    Distribute(t / n, x / n, n);
    DivUnique(d - x % n, n, t / n + x / n, t % n);
  }

  /** Different seats have different offsets. */
  lemma OffsetUnique(i: nat, j: nat, d: nat, direction: int, n: nat)
    requires i < n && j < n && d < n && Offset(i, d, direction, n) == Offset(j, d, direction, n)
    ensures i == j
  {
    if direction == 1 {
      SmallMod(i - d, n);
      SmallMod(j - d, n);
    } else {
      SmallMod(d - i, n);
      SmallMod(d - j, n);
    }
  }

  lemma SmallMod(x: int, n: nat)
    requires -(n as int) < x < n
    ensures x % n == if x >= 0 then x else x + n
  {
    if x >= 0 {
      DivUnique(x, n, 0, x);
    } else {
      DivUnique(x, n, -1, x + n);
    }
  }

  /** One more card goes to the one whose turn it is. */
  lemma DealtNext(t: nat, k: nat, n: nat)
    requires k < n
    ensures Dealt(t + 1, k, n) == Dealt(t, k, n) + if k == t % n then 1 else 0
  {
    DivMod(t, n);
    var q, r := t / n, t % n;
    Distribute(q, 1, n);
    if r + 1 == n {
      DivUnique(t + 1, n, q + 1, 0);
    } else {
      DivUnique(t + 1, n, q, r + 1);
    }
  }

  lemma DealtRounds(m: nat, k: nat, n: nat)
    requires k < n
    ensures Dealt(m * n, k, n) == m
  {
    DivUnique(m * n, n, m, 0);
  }

  // Cards in hands.

  function HandsOf(seats: seq<nat>, hands: map<nat, seq<int>>): multiset<int> {
    if seats == [] then multiset{}
    else (if seats[0] in hands then multiset(hands[seats[0]]) else multiset{}) + HandsOf(seats[1..], hands)
  }

  /** Another hand for one player who sits at the table once. */
  lemma {:induction false} HandsUpdate(seats: seq<nat>, hands: map<nat, seq<int>>, u: nat, hand: seq<int>)
    requires Distinct(seats) && u in seats && forall v :: v in seats ==> v in hands
    ensures HandsOf(seats, hands[u := hand]) + multiset(hands[u]) == HandsOf(seats, hands) + multiset(hand)
  {
    assert seats == [seats[0]] + seats[1..];
    if seats[0] == u {
      assert u !in seats[1..];
      HandsSame(seats[1..], hands, hands[u := hand]);
    } else {
      HandsUpdate(seats[1..], hands, u, hand);
      Regroup(if seats[0] in hands then multiset(hands[seats[0]]) else multiset{},
              HandsOf(seats[1..], hands[u := hand]), multiset(hands[u]), HandsOf(seats[1..], hands), multiset(hand));
    }
  }

  lemma Regroup(x: multiset<int>, a: multiset<int>, b: multiset<int>, c: multiset<int>, d: multiset<int>)
    requires a + b == c + d
    ensures (x + a) + b == (x + c) + d
  {
    assert (x + a) + b == x + (a + b);
    assert (x + c) + d == x + (c + d);
  }

  lemma {:induction false} HandsSame(seats: seq<nat>, hands: map<nat, seq<int>>, others: map<nat, seq<int>>)
    requires forall u :: u in seats ==> u in hands && u in others && hands[u] == others[u]
    ensures HandsOf(seats, hands) == HandsOf(seats, others)
  {
    if seats != [] {
      HandsSame(seats[1..], hands, others);
    }
  }

  /** One player leaves the table with the hand. */
  lemma {:induction false} HandsRemove(seats: seq<nat>, hands: map<nat, seq<int>>, i: nat)
    requires Distinct(seats) && i < |seats| && forall u :: u in seats ==> u in hands
    ensures HandsOf(seats[..i] + seats[i + 1..], hands - {seats[i]}) + multiset(hands[seats[i]])
            == HandsOf(seats, hands)
  {
    if i == 0 {
      assert seats[..0] + seats[1..] == seats[1..];
      HandsSame(seats[1..], hands, hands - {seats[0]});
    } else {
      HandsRemove(seats[1..], hands, i - 1);
      HandsRemoveStep(seats, hands, i);
    }
  }

  /** The leave of a player of the rest of the table, with the first player in front. */
  lemma HandsRemoveStep(seats: seq<nat>, hands: map<nat, seq<int>>, i: nat)
    requires Distinct(seats) && 0 < i < |seats| && forall u :: u in seats ==> u in hands
    requires HandsOf(seats[1..][..i - 1] + seats[1..][i..], hands - {seats[i]}) + multiset(hands[seats[i]])
             == HandsOf(seats[1..], hands)
    ensures HandsOf(seats[..i] + seats[i + 1..], hands - {seats[i]}) + multiset(hands[seats[i]])
            == HandsOf(seats, hands)
  {
    var rest := seats[..i] + seats[i + 1..];
    assert rest[1..] == seats[1..][..i - 1] + seats[1..][i..];
    var others := hands - {seats[i]};
    assert seats[0] in others && others[seats[0]] == hands[seats[0]];
    var first, gone := multiset(hands[seats[0]]), multiset(hands[seats[i]]);
    assert HandsOf(rest, others) == first + HandsOf(rest[1..], others);
    assert HandsOf(seats, hands) == first + HandsOf(seats[1..], hands);
    Regroup(first, HandsOf(rest[1..], others), gone, HandsOf(seats[1..], hands), multiset{});
  }

  lemma {:induction false} HandInHands(seats: seq<nat>, hands: map<nat, seq<int>>, u: nat)
    requires u in seats && u in hands
    ensures multiset(hands[u]) <= HandsOf(seats, hands)
  {
    if seats[0] != u {
      HandInHands(seats[1..], hands, u);
    }
  }

  lemma {:induction false} EmptyHands(seats: seq<nat>, hands: map<nat, seq<int>>)
    requires forall u :: u in hands ==> hands[u] == []
    ensures HandsOf(seats, hands) == multiset{}
  {
    if seats != [] {
      EmptyHands(seats[1..], hands);
    }
  }

  function Deck(): multiset<int> {
    multiset(CardSet() + CardSet() + CardSet())
  }

  lemma DeckCards()
    ensures forall c :: c in Deck() ==> IsCard(c)
    ensures |CardSet() + CardSet() + CardSet()| == DECK_SIZE && |Deck()| == DECK_SIZE
  {
    hide CardSet, IsCard;
    CardSetCards();
    var all := CardSet() + CardSet() + CardSet();
    forall c | c in Deck()
      ensures IsCard(c)
    {
      assert c in all;
    }
  }

  /** The pile of a game holds every card of the set three times. */
  lemma DeckCopies(color: nat, func: nat)
    requires IsColor(color) && IsFunc(func)
    ensures Deck()[Compose(color, func)]
            == (if color == 0 then (if func == 14 || func == 15 then 12 else 0)
                else if func == 1 then 3 else if 2 <= func <= 14 then 6 else 0)
  {
    hide CardSet, Compose;
    CardSetCopies(color, func);
  }

  // What may be played.

  /** Whether card c may be played when the last card, the colour chosen for it and the
      open penalty are as given; out of turn only the very same card may, if at all. */
  function CanPlay(last: nat, chosen: int, draw: nat, canPlayAhead: bool, c: nat, ahead: bool): bool
    requires draw > 0 ==> IsPenalty(last)
  {
    if ahead then canPlayAhead && c == last
    else if last == c then true
    else if draw > 0 then
      if ColorOf(last) == COLOR_ALL then
        ColorOf(c) == COLOR_ALL && FuncOf(last) == FUNC_CHGCOLOR && FuncOf(c) == FUNC_DRAW4
      else if FuncOf(last) == FUNC_DRAW2 then
        FuncOf(c) == FUNC_DRAW2 || (FuncOf(c) == FUNC_DRAW4 && (ColorOf(c) == ColorOf(last) || ColorOf(c) == COLOR_ALL))
      else if FuncOf(last) == FUNC_DRAW4 then FuncOf(c) == FUNC_DRAW4
      else
        assert false;   // the source asserts here too
        false
    else
      || (ColorOf(last) == COLOR_ALL && chosen == ColorOf(c))
      || ColorOf(c) == ColorOf(last) || ColorOf(c) == COLOR_ALL || FuncOf(c) == FuncOf(last)
  }

  /** What the player in turn may put on a card of colour lc and function lf, in terms of
      colour and function only: chosen is the colour that was asked for, and a penalty is
      open or not. */
  predicate MayFollow(lc: nat, lf: nat, chosen: int, open: bool, color: nat, func: nat) {
    if !open then
      color == lc || func == lf || color == COLOR_ALL || (lc == COLOR_ALL && color == chosen)
    else if lc == COLOR_ALL then color == lc && func == lf
    else if lf == FUNC_DRAW2 then func == FUNC_DRAW2 || (func == FUNC_DRAW4 && (color == lc || color == COLOR_ALL))
    else func == FUNC_DRAW4
  }

  /** Two cards are the same when colour and function are. */
  lemma SameCard(c: nat, d: nat)
    requires c < 128 && d < 128
    ensures c == d <==> ColorOf(c) == ColorOf(d) && FuncOf(c) == FuncOf(d)
  {
    Halves(c);
    Halves(d);
  }

  lemma Halves(c: nat)
    requires c < 128
    ensures c == ColorOf(c) + 8 * FuncOf(c)
  {
    DivMod(c, 8);
    Small(c / 8);
  }

  /** The source's cascade of tests is that rule. */
  lemma CanPlayIsRule(last: nat, chosen: int, draw: nat, canPlayAhead: bool, c: nat, ahead: bool)
    requires (draw > 0 ==> IsPenalty(last)) && c < 128
    ensures CanPlay(last, chosen, draw, canPlayAhead, c, ahead)
            <==> if ahead then canPlayAhead && c == last
                 else MayFollow(ColorOf(last), FuncOf(last), chosen, draw > 0, ColorOf(c), FuncOf(c))
  {
    hide ColorOf, FuncOf;
    if draw > 0 {
      SameCard(c, last);
    }
  }

  /** The rules as a table, colours and functions written out: 0 is no colour, 13 and 14
      are the functions +2 and +4. */
  lemma AcceptanceTable(lc: nat, lf: nat, chosen: int, draw: nat, allowed: bool, color: nat, func: nat)
    requires IsColor(lc) && IsFunc(lf) && IsColor(color) && IsFunc(func) && (draw > 0 ==> lf == 13 || lf == 14)
    ensures var last, c := Compose(lc, lf), Compose(color, func);
            && (draw > 0 ==> IsPenalty(last))
            && (CanPlay(last, chosen, draw, allowed, c, true) <==> allowed && color == lc && func == lf)
            && (draw == 0 ==>
                  (CanPlay(last, chosen, draw, allowed, c, false)
                   <==> color == lc || func == lf || color == 0 || (lc == 0 && color == chosen)))
            && (draw > 0 && lc != 0 && lf == 13 ==>
                  (CanPlay(last, chosen, draw, allowed, c, false)
                   <==> func == 13 || (func == 14 && (color == lc || color == 0))))
            && (draw > 0 && lc != 0 && lf == 14 ==> (CanPlay(last, chosen, draw, allowed, c, false) <==> func == 14))
            && (draw > 0 && lc == 0 ==>
                  (CanPlay(last, chosen, draw, allowed, c, false) <==> color == 0 && func == lf))
  {
    hide ColorOf, FuncOf, CanPlay;
    ComposeInverse(lc, lf, 0);
    ComposeInverse(color, func, 0);
    SameCard(Compose(lc, lf), Compose(color, func));
    CanPlayIsRule(Compose(lc, lf), chosen, draw, allowed, Compose(color, func), true);
    CanPlayIsRule(Compose(lc, lf), chosen, draw, allowed, Compose(color, func), false);
  }

  /** Between two coloured cards with no penalty open the rule is symmetric, whatever
      colour was asked for. */
  lemma RuleSymmetric(a: nat, b: nat, chosen: int, other: int, allowed: bool)
    requires a < 128 && b < 128 && ColorOf(a) != COLOR_ALL && ColorOf(b) != COLOR_ALL
    ensures CanPlay(a, chosen, 0, allowed, b, false) <==> CanPlay(b, other, 0, allowed, a, false)
  {
  }

  /** A penalty is only answered by one that is at least as large. */
  lemma PenaltyNotLess(last: nat, chosen: int, draw: nat, allowed: bool, c: nat, ahead: bool)
    requires draw > 0 && IsPenalty(last) && c < 128 && CanPlay(last, chosen, draw, allowed, c, ahead)
    ensures Penalty(last) <= Penalty(c) && 2 <= Penalty(c) <= 4
  {
  }

  /** While a penalty is open only penalty cards can be played. */
  lemma OnlyPenalties(last: nat, chosen: int, draw: nat, canPlayAhead: bool, c: nat, ahead: bool)
    requires draw > 0 && IsPenalty(last) && IsCard(c)
    requires CanPlay(last, chosen, draw, canPlayAhead, c, ahead)
    ensures IsPenalty(c)
  {
  }

  /** What a penalty card adds. */
  function Penalties(played: seq<int>): nat {
    if played == [] then 0 else Penalties(played[..|played| - 1]) + Penalty(played[|played| - 1])
  }

  function CountFunc(played: seq<int>, func: int): nat {
    if played == [] then 0
    else
      var n := |played| - 1;
      CountFunc(played[..n], func) + (if played[n] >= 0 && FuncOf(played[n]) == func then 1 else 0)
  }

  /** That is two for every +2 and four for every +4. */
  lemma {:induction false} PenaltiesCount(played: seq<int>)
    ensures Penalties(played) == 2 * CountFunc(played, 13) + 4 * CountFunc(played, 14)
  {
    if played != [] {
      PenaltiesCount(played[..|played| - 1]);
    }
  }

  lemma PenaltiesPush(played: seq<int>, c: int)
    ensures Penalties(played + [c]) == Penalties(played) + Penalty(c)
  {
    assert (played + [c])[..|played|] == played;
  }
}
