// The cards of the game: how colour and function are packed into a number, and the deck.

module Cards {
  import opened Arith

  const COLOR_ALL := 0
  const COLOR_RED := 1
  const COLOR_YELLOW := 2
  const COLOR_BLUE := 3
  const COLOR_GREEN := 4

  const FUNC_NONE := 0
  const FUNC_0 := 1
  const FUNC_9 := 10
  const FUNC_SKIP := 11
  const FUNC_REVERSE := 12
  const FUNC_DRAW2 := 13
  const FUNC_DRAW4 := 14
  const FUNC_CHGCOLOR := 15

  predicate IsColor(c: int) {
    COLOR_ALL <= c <= COLOR_GREEN
  }

  predicate IsFunc(f: int) {
    FUNC_NONE <= f <= FUNC_CHGCOLOR
  }

  /** The three lowest bits. */
  function ColorOf(c: nat): nat {
    c % 8
  }

  /** The next four bits. */
  function FuncOf(c: nat): nat {
    (c / 8) % 16
  }

  function Compose(color: nat, func: nat): nat
    requires IsColor(color) && IsFunc(func)
  {
    color + 8 * func
  }

  predicate IsFuncCard(c: nat) {
    FUNC_SKIP <= FuncOf(c) <= FUNC_CHGCOLOR
  }

  /** What the pile may hold. */
  predicate IsCard(c: int) {
    && c > 0 && IsColor(ColorOf(c)) && FUNC_0 <= FuncOf(c) && c < 128
  }

  /** The penalty cards. */
  predicate IsPenalty(c: int) {
    IsCard(c) && (FuncOf(c) == FUNC_DRAW2 || FuncOf(c) == FUNC_DRAW4)
  }

  function Penalty(c: int): nat {
    if c < 0 then 0
    else if FuncOf(c) == FUNC_DRAW2 then 2
    else if FuncOf(c) == FUNC_DRAW4 then 4
    else 0
  }

  /** A composed card gives its colour and function back, and there is only one such card. */
  lemma ComposeInverse(color: nat, func: nat, c: nat)
    requires IsColor(color) && IsFunc(func) && c < 128
    ensures ColorOf(Compose(color, func)) == color && FuncOf(Compose(color, func)) == func
    ensures ColorOf(c) == color && FuncOf(c) == func <==> c == Compose(color, func)
  {
    Unpack(Compose(color, func), color, func);
    DivMod(c, 8);
    Small(c / 8);
  }

  lemma Small(f: nat)
    ensures f < 16 ==> f % 16 == f
  {
  }

  lemma Unpack(c: nat, color: nat, func: nat)
    requires c == color + 8 * func && color < 8 && func < 16
    ensures ColorOf(c) == color && FuncOf(c) == func
  {
    DivUnique(c, 8, func, color);
    Small(func);
  }

  /** What the source's function of that name returns: the colour twice. */
  function DecomposeCard(c: nat): (nat, nat) {
    (ColorOf(c), ColorOf(c))
  }

  /** So it inverts the composition only when the function happens to equal the colour. */
  lemma DecomposeFails(color: nat, func: nat)
    requires IsColor(color) && IsFunc(func)
    ensures DecomposeCard(Compose(color, func)) == (color, func) <==> func == color
  {
    ComposeInverse(color, func, 0);
  }

  // The deck: one 0 and two of each other number and of each function card per colour,
  // and eight cards without a colour.

  /** The cards of a colour with functions from f up to limit, each twice. */
  function Pairs(color: nat, f: nat, limit: nat): (s: seq<int>)
    requires IsColor(color) && f <= limit <= 16
    decreases limit - f
  {
    if f == limit then [] else [Compose(color, f), Compose(color, f)] + Pairs(color, f + 1, limit)
  }

  function Numbers(color: nat): seq<int>
    requires IsColor(color)
  {
    [Compose(color, FUNC_0)] + Pairs(color, FUNC_0 + 1, FUNC_9 + 1)
  }

  function Functions(color: nat): seq<int>
    requires IsColor(color)
  {
    Pairs(color, FUNC_SKIP, FUNC_DRAW4 + 1)
  }

  function Wild(): seq<int> {
    seq(4, _ => Compose(COLOR_ALL, FUNC_DRAW4)) + seq(4, _ => Compose(COLOR_ALL, FUNC_CHGCOLOR))
  }

  function CardSet(): seq<int> {
    Numbers(COLOR_RED) + Numbers(COLOR_YELLOW) + Numbers(COLOR_BLUE) + Numbers(COLOR_GREEN)
    + Functions(COLOR_RED) + Functions(COLOR_YELLOW) + Functions(COLOR_BLUE) + Functions(COLOR_GREEN)
    + Wild()
  }

  ghost predicate AllCards(s: seq<int>) {
    forall i :: 0 <= i < |s| ==> IsCard(s[i])
  }

  lemma {:induction false} PairsCards(color: nat, f: nat, limit: nat)
    requires IsColor(color) && 0 < f <= limit <= 16
    ensures AllCards(Pairs(color, f, limit)) && |Pairs(color, f, limit)| == 2 * (limit - f)
    decreases limit - f
  {
    hide ColorOf, FuncOf;
    if f < limit {
      Composed(color, f);
      PairsCards(color, f + 1, limit);
    }
  }

  lemma Composed(color: nat, func: nat)
    requires IsColor(color) && IsFunc(func) && func > 0
    ensures IsCard(Compose(color, func))
  {
    Unpack(Compose(color, func), color, func);
  }

  lemma ColorCards(color: nat)
    requires IsColor(color)
    ensures AllCards(Numbers(color)) && |Numbers(color)| == 19
    ensures AllCards(Functions(color)) && |Functions(color)| == 8
  {
    hide ColorOf, FuncOf, IsCard;
    Composed(color, FUNC_0);
    PairsCards(color, FUNC_0 + 1, FUNC_9 + 1);
    PairsCards(color, FUNC_SKIP, FUNC_DRAW4 + 1);
  }

  /** 116 cards, none of them 0. */
  lemma CardSetCards()
    ensures AllCards(CardSet()) && |CardSet()| == 116
  {
    hide Numbers, Functions, IsCard, Wild;
    ColorCards(COLOR_RED);
    ColorCards(COLOR_YELLOW);
    ColorCards(COLOR_BLUE);
    ColorCards(COLOR_GREEN);
    WildCards();
  }

  lemma WildCards()
    ensures AllCards(Wild()) && |Wild()| == 8
  {
    hide IsCard;
    Composed(COLOR_ALL, FUNC_DRAW4);
    Composed(COLOR_ALL, FUNC_CHGCOLOR);
  }

  // Which cards there are.

  lemma OtherCard(color: nat, func: nat, c: nat, f: nat)
    requires IsColor(color) && IsFunc(func) && IsColor(c) && IsFunc(f)
    ensures Compose(color, func) == Compose(c, f) <==> color == c && func == f
  {
  }

  lemma PairsNext(color: nat, f: nat, limit: nat)
    requires IsColor(color) && f <= limit <= 16
    ensures Pairs(color, f, limit)
            == if f == limit then [] else [Compose(color, f), Compose(color, f)] + Pairs(color, f + 1, limit)
  {
  }

  lemma TwoMore(x: int, s: seq<int>, y: int)
    ensures multiset([x, x] + s)[y] == multiset(s)[y] + if x == y then 2 else 0
  {
  }

  lemma {:induction false} PairsCopies(color: nat, f: nat, limit: nat, c: nat, func: nat)
    requires IsColor(color) && f <= limit <= 16 && IsColor(c) && IsFunc(func)
    ensures multiset(Pairs(color, f, limit))[Compose(c, func)] == if c == color && f <= func < limit then 2 else 0
    decreases limit - f
  {
    hide Compose, Pairs;
    PairsNext(color, f, limit);
    if f < limit {
      PairsCopies(color, f + 1, limit, c, func);
      OtherCard(color, f, c, func);
      TwoMore(Compose(color, f), Pairs(color, f + 1, limit), Compose(c, func));
    }
  }

  lemma ColorCopies(color: nat, c: nat, func: nat)
    requires IsColor(color) && IsColor(c) && IsFunc(func)
    ensures multiset(Numbers(color))[Compose(c, func)]
            == if c != color then 0 else if func == 1 then 1 else if 2 <= func <= 10 then 2 else 0
    ensures multiset(Functions(color))[Compose(c, func)] == if c == color && 11 <= func <= 14 then 2 else 0
  {
    hide Compose, Pairs;
    PairsCopies(color, FUNC_0 + 1, FUNC_9 + 1, c, func);
    PairsCopies(color, FUNC_SKIP, FUNC_DRAW4 + 1, c, func);
    OtherCard(color, FUNC_0, c, func);
  }

  lemma WildCopies(c: nat, func: nat)
    requires IsColor(c) && IsFunc(func)
    ensures multiset(Wild())[Compose(c, func)] == if c == 0 && (func == 14 || func == 15) then 4 else 0
  {
    hide Compose;
    OtherCard(COLOR_ALL, FUNC_DRAW4, c, func);
    OtherCard(COLOR_ALL, FUNC_CHGCOLOR, c, func);
    FourTimes(Compose(COLOR_ALL, FUNC_DRAW4));
    FourTimes(Compose(COLOR_ALL, FUNC_CHGCOLOR));
  }

  lemma FourTimes(x: int)
    ensures seq(4, _ => x) == [x, x, x, x]
  {
  }

  /** How often a card is in the set, by colour and function: one 0 of each colour, two of
      each other number and of each function up to +4; four +4 and four colour changes
      without a colour. */
  lemma CardSetCopies(color: nat, func: nat)
    requires IsColor(color) && IsFunc(func)
    ensures multiset(CardSet())[Compose(color, func)]
            == (if color == 0 then (if func == 14 || func == 15 then 4 else 0)
                else if func == 1 then 1 else if 2 <= func <= 14 then 2 else 0)
  {
    hide Compose, Numbers, Functions, Wild;
    ColorCopies(COLOR_RED, color, func);
    ColorCopies(COLOR_YELLOW, color, func);
    ColorCopies(COLOR_BLUE, color, func);
    ColorCopies(COLOR_GREEN, color, func);
    WildCopies(color, func);
  }

  // What the cards do, colours and functions written out.

  lemma CardEffects(color: nat, func: nat)
    requires IsColor(color) && IsFunc(func)
    ensures var c := Compose(color, func);
            && Penalty(c) == (if func == 13 then 2 else if func == 14 then 4 else 0)
            && (IsFuncCard(c) <==> 11 <= func <= 15)
            && (IsPenalty(c) <==> func == 13 || func == 14)
            && (IsCard(c) <==> func >= 1)
  {
    hide ColorOf, FuncOf;
    ComposeInverse(color, func, 0);
  }
}
