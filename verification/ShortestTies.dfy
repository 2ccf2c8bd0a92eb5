// Two shortest decimals at the same distance from the number: the header promises the upper
// one, the code takes the one with the even last digit.

module ShortestTies {
  import opened Arith
  import Decimal
  import opened Rounding
  import opened Shortest

  /** The number is half way between w * 10^k and the next decimal of that place. */
  ghost predicate HalfWay(w: int, k: int, f: nat, e: int) {
    (2 * w + 1) * Lower(e, k) == 2 * (f * Upper(e, k))
  }

  ghost predicate NoneCoarser(k: int, f: nat, e: int, closer: bool) {
    forall y: int, j: int :: ReadsBack(y, j, f, e, closer) ==> j <= k
  }

  /** At the coarsest place with a decimal that reads back, the number is half way between
      two of them, and the lower one is even. */
  ghost predicate EvenBelow(f: nat, e: int, closer: bool) {
    exists w: int, k: int ::
      && ReadsBack(w, k, f, e, closer) && ReadsBack(w + 1, k, f, e, closer) && NoneCoarser(k, f, e, closer)
      && HalfWay(w, k, f, e) && w % 2 == 0
  }

  /** What the header promises: no decimal above that reads back is as close. */
  ghost predicate TiesUp(s: seq<char>, point: int, f: nat, e: int, closer: bool) {
    var x, last := Decimal.DecimalValue(s), point - |s|;
    forall y: int :: ReadsBack(y, last, f, e, closer) && y > x ==> Error(x, last, f, e) < Error(y, last, f, e)
  }

  lemma NextBetween(x: int, y: int, l: nat)
    requires x < y && l > 0
    ensures x * l < (x + 1) * l <= y * l && (x + 1) * l == x * l + l
    ensures y > x + 1 ==> (x + 1) * l < y * l
  {
    MulMono(x + 1, y, l);
    if y > x + 1 {
      MulStrict(x + 1, y, l);
    }
  }

  /** What is between two decimals that read back does so too, and is closer than one of
      them. */
  lemma Middle(x: int, y: int, k: int, f: nat, e: int, closer: bool)
    requires x + 1 < y && ReadsBack(x, k, f, e, closer) && ReadsBack(y, k, f, e, closer)
    ensures ReadsBack(x + 1, k, f, e, closer)
    ensures Error(x + 1, k, f, e) < Error(x, k, f, e) || Error(x + 1, k, f, e) < Error(y, k, f, e)
  {
    hide Upper, Lower;
    NextBetween(x, y, Lower(e, k));
  }

  /** Of two decimals as close as any, one is right above the other. */
  lemma TieNext(x: int, y: int, k: int, f: nat, e: int, closer: bool)
    requires x < y && ReadsBack(x, k, f, e, closer) && ReadsBack(y, k, f, e, closer)
    requires forall z: int :: ReadsBack(z, k, f, e, closer) ==> Error(x, k, f, e) <= Error(z, k, f, e)
    requires Error(x, k, f, e) == Error(y, k, f, e)
    ensures y == x + 1 && HalfWay(x, k, f, e)
  {
    hide Upper, Lower, ReadsBack;
    var l := Lower(e, k);
    NextBetween(x, y, l);
    if y > x + 1 {
      Middle(x, y, k, f, e, closer);
    }
    assert (2 * x + 1) * l == x * l + (x + 1) * l;
  }

  /** Half way between two decimals nothing else is as close. */
  lemma HalfWayNearest(x: int, w: int, k: int, f: nat, e: int)
    requires HalfWay(w, k, f, e) && Error(x, k, f, e) <= Error(w, k, f, e)
    ensures (x == w || x == w + 1) && Error(w, k, f, e) == Error(w + 1, k, f, e)
  {
    hide Upper, Lower;
    var l := Lower(e, k);
    assert (2 * w + 1) * l == 2 * (w * l) + l && (w + 1) * l == w * l + l;
    if x < w {
      NextBetween(x, w, l);
    } else if x > w + 1 {
      NextBetween(w + 1, x, l);
    }
  }

  /** The printed decimal keeps to the header's rule for exactly those numbers that are not
      half way above an even shortest decimal. */
  lemma TieRule(s: seq<char>, point: int, f: nat, e: int, closer: bool)
    requires ShortestDecimal(s, point, f, e, closer)
    ensures TiesUp(s, point, f, e, closer) <==> !EvenBelow(f, e, closer)
  {
    hide Upper, Lower, ReadsBack, Error, HalfWay;
    var x, last := Decimal.DecimalValue(s), point - |s|;
    if !TiesUp(s, point, f, e, closer) {
      var y: int :| ReadsBack(y, last, f, e, closer) && y > x && Error(x, last, f, e) >= Error(y, last, f, e);
      TieNext(x, y, last, f, e, closer);
    }
    if EvenBelow(f, e, closer) {
      var w: int, k: int :|
        && ReadsBack(w, k, f, e, closer) && ReadsBack(w + 1, k, f, e, closer) && NoneCoarser(k, f, e, closer)
        && HalfWay(w, k, f, e) && w % 2 == 0;
      assert k == last;
      HalfWayNearest(x, w, k, f, e);
    }
  }

  /** 2^50 + 1/4 is one of them: 1125899906842624.2 is printed, not 1125899906842624.3. */
  lemma QuarterTie(s: seq<char>, point: int)
    requires ShortestDecimal(s, point, 0x10_0000_0000_0001, -2, false)
    ensures Decimal.DecimalValue(s) == 11258999068426242 && point - |s| == -1
    ensures !TiesUp(s, point, 0x10_0000_0000_0001, -2, false)
  {
    var w, f := 11258999068426242, 0x10_0000_0000_0001;
    QuarterPlaces();
    assert ReadsBack(w, -1, f, -2, false) && ReadsBack(w + 1, -1, f, -2, false);
    QuarterPlace(f);
    assert HalfWay(w, -1, f, -2);
    HalfWayNearest(Decimal.DecimalValue(s), w, -1, f, -2);
  }

  lemma QuarterPlaces()
    ensures Upper(-2, -1) == 10 && Lower(-2, -1) == 4
  {
    assert Pow(2, 2) == 2 * Pow(2, 1) && Pow(2, 1) == 2 * Pow(2, 0) && Pow(10, 1) == 10 * Pow(10, 0);
  }

  /** An odd number of quarters is no integer, nor is one as close to it as reading back
      asks. */
  lemma QuarterPlace(f: nat)
    requires f % 2 == 1
    ensures NoneCoarser(-1, f, -2, false)
  {
    forall y: int, j: int | j > -1
      ensures !ReadsBack(y, j, f, -2, false)
    {
      assert Pow(2, 2) == 2 * Pow(2, 1) && Pow(2, 1) == 2 * Pow(2, 0);
      MulAssoc(y, 4, Pow(10, j));
      var z := y * Pow(10, j);
      assert y * Lower(-2, j) == 4 * z;
    }
  }
}
