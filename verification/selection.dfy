/** The weighted choice of `spinWheel` (script.js:147-169): filter the
    in-stock prizes, total their weights, scale a uniform draw by the total,
    subtract weights in order until the remainder is no longer positive, and
    map the winner back to a catalog position by label.

    The draw `Math.random()` is a parameter: an exact fraction num/den in
    [0, 1). Its scaled value `u * total` is compared only with integer
    running sums, so the walk runs on the scaled draw rounded up; DrawTest
    shows that every `random <= 0` test then takes the same branch. */
module Selection {
  import opened Wrappers
  import opened Prizes

  datatype Fraction = Fraction(num: nat, den: nat)

  /** A value of `Math.random()`: a fraction in [0, 1). */
  type Draw = f: Fraction | f.num < f.den witness Fraction(0, 1)

  /** `Math.random() * totalWeight` rounded up to an integer. */
  function DrawCeil(u: Draw, t: nat): (d: nat)
    ensures d <= t
  {
    var x := u.num * t;
    CeilDivBounds(x, u.den);
    DrawBelowTotal(u, t);
    CeilBelow(u.den, t, x, CeilDiv(x, u.den));
    CeilDiv(x, u.den)
  }

  /** Division rounding up, by repeated subtraction. */
  function CeilDiv(x: nat, den: nat): nat
    requires den > 0
    decreases x
  {
    if x <= den then (if x == 0 then 0 else 1)
    else 1 + CeilDiv(x - den, den)
  }

  /** CeilDiv(x, den) is the least q with x <= den * q. */
  lemma {:induction false} CeilDivBounds(x: nat, den: nat)
    requires den > 0
    ensures x <= den * CeilDiv(x, den)
    ensures CeilDiv(x, den) == 0 || den * (CeilDiv(x, den) - 1) < x
    decreases x
  {
    if x > den {
      CeilDivBounds(x - den, den);
      ScaleSucc(den, CeilDiv(x - den, den));
    }
  }

  /** DrawCeil is the ceiling of `u * t`: the least integer not below it. */
  lemma DrawCeilBounds(u: Draw, t: nat)
    ensures u.num * t <= u.den * DrawCeil(u, t)
    ensures DrawCeil(u, t) == 0 || u.den * (DrawCeil(u, t) - 1) < u.num * t
  {
    CeilDivBounds(u.num * t, u.den);
  }

  lemma CeilBelow(den: nat, t: nat, x: nat, d: nat)
    requires den > 0 && x <= den * t
    requires d == 0 || den * (d - 1) < x
    ensures d <= t
  {
    if d > t {
      ScaleMonotone(den, t, d - 1);
    }
  }

  lemma ScaleSucc(d: nat, a: nat)
    ensures d * (a + 1) == d * a + d
  {
  }

  lemma ScaleMonotone(d: nat, a: nat, b: nat)
    requires a <= b
    ensures d * a <= d * b
  {
  }

  /** A scaled draw never exceeds the total it scales. */
  lemma DrawBelowTotal(u: Draw, t: nat)
    ensures u.num * t <= u.den * t
  {
  }

  /** The source's loop compares the real draw `u * t` with integer running
      sums `p`; the rounded-up draw answers every such comparison the same. */
  lemma DrawTest(u: Draw, t: nat, p: nat)
    ensures u.num * t <= u.den * p <==> DrawCeil(u, t) <= p
  {
    var d := DrawCeil(u, t);
    DrawCeilBounds(u, t);
    if d <= p {
      ScaleMonotone(u.den, d, p);
    } else {
      ScaleMonotone(u.den, p, d - 1);
    }
  }

  /** The loop of script.js:161-167 from position `i` on, with `random` the
      remainder of the draw. Some(k) is the first position at which the
      remainder drops to zero or below; None means the loop ran to the end
      without a `break`. */
  function Walk(avail: seq<Prize>, i: nat, random: int): (r: Option<nat>)
    requires i <= |avail|
    ensures r.Some? ==> i <= r.value < |avail|
    decreases |avail| - i
  {
    if i == |avail| then None
    else
      var rest := random - avail[i].weight;
      if rest <= 0 then Some(i)
      else Walk(avail, i + 1, rest)
  }

  /** Measured from the start of the loop, the draw at position `i` is
      `random + RunningWeight(avail, i)`: the walk stops at the first
      position whose running sum reaches it, and runs off the end only when
      no running sum does. */
  lemma {:induction false} WalkSpec(avail: seq<Prize>, i: nat, random: int)
    requires i <= |avail|
    ensures Walk(avail, i, random).Some? ==>
      random + RunningWeight(avail, i) <= RunningWeight(avail, Walk(avail, i, random).value + 1)
    ensures Walk(avail, i, random).Some? ==> forall j :: i < j <= Walk(avail, i, random).value ==>
      RunningWeight(avail, j) < random + RunningWeight(avail, i)
    ensures Walk(avail, i, random).None? ==> forall j :: i < j <= |avail| ==>
      RunningWeight(avail, j) < random + RunningWeight(avail, i)
    decreases |avail| - i
  {
    if i < |avail| {
      RunningWeightStep(avail, i);
      var rest := random - avail[i].weight;
      if rest > 0 {
        WalkSpec(avail, i + 1, rest);
      }
    }
  }

  /** Position of the winner among the available prizes for the rounded draw
      `d`. `selectedPrize` starts as `availablePrizes[0]` and keeps that value
      if the loop never breaks. */
  function Winner(avail: seq<Prize>, d: nat): (k: nat)
    requires |avail| > 0
    ensures k < |avail|
  {
    match Walk(avail, 0, d)
    case Some(k) => k
    case None => 0
  }

  /** The winner's position among the available prizes of `c` for draw `u`. */
  function WinnerOf(c: Catalog, u: Draw): (k: nat)
    requires |Available(c)| > 0
    ensures k < |Available(c)|
    ensures Available(c)[k].quantity > 0
  {
    AvailableSpec(c);
    AvailableIndicesSpec(c);
    Winner(Available(c), DrawCeil(u, TotalWeight(Available(c))))
  }

  /** The catalog position `spinWheel` hands to the wheel, or None on the
      "no prize available" path when nothing has stock. */
  function Select(c: Catalog, u: Draw): (r: Option<nat>)
    ensures r.None? <==> forall j :: 0 <= j < |c| ==> c[j].quantity == 0
    ensures r.Some? ==> |Available(c)| > 0 && r.value < |c|
    ensures r.Some? ==> c[r.value].name == Available(c)[WinnerOf(c, u)].name
    ensures r.Some? ==> r.value <= AvailableIndices(c)[WinnerOf(c, u)]
    ensures r.Some? ==> forall j :: 0 <= j < r.value ==> c[j].name != c[r.value].name
  {
    var avail := Available(c);
    AvailableEmptyIff(c);
    if |avail| == 0 then None
    else
      var k := WinnerOf(c, u);
      var i := FindIndex(c, avail[k].name);
      AvailableSpec(c);
      FindIndexSpec(c, avail[k].name);
      assert c[AvailableIndices(c)[k]].name == avail[k].name;
      Some(i as nat)
  }

  /** The loop always breaks when the draw is within the total, so the
      `availablePrizes[0]` initialiser is never the answer for its own sake. */
  lemma WalkBreaks(avail: seq<Prize>, d: nat)
    requires d <= TotalWeight(avail)
    ensures Walk(avail, 0, d).Some? <==> |avail| > 0
  {
    WalkSpec(avail, 0, d);
    RunningWeightAll(avail);
    assert RunningWeight(avail, 0) == 0;
  }

  /** The winner is the first available prize whose running sum of weights
      reaches the draw. */
  lemma WinnerIsFirstCovering(avail: seq<Prize>, d: nat)
    requires |avail| > 0 && d <= TotalWeight(avail)
    ensures d <= RunningWeight(avail, Winner(avail, d) + 1)
    ensures forall j :: 1 <= j <= Winner(avail, d) ==> RunningWeight(avail, j) < d
  {
    WalkSpec(avail, 0, d);
    WalkBreaks(avail, d);
    assert RunningWeight(avail, 0) == 0;
  }

  /** In the source's own terms: the winner is the first available prize
      whose running sum of weights is at least `Math.random() * totalWeight`,
      the real draw before rounding. */
  lemma WinnerOfIsFirstCovering(c: Catalog, u: Draw)
    requires |Available(c)| > 0
    ensures var a := Available(c);
      u.num * TotalWeight(a) <= u.den * RunningWeight(a, WinnerOf(c, u) + 1)
    ensures var a := Available(c);
      forall j :: 1 <= j <= WinnerOf(c, u) ==>
        u.den * RunningWeight(a, j) < u.num * TotalWeight(a)
  {
    var a := Available(c);
    var t := TotalWeight(a);
    var d := DrawCeil(u, t);
    var k := WinnerOf(c, u);
    WinnerIsFirstCovering(a, d);
    DrawTest(u, t, RunningWeight(a, k + 1));
    forall j | 1 <= j <= k
      ensures u.den * RunningWeight(a, j) < u.num * t
    {
      DrawTest(u, t, RunningWeight(a, j));
    }
  }

  /** Partition view: position k wins exactly when the draw lies in
      (RunningWeight(k), RunningWeight(k + 1)], an interval of length
      `avail[k].weight`; a draw of zero goes to the first prize. */
  lemma WinnerInterval(avail: seq<Prize>, d: nat, k: nat)
    requires |avail| > 0 && d <= TotalWeight(avail)
    ensures Winner(avail, d) == k <==>
      && k < |avail|
      && d <= RunningWeight(avail, k + 1)
      && (k == 0 || RunningWeight(avail, k) < d)
  {
    var w := Winner(avail, d);
    WinnerIsFirstCovering(avail, d);
    if k < |avail| && d <= RunningWeight(avail, k + 1) && (k == 0 || RunningWeight(avail, k) < d) {
      if w < k {
        RunningWeightMonotone(avail, w + 1, k);
      }
    }
  }

  /** A draw of exactly zero selects the first available prize, because the
      loop tests `random <= 0`. */
  lemma ZeroDrawWinsFirst(avail: seq<Prize>, u: Draw)
    requires |avail| > 0
    requires u.num == 0
    ensures Winner(avail, DrawCeil(u, TotalWeight(avail))) == 0
  {
    WinnerInterval(avail, 0, 0);
  }

  /** The integers in (lo, hi]. */
  function Between(lo: int, hi: int): (r: set<int>)
    ensures forall x :: x in r <==> lo < x <= hi
    ensures |r| == if lo < hi then hi - lo else 0
    decreases hi - lo
  {
    if hi <= lo then {}
    else
      var r := Between(lo, hi - 1);
      assert hi !in r;
      r + {hi}
  }

  /** Share of each prize: of the rounded draws 1..total (each of which is hit
      with probability 1/total by a uniform `Math.random()`; the draw 0 only
      by the single value 0), exactly `weight` select position k. */
  lemma WinnerShare(avail: seq<Prize>, k: nat)
    requires k < |avail|
    ensures |set d: nat | 1 <= d <= TotalWeight(avail) && Winner(avail, d) == k| == avail[k].weight
  {
    var t := TotalWeight(avail);
    var lo := RunningWeight(avail, k);
    var hi := RunningWeight(avail, k + 1);
    RunningWeightStep(avail, k);
    RunningWeightAll(avail);
    RunningWeightMonotone(avail, k + 1, |avail|);
    var wins := set d: nat | 1 <= d <= t && Winner(avail, d) == k;
    forall d: int | lo < d <= hi
      ensures d in wins
    {
      WinnerInterval(avail, d, k);
    }
    forall d | d in wins
      ensures lo < d <= hi
    {
      WinnerInterval(avail, d, k);
    }
    assert wins == Between(lo, hi);
  }

  /** With labels unique, the label lookup lands on the winning entry itself,
      which has stock. */
  lemma SelectFindsWinner(c: Catalog, u: Draw, i: nat)
    requires UniqueLabels(c)
    requires Select(c, u) == Some(i)
    ensures |Available(c)| > 0 && i == AvailableIndices(c)[WinnerOf(c, u)]
    ensures i < |c| && c[i] == Available(c)[WinnerOf(c, u)] && c[i].quantity > 0
  {
    var k := WinnerOf(c, u);
    AvailableSpec(c);
    AvailableIndicesSpec(c);
    assert c[AvailableIndices(c)[k]] == Available(c)[k];
  }
}
