/**
 * The grayscale-weight panel: three weights for red, green and blue that the
 * sliders move. Moving one slider clamps it, rescales the other two to fill
 * what is left, rounds all three to thousandths and pushes any rounding
 * residual onto the largest weight; the weights are then handed to the
 * grayscale conversion when their sum is at most 1.001.
 */
module GreyWeights {
  import opened JsMath

  /** The name of one weight field: `'r' | 'g' | 'b'`. */
  datatype Key = R | G | B

  /** The three weights, as in the `colorsMat` record. */
  datatype Weights = Weights(r: real, g: real, b: real) {

    /** `this[k]`. */
    function Get(k: Key): real {
      match k
      case R => r
      case G => g
      case B => b
    }

    function Sum(): real {
      r + g + b
    }

    /** `this[k] = v`: the weight `k` becomes `v` and the other two keep their values. */
    function With(k: Key, v: real): (w: Weights)
      ensures w.Get(k) == v
      ensures k != R ==> w.r == r
      ensures k != G ==> w.g == g
      ensures k != B ==> w.b == b
    {
      match k
      case R => this.(r := v)
      case G => this.(g := v)
      case B => this.(b := v)
    }
  }

  /** The luma weights the panel starts from and `backToBasicGrey` restores. */
  const Basic := Weights(0.299, 0.587, 0.114)

  /** The greatest sum of weights the grayscale conversion still accepts. */
  const Tolerance := 1.001

  /** `clamp01`: `Math.min(1, Math.max(0, x))`. */
  function Clamp01(x: real): (y: real)
    ensures 0.0 <= y <= 1.0
    ensures 0.0 <= x <= 1.0 ==> y == x
    ensures x < 0.0 ==> y == 0.0
    ensures 1.0 < x ==> y == 1.0
  {
    var atLeastZero := if 0.0 >= x then 0.0 else x;
    if 1.0 <= atLeastZero then 1.0 else atLeastZero
  }

  /** `x` is a whole number of thousandths. */
  predicate Thousandths(x: real) {
    (x * 1000.0).Floor as real == x * 1000.0
  }

  /** `round3`: `Math.round(x * 1000) / 1000`, the nearest thousandth, halves rounded up. */
  function Round3(x: real): (y: real)
    ensures Thousandths(y)
    ensures x - 0.0005 < y <= x + 0.0005
  {
    Round(x * 1000.0) as real / 1000.0
  }

  /** Every weight lies in [0, 1]. */
  predicate InUnit(w: Weights) {
    0.0 <= w.r <= 1.0 && 0.0 <= w.g <= 1.0 && 0.0 <= w.b <= 1.0
  }

  /** The two keys other than `k`, in r, g, b order. */
  function Others(k: Key): (o: (Key, Key))
    ensures o.0 != k && o.1 != k && o.0 != o.1
  {
    match k
    case R => (G, B)
    case G => (R, B)
    case B => (R, G)
  }

  /** Position of a key in the `[r, g, b]` entry list. */
  function Rank(k: Key): nat {
    match k
    case R => 0
    case G => 1
    case B => 2
  }

  /** The key the `reduce` with `>=` picks: a largest weight, and the first one on a tie. */
  function FirstLargest(w: Weights): (k: Key)
    ensures forall j: Key :: w.Get(j) <= w.Get(k)
    ensures forall j: Key :: Rank(j) < Rank(k) ==> w.Get(j) < w.Get(k)
  {
    var first := if w.r >= w.g then R else G;
    if w.Get(first) >= w.b then first else B
  }

  /** `normalizeSumTo1`: the rounded residual to one is added to the first largest weight. */
  function Normalized(w: Weights): Weights {
    var diff := Round3(1.0 - w.Sum());
    if diff == 0.0 then w
    else
      var k := FirstLargest(w);
      w.With(k, Round3(Clamp01(w.Get(k) + diff)))
  }

  /** The new values of the two unmoved weights: halves of `remaining` if both were zero, else both scaled by `remaining / sum`. */
  function Refill(remaining: real, old1: real, old2: real): (real, real) {
    var sumOldOthers := old1 + old2;
    if sumOldOthers == 0.0 then
      (remaining / 2.0, remaining / 2.0)
    else
      var k := remaining / sumOldOthers;
      (old1 * k, old2 * k)
  }

  /** The weights after `onSlider` has clamped `clr` and refilled the other two, before rounding. */
  function Rebalanced(w: Weights, clr: Key): Weights {
    var v := Clamp01(w.Get(clr));
    var (o1, o2) := Others(clr);
    var p := Refill(Clamp01(1.0 - v), w.Get(o1), w.Get(o2));
    w.With(clr, v).With(o1, p.0).With(o2, p.1)
  }

  /** Each weight rounded to thousandths. */
  function RoundEach(w: Weights): Weights {
    Weights(Round3(w.r), Round3(w.g), Round3(w.b))
  }

  /** The weights after a whole `onSlider(clr)`. */
  function Slid(w: Weights, clr: Key): Weights {
    Normalized(RoundEach(Rebalanced(w, clr)))
  }

  /** The check `toGreyScale` makes before forwarding. */
  predicate Forwards(mat: Weights) {
    mat.Sum() <= Tolerance
  }

  // ---------------------------------------------------------------------------
  // Rebalancing

  /** A product of two non-negative reals is non-negative. */
  lemma ProductNonNegative(x: real, y: real)
    requires 0.0 <= x && 0.0 <= y
    ensures 0.0 <= x * y
  {
  }

  /** Scaling both parts of a non-zero sum `s` by `t / s` gives parts summing to `t`. */
  lemma ScaledParts(x: real, y: real, t: real)
    requires x + y != 0.0
    ensures x * (t / (x + y)) + y * (t / (x + y)) == t
  {
    var k := t / (x + y);
    assert x * k + y * k == (x + y) * k;
    assert (x + y) * k == t;
  }

  /**
   * The refilled weights sum to `remaining`; they keep the ratio of the old ones,
   * split `remaining` evenly when both old ones were zero, and are non-negative
   * when the old ones and `remaining` are.
   */
  lemma RefillKeepsRatio(remaining: real, old1: real, old2: real)
    ensures var p := Refill(remaining, old1, old2);
      p.0 + p.1 == remaining
      && (old1 + old2 != 0.0 ==> p.0 * old2 == p.1 * old1)
      && (old1 + old2 == 0.0 ==> p.0 == p.1 == remaining / 2.0)
      && (0.0 <= remaining && 0.0 <= old1 && 0.0 <= old2 ==> 0.0 <= p.0 && 0.0 <= p.1)
  {
    if old1 + old2 != 0.0 {
      var k := remaining / (old1 + old2);
      ScaledParts(old1, old2, remaining);
      assert old1 * k * old2 == old2 * k * old1;
      if 0.0 <= remaining && 0.0 <= old1 && 0.0 <= old2 {
        assert 0.0 < old1 + old2;
        ProductNonNegative(old1, k);
        ProductNonNegative(old2, k);
      }
    }
  }

  /**
   * Moving `clr` clamps it into [0, 1]; if the other two weights had a non-zero
   * sum each is scaled by the same factor, so their ratio is kept and they
   * sum to what `clr` leaves of one; if both were zero each gets half of it.
   */
  lemma RebalanceFillsRemainder(w: Weights, clr: Key)
    ensures var n := Rebalanced(w, clr);
      var (o1, o2) := Others(clr);
      var v := Clamp01(w.Get(clr));
      n.Get(clr) == v
      && n.Get(o1) + n.Get(o2) == 1.0 - v
      && (w.Get(o1) + w.Get(o2) != 0.0 ==> n.Get(o1) * w.Get(o2) == n.Get(o2) * w.Get(o1))
      && (w.Get(o1) + w.Get(o2) == 0.0 ==> n.Get(o1) == n.Get(o2) == (1.0 - v) / 2.0)
  {
    var (o1, o2) := Others(clr);
    var v := Clamp01(w.Get(clr));
    assert Clamp01(1.0 - v) == 1.0 - v;
    RefillKeepsRatio(1.0 - v, w.Get(o1), w.Get(o2));
  }

  /** After rebalancing the weights sum to exactly one. */
  lemma RebalancedSumsToOne(w: Weights, clr: Key)
    ensures Rebalanced(w, clr).Sum() == 1.0
  {
    RebalanceFillsRemainder(w, clr);
    var n := Rebalanced(w, clr);
    assert n.Sum() == n.Get(R) + n.Get(G) + n.Get(B);
  }

  /** If the two unmoved weights are non-negative, rebalancing leaves every weight in [0, 1]. */
  lemma RebalancedInUnit(w: Weights, clr: Key)
    requires 0.0 <= w.Get(Others(clr).0) && 0.0 <= w.Get(Others(clr).1)
    ensures InUnit(Rebalanced(w, clr))
  {
    var (o1, o2) := Others(clr);
    var v := Clamp01(w.Get(clr));
    assert Clamp01(1.0 - v) == 1.0 - v;
    RefillKeepsRatio(1.0 - v, w.Get(o1), w.Get(o2));
    var n := Rebalanced(w, clr);
    assert 0.0 <= n.Get(o1) && 0.0 <= n.Get(o2) && n.Get(o1) + n.Get(o2) <= 1.0;
    assert InUnit(n) <==> forall j: Key :: 0.0 <= n.Get(j) <= 1.0;
  }

  // ---------------------------------------------------------------------------
  // Rounding and normalisation

  /** `round3` of a value in [0, 1] stays in [0, 1]. */
  lemma Round3InUnit(x: real)
    requires 0.0 <= x <= 1.0
    ensures 0 <= Round(x * 1000.0) <= 1000
    ensures 0.0 <= Round3(x) <= 1.0
  {
  }

  /** `round3` of a whole number of thousandths is that number. */
  lemma Round3Exact(n: int)
    ensures Round3(n as real / 1000.0) == n as real / 1000.0
  {
    assert (n as real / 1000.0) * 1000.0 == n as real;
    RoundInteger(n);
  }

  /** `normalizeSumTo1` does nothing when the rounded residual is zero. */
  lemma NormalizedKeepsBalanced(w: Weights)
    requires Round3(1.0 - w.Sum()) == 0.0
    ensures Normalized(w) == w
  {
  }

  /**
   * Otherwise only the first largest weight changes, to `round3(clamp01(max + diff))`,
   * and the other two are untouched.
   */
  lemma NormalizedMovesFirstLargest(w: Weights)
    requires Round3(1.0 - w.Sum()) != 0.0
    ensures var k := FirstLargest(w);
      var n := Normalized(w);
      n.Get(k) == Round3(Clamp01(w.Get(k) + Round3(1.0 - w.Sum())))
      && (forall j: Key :: w.Get(j) <= w.Get(k))
      && (forall j: Key :: Rank(j) < Rank(k) ==> w.Get(j) < w.Get(k))
      && (forall j: Key :: j != k ==> n.Get(j) == w.Get(j))
  {
  }

  /** Weights of `a`, `b` and `c` thousandths. */
  function Milli(a: int, b: int, c: int): Weights {
    Weights(a as real / 1000.0, b as real / 1000.0, c as real / 1000.0)
  }

  /** Weights of whole thousandths in [0, 1] that sum to 1000 thousandths are in [0, 1], in thousandths, and sum to one. */
  lemma MilliBalanced(a: int, b: int, c: int)
    requires 0 <= a <= 1000 && 0 <= b <= 1000 && 0 <= c <= 1000 && a + b + c == 1000
    ensures var n := Milli(a, b, c);
      n.Sum() == 1.0 && InUnit(n) && Thousandths(n.r) && Thousandths(n.g) && Thousandths(n.b)
  {
    var n := Milli(a, b, c);
    assert n.r * 1000.0 == a as real && n.g * 1000.0 == b as real && n.b * 1000.0 == c as real;
  }

  /**
   * When three whole thousandths in [0, 1] miss one by a single thousandth, the
   * first largest absorbs the residual and the result is again whole thousandths
   * in [0, 1], now summing to 1000.
   */
  lemma ResidualAbsorbed(a: int, b: int, c: int) returns (a2: int, b2: int, c2: int)
    requires 0 <= a <= 1000 && 0 <= b <= 1000 && 0 <= c <= 1000
    requires 999 <= a + b + c <= 1001 && a + b + c != 1000
    ensures Normalized(Milli(a, b, c)) == Milli(a2, b2, c2)
    ensures 0 <= a2 <= 1000 && 0 <= b2 <= 1000 && 0 <= c2 <= 1000 && a2 + b2 + c2 == 1000
  {
    var w := Milli(a, b, c);
    var s := a + b + c;
    assert 1.0 - w.Sum() == (1000 - s) as real / 1000.0;
    Round3Exact(1000 - s);
    var k := FirstLargest(w);
    var mk := match k case R => a case G => b case B => c;
    assert w.Get(k) == mk as real / 1000.0;
    assert 3 * mk >= s;
    var m := mk + 1000 - s;
    assert w.Get(k) + (1000 - s) as real / 1000.0 == m as real / 1000.0;
    assert 0 <= m <= 1000;
    var v := m as real / 1000.0;
    assert Clamp01(v) == v;
    Round3Exact(m);
    assert Normalized(w) == w.With(k, v);
    a2, b2, c2 := if k == R then m else a, if k == G then m else b, if k == B then m else c;
    assert w.With(k, v) == Milli(a2, b2, c2);
  }

  /**
   * Three whole numbers of thousandths in [0, 1] whose sum is within one thousandth
   * of one are normalised to weights in [0, 1], in thousandths, summing to exactly one.
   */
  lemma NormalizedSumsToOne(a: int, b: int, c: int)
    requires 0 <= a <= 1000 && 0 <= b <= 1000 && 0 <= c <= 1000
    requires 999 <= a + b + c <= 1001
    ensures var n := Normalized(Milli(a, b, c));
      n.Sum() == 1.0 && InUnit(n)
      && Thousandths(n.r) && Thousandths(n.g) && Thousandths(n.b)
  {
    if a + b + c == 1000 {
      assert 1.0 - Milli(a, b, c).Sum() == 0.0;
      Round3Exact(0);
      MilliBalanced(a, b, c);
    } else {
      var a2, b2, c2 := ResidualAbsorbed(a, b, c);
      MilliBalanced(a2, b2, c2);
    }
  }

  // ---------------------------------------------------------------------------
  // A whole slider move

  /**
   * When the two unmoved weights are non-negative, a slider move ends with
   * every weight in [0, 1], in thousandths, summing to exactly one, so the
   * weights are always forwarded to the grayscale conversion.
   */
  lemma SlidSumsToOne(w: Weights, clr: Key)
    requires 0.0 <= w.Get(Others(clr).0) && 0.0 <= w.Get(Others(clr).1)
    ensures var n := Slid(w, clr);
      n.Sum() == 1.0 && InUnit(n)
      && Thousandths(n.r) && Thousandths(n.g) && Thousandths(n.b)
      && Forwards(n)
  {
    var m := Rebalanced(w, clr);
    RebalancedSumsToOne(w, clr);
    RebalancedInUnit(w, clr);
    var a, b, c := Round(m.r * 1000.0), Round(m.g * 1000.0), Round(m.b * 1000.0);
    Round3InUnit(m.r);
    Round3InUnit(m.g);
    Round3InUnit(m.b);
    assert RoundEach(m) == Milli(a, b, c);
    NormalizedSumsToOne(a, b, c);
  }

  /** The basic weights sum to one, so restoring them always forwards them. */
  lemma BasicForwards()
    ensures Basic.Sum() == 1.0 && InUnit(Basic) && Forwards(Basic)
  {
  }

  // ---------------------------------------------------------------------------
  // The component

  /** The weight panel with its three weight fields and the record it hands on. */
  class Color {
    var r: real
    var g: real
    var b: real
    var colorsMat: Weights
    /** The weight records handed to the grayscale conversion, oldest first. */
    var forwarded: seq<Weights>

    /** The three weight fields as one record. */
    function Current(): Weights
      reads this`r, this`g, this`b
    {
      Weights(r, g, b)
    }

    constructor ()
      ensures Current() == Basic && colorsMat == Basic && forwarded == []
    {
      r, g, b := 0.299, 0.587, 0.114;
      colorsMat := Basic;
      forwarded := [];
    }

    /** `this[k] = v`. */
    method SetWeight(k: Key, v: real)
      modifies this`r, this`g, this`b
      ensures Current() == old(Current()).With(k, v)
    {
      match k
      case R => r := v;
      case G => g := v;
      case B => b := v;
    }

    /** `normalizeSumTo1`. */
    method NormalizeSumTo1()
      modifies this`r, this`g, this`b
      ensures Current() == Normalized(old(Current()))
    {
      var sum := r + g + b;
      var diff := Round3(1.0 - sum);
      if diff == 0.0 {
        return;
      }
      var maxK := FirstLargest(Current());
      SetWeight(maxK, Round3(Clamp01(Current().Get(maxK) + diff)));
    }

    /** `toGreyScale`: forwards `mat` unless its weights sum to more than 1.001. */
    method ToGreyScale(mat: Weights)
      modifies this`forwarded
      ensures Forwards(mat) ==> forwarded == old(forwarded) + [mat]
      ensures !Forwards(mat) ==> forwarded == old(forwarded)
    {
      if mat.r + mat.g + mat.b > Tolerance {
        return;
      }
      forwarded := forwarded + [mat];
    }

    /** `this[o1] = v1; this[o2] = v2`. */
    method SetPair(o1: Key, v1: real, o2: Key, v2: real)
      modifies this`r, this`g, this`b
      ensures Current() == old(Current()).With(o1, v1).With(o2, v2)
    {
      SetWeight(o1, v1);
      SetWeight(o2, v2);
    }

    /**
     * The first half of `onSlider(clr)`: `this[clr]` is clamped and the other two
     * weights are refilled to what it leaves of one.
     */
    method Rebalance(clr: Key)
      modifies this`r, this`g, this`b
      ensures Current() == Rebalanced(old(Current()), clr)
    {
      ghost var w := Current();
      SetWeight(clr, Clamp01(Current().Get(clr)));
      var (o1, o2) := Others(clr);
      var newValue := Current().Get(clr);
      var remaining := Clamp01(1.0 - newValue);
      var oldO1 := Current().Get(o1);
      var oldO2 := Current().Get(o2);
      assert oldO1 == w.Get(o1) && oldO2 == w.Get(o2);
      var refilled := Refill(remaining, oldO1, oldO2);
      SetPair(o1, refilled.0, o2, refilled.1);
    }

    /** `onSlider(clr)`, called once the slider has written its value into `this[clr]`. */
    method OnSlider(clr: Key)
      modifies this
      ensures Current() == Slid(old(Current()), clr)
      ensures colorsMat == Current()
      ensures Forwards(Current()) ==> forwarded == old(forwarded) + [Current()]
      ensures !Forwards(Current()) ==> forwarded == old(forwarded)
      ensures var (o1, o2) := Others(clr);
        0.0 <= old(Current().Get(o1)) && 0.0 <= old(Current().Get(o2))
        ==> InUnit(Current()) && Current().Sum() == 1.0 && forwarded == old(forwarded) + [Current()]
    {
      ghost var w := Current();
      Rebalance(clr);
      r := Round3(r);
      g := Round3(g);
      b := Round3(b);
      NormalizeSumTo1();
      colorsMat := Current();
      ToGreyScale(colorsMat);
      if 0.0 <= w.Get(Others(clr).0) && 0.0 <= w.Get(Others(clr).1) {
        SlidSumsToOne(w, clr);
      }
    }

    /** `backToBasicGrey`: restores the basic weights and forwards them. */
    method BackToBasicGrey()
      modifies this
      ensures Current() == Basic && colorsMat == Basic
      ensures forwarded == old(forwarded) + [Basic]
    {
      r := 0.299;
      g := 0.587;
      b := 0.114;
      colorsMat := Current();
      BasicForwards();
      ToGreyScale(colorsMat);
    }
  }
}
