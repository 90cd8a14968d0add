/**
 * The colour ranges given to the two layer colour scales. The live palette
 * `scheme` of `P` colours is thinned to every `step`-th entry, with
 * `step = Math.ceil(P / L)` where `L` is the number of layers. The palette
 * for deleted nodes is thinned with that same step, computed from the live
 * palette's length and not its own, so the rule takes the length that
 * defines the step separately from the palette it filters.
 */
module Palette {

  // ---- integer division facts ----

  lemma MulSign(d: int, s: int)
    requires s > 0
    ensures d >= 1 ==> d * s >= s
    ensures d <= -1 ==> d * s <= -s
  {
  }

  lemma DivUnique(x: int, s: int, q: int)
    requires s > 0 && q * s <= x < q * s + s
    ensures x / s == q
  {
    assert x == (x / s) * s + x % s;
    assert (x / s - q) * s == (x / s) * s - q * s;
    MulSign(x / s - q, s);
  }

  lemma MulStrict(a: int, b: int, s: int)
    requires s > 0 && a < b
    ensures a * s < b * s
  {
    assert b * s - a * s == (b - a) * s;
    MulSign(b - a, s);
  }

  lemma DivMonotonic(x: int, y: int, s: int)
    requires s > 0 && 0 <= x <= y
    ensures x / s <= y / s
  {
    assert x == (x / s) * s + x % s;
    assert y == (y / s) * s + y % s;
    assert (x / s - y / s) * s == (x / s) * s - (y / s) * s;
    MulSign(x / s - y / s, s);
  }

  // ---- the sampling rule ----

  /** `Math.ceil(p / l)` for a positive `l`. */
  function CeilDiv(p: nat, l: nat): nat
    requires l > 0
  {
    (p + l - 1) / l
  }

  /** The stride is positive as soon as the palette is not empty. */
  lemma CeilDivPositive(p: nat, l: nat)
    requires l > 0 && p > 0
    ensures CeilDiv(p, l) >= 1
  {
    DivMonotonic(l, p + l - 1, l);
  }

  /**
   * `i % step === 0` with `step = Math.ceil(p / l)`, `p` the live palette's
   * length. With no layers the step is `p / 0`: Infinity for a non-empty
   * palette, where `i % Infinity` is `i` and only index 0 passes, and NaN
   * for an empty one. With layers but an empty live palette the step is 0
   * and `i % 0` is NaN. NaN equals nothing, so then no index passes.
   */
  predicate Kept(i: nat, p: nat, l: nat) {
    if p == 0 then false
    else if l == 0 then i == 0
    else (CeilDivPositive(p, l); i % CeilDiv(p, l) == 0)
  }

  /** `palette.filter((_, i) => i % step === 0)` over the first `n` entries, the step taken from `p` and `l`. */
  function SamplePrefix<C>(palette: seq<C>, p: nat, l: nat, n: nat): seq<C>
    requires n <= |palette|
  {
    if n == 0 then []
    else SamplePrefix(palette, p, l, n - 1) + (if Kept(n - 1, p, l) then [palette[n - 1]] else [])
  }

  /** `palette` filtered with the step for a live palette of `p` colours and `l` layers. */
  function Sample<C>(palette: seq<C>, p: nat, l: nat): seq<C> {
    SamplePrefix(palette, p, l, |palette|)
  }

  /** The range of `colorScale`: `scheme` filtered with its own step. */
  function LiveRange<C>(scheme: seq<C>, l: nat): seq<C> {
    Sample(scheme, |scheme|, l)
  }

  /** The range of `deletedColorScale`: `schemeRed` filtered with the step of `scheme`. */
  function DeletedRange<C>(scheme: seq<C>, schemeRed: seq<C>, l: nat): seq<C> {
    Sample(schemeRed, |scheme|, l)
  }

  /** Counting multiples of `s` below `n + 1` from those below `n`. */
  lemma CeilDivStep(n: nat, s: nat)
    requires s > 0
    ensures n % s == 0 ==> CeilDiv(n + 1, s) == CeilDiv(n, s) + 1 && CeilDiv(n, s) * s == n
    ensures n % s != 0 ==> CeilDiv(n + 1, s) == CeilDiv(n, s)
  {
    var q, r := n / s, n % s;
    assert n == q * s + r;
    assert (q + 1) * s == q * s + s;
    if r == 0 {
      DivUnique(n + s - 1, s, q);
      DivUnique(n + 1 + s - 1, s, q + 1);
    } else {
      DivUnique(n + s - 1, s, q + 1);
      DivUnique(n + 1 + s - 1, s, q + 1);
    }
  }

  /** The first `n` entries keep exactly the multiples of the step, in order. */
  lemma {:induction false} SamplePrefixStride<C>(palette: seq<C>, p: nat, l: nat, n: nat)
    requires l > 0 && p > 0 && n <= |palette|
    ensures CeilDiv(p, l) > 0
    ensures |SamplePrefix(palette, p, l, n)| == CeilDiv(n, CeilDiv(p, l))
    ensures forall j :: 0 <= j < |SamplePrefix(palette, p, l, n)| ==>
      j * CeilDiv(p, l) < n && SamplePrefix(palette, p, l, n)[j] == palette[j * CeilDiv(p, l)]
  {
    CeilDivPositive(p, l);
    var s := CeilDiv(p, l);
    if n == 0 {
      assert CeilDiv(0, s) == 0 by { DivUnique(s - 1, s, 0); }
    } else {
      SamplePrefixStride(palette, p, l, n - 1);
      CeilDivStep(n - 1, s);
      var prev := SamplePrefix(palette, p, l, n - 1);
      var cur := SamplePrefix(palette, p, l, n);
      forall j | 0 <= j < |cur|
        ensures j * s < n && cur[j] == palette[j * s]
      {
        if j < |prev| {
          assert cur[j] == prev[j];
        } else {
          assert j == CeilDiv(n - 1, s);
        }
      }
    }
  }

  /**
   * With at least one layer and a non-empty live palette, the range holds
   * the entries at multiples of `step = ceil(P / L)`, in palette order, and
   * has `ceil(|palette| / step)` entries.
   */
  lemma SampleStride<C>(palette: seq<C>, p: nat, l: nat)
    requires l > 0 && p > 0
    ensures CeilDiv(p, l) > 0
    ensures |Sample(palette, p, l)| == CeilDiv(|palette|, CeilDiv(p, l))
    ensures forall j :: 0 <= j < |Sample(palette, p, l)| ==>
      j * CeilDiv(p, l) < |palette| && Sample(palette, p, l)[j] == palette[j * CeilDiv(p, l)]
  {
    SamplePrefixStride(palette, p, l, |palette|);
  }

  /** Thinning `p` entries with `step = ceil(p / l)` leaves at most `l` of them. */
  lemma CeilDivAtMost(p: nat, l: nat)
    requires l > 0 && p > 0
    ensures CeilDiv(p, l) > 0 && CeilDiv(p, CeilDiv(p, l)) <= l
  {
    CeilDivPositive(p, l);
    var s := CeilDiv(p, l);
    // s * l >= p, from the division that defines s
    assert p + l - 1 == s * l + (p + l - 1) % l;
    assert (l + 1) * s == l * s + s;
    // hence p + s - 1 < (l + 1) * s, and q * s <= p + s - 1 bounds the quotient q
    var q := (p + s - 1) / s;
    assert p + s - 1 == q * s + (p + s - 1) % s;
    assert (q - (l + 1)) * s == q * s - (l + 1) * s;
    MulSign(q - (l + 1), s);
  }

  /** A palette no longer than the live one never gives more colours than layers. */
  lemma SampleAtMostLayers<C>(palette: seq<C>, p: nat, l: nat)
    requires l > 0 && |palette| <= p
    ensures |Sample(palette, p, l)| <= l
  {
    if p > 0 {
      SampleStride(palette, p, l);
      CeilDivAtMost(p, l);
      var s := CeilDiv(p, l);
      DivMonotonic(|palette| + s - 1, p + s - 1, s);
    } else {
      SampleEmptyScheme(palette, l, |palette|);
    }
  }

  /** With at least as many layers as live colours the step is 1: the filtered palette is kept whole. */
  lemma SampleWholePalette<C>(palette: seq<C>, p: nat, l: nat)
    requires 0 < p <= l
    ensures Sample(palette, p, l) == palette
  {
    SampleStride(palette, p, l);
    DivUnique(p + l - 1, l, 1);
    assert CeilDiv(|palette|, 1) == |palette|;
  }

  /** The live range is the whole live palette as soon as there are at least as many layers as colours. */
  lemma LiveWholePalette<C>(scheme: seq<C>, l: nat)
    requires l >= |scheme| && l > 0
    ensures LiveRange(scheme, l) == scheme
  {
    if |scheme| > 0 {
      SampleWholePalette(scheme, |scheme|, l);
    }
  }

  /** With no layers only the first entry survives, and none when the live palette is empty. */
  lemma {:induction false} SampleNoLayers<C>(palette: seq<C>, p: nat, n: nat)
    requires n <= |palette|
    ensures SamplePrefix(palette, p, 0, n) == if p == 0 || n == 0 then [] else palette[..1]
  {
    if n > 0 {
      SampleNoLayers(palette, p, n - 1);
    }
  }

  /** An empty live palette gives a step of 0 (or NaN): both ranges are empty. */
  lemma {:induction false} SampleEmptyScheme<C>(palette: seq<C>, l: nat, n: nat)
    requires n <= |palette|
    ensures SamplePrefix(palette, 0, l, n) == []
  {
    if n > 0 {
      SampleEmptyScheme(palette, l, n - 1);
    }
  }

  /** Distinct palette colours stay distinct in the range. */
  lemma SampleDistinct<C>(palette: seq<C>, p: nat, l: nat)
    requires forall a, b :: 0 <= a < b < |palette| ==> palette[a] != palette[b]
    ensures forall j, j' :: 0 <= j < j' < |Sample(palette, p, l)| ==> Sample(palette, p, l)[j] != Sample(palette, p, l)[j']
  {
    if p == 0 {
      SampleEmptyScheme(palette, l, |palette|);
    } else if l == 0 {
      SampleNoLayers(palette, p, |palette|);
    } else {
      SampleStride(palette, p, l);
      var s := CeilDiv(p, l);
      forall j, j' | 0 <= j < j' < |Sample(palette, p, l)|
        ensures Sample(palette, p, l)[j] != Sample(palette, p, l)[j']
      {
        MulStrict(j, j', s);
      }
    }
  }

  /**
   * The stride can overshoot: 9 colours for 4 layers give a stride of 3 and
   * only 3 colours, so two of the 4 layers must share one.
   */
  lemma SampleFallsShort<C>(scheme: seq<C>)
    requires |scheme| == 9
    ensures |LiveRange(scheme, 4)| == 3
  {
    SampleStride(scheme, 9, 4);
    assert CeilDiv(9, 4) == 3;
    assert CeilDiv(9, 3) == 3;
  }

  /**
   * The deleted range takes its step from the live palette: 12 live colours
   * for 4 layers give step 3, so a 6-colour deleted palette keeps only its
   * entries 0 and 3, where its own length would give step 2.
   */
  lemma DeletedRangeUsesLiveStep<C>(scheme: seq<C>, schemeRed: seq<C>)
    requires |scheme| == 12 && |schemeRed| == 6
    ensures DeletedRange(scheme, schemeRed, 4) == [schemeRed[0], schemeRed[3]]
  {
    SampleStride(schemeRed, 12, 4);
    assert CeilDiv(12, 4) == 3;
    assert CeilDiv(6, 3) == 2;
  }

  // ---- a range of exactly min(P, L) colours ----

  /** The palette index picked for layer `j` when spreading `p` colours over `l < p` layers. */
  function SpreadIndex(j: nat, p: nat, l: nat): nat
    requires 0 < l
  {
    j * p / l
  }

  lemma SpreadIndexBound(j: nat, p: nat, l: nat)
    requires 0 < l <= p && j < l
    ensures SpreadIndex(j, p, l) < p
  {
    MulStrict(j, l, p);
    if j * p / l >= p {
      DivMonotonic(l * p, j * p, l);
      DivUnique(l * p, l, p);
    }
  }

  lemma SpreadIndexIncreasing(j: nat, j': nat, p: nat, l: nat)
    requires 0 < l <= p && j < j'
    ensures SpreadIndex(j, p, l) < SpreadIndex(j', p, l)
  {
    assert j' * p - j * p == (j' - j) * p;
    MulSign(j' - j, p);
    DivMonotonic(j * p + l, j' * p, l);
    assert j * p == (j * p / l) * l + (j * p) % l;
    DivUnique(j * p + l, l, j * p / l + 1);
  }

  /**
   * An even spread: with at least as many layers as colours the whole
   * palette, otherwise `L` entries at `floor(j * P / L)`.
   */
  function SpreadSample<C>(palette: seq<C>, l: nat): (r: seq<C>)
    ensures |r| == if l < |palette| then l else |palette|
  {
    if l >= |palette| then palette
    else seq(l, j requires 0 <= j < l => (SpreadIndexBound(j, |palette|, l); palette[SpreadIndex(j, |palette|, l)]))
  }

  /**
   * The spread takes palette entries in palette order, one per layer (or the
   * whole palette when there are not more colours than layers), so distinct
   * palette colours give every layer its own colour.
   */
  lemma SpreadSampleDistinct<C>(palette: seq<C>, l: nat)
    requires forall a, b :: 0 <= a < b < |palette| ==> palette[a] != palette[b]
    ensures forall j, j' :: 0 <= j < j' < |SpreadSample(palette, l)| ==> SpreadSample(palette, l)[j] != SpreadSample(palette, l)[j']
  {
    if l < |palette| {
      forall j, j' | 0 <= j < j' < l
        ensures SpreadSample(palette, l)[j] != SpreadSample(palette, l)[j']
      {
        SpreadIndexBound(j', |palette|, l);
        SpreadIndexIncreasing(j, j', |palette|, l);
      }
    }
  }

  /** Where the stride rule already uses the whole palette, the spread gives the same range. */
  lemma SpreadSampleAgrees<C>(palette: seq<C>, l: nat)
    requires l >= |palette| && l > 0
    ensures SpreadSample(palette, l) == LiveRange(palette, l)
  {
    LiveWholePalette(palette, l);
  }
}
