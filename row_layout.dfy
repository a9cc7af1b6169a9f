/** The flow-layout row helpers of the `UIView` extension and `Array.sum`. A list
    of element views is represented by the widths of their frames, in order; the
    container is the receiving view's frame width. */
module RowLayout {

  /** No width in the row is negative, as for real frames. */
  predicate NonNegative(widths: seq<real>) {
    forall i :: 0 <= i < |widths| ==> 0.0 <= widths[i]
  }

  /** `Array.sum`: the views' widths folded with `reduce(0, +)`, left to right.
      For real frames the total bounds every single width. */
  function Sum(widths: seq<real>): (r: real)
    ensures NonNegative(widths) ==> 0.0 <= r
    ensures NonNegative(widths) ==> forall i :: 0 <= i < |widths| ==> widths[i] <= r
  {
    if |widths| == 0 then 0.0 else Sum(widths[..|widths| - 1]) + widths[|widths| - 1]
  }

  /** A reference definition of the total, folding from the front. */
  ghost function SumFromFront(widths: seq<real>): real {
    if |widths| == 0 then 0.0 else widths[0] + SumFromFront(widths[1..])
  }

  /** Summing a concatenation sums the parts. */
  lemma {:induction false} SumAppend(a: seq<real>, b: seq<real>)
    ensures Sum(a + b) == Sum(a) + Sum(b)
  {
    if |b| == 0 {
      assert a + b == a;
    } else {
      var b' := b[..|b| - 1];
      assert (a + b)[..|a + b| - 1] == a + b';
      SumAppend(a, b');
    }
  }

  /** `reduce(0, +)` gives the same total as a fold from the front. */
  lemma {:induction false} SumMatchesFrontFold(widths: seq<real>)
    ensures Sum(widths) == SumFromFront(widths)
  {
    if |widths| > 0 {
      assert widths == [widths[0]] + widths[1..];
      SumAppend([widths[0]], widths[1..]);
      assert [widths[0]][..0] == [];
      SumMatchesFrontFold(widths[1..]);
    }
  }

  /** `n` items all of width `c` */
  function Uniform(c: real, n: nat): (row: seq<real>)
    ensures |row| == n && forall i :: 0 <= i < n ==> row[i] == c
  {
    seq(n, _ => c)
  }

  /** A row of `n` items of width `c` is `n * c` wide. */
  lemma {:induction false} SumUniform(c: real, n: nat)
    ensures Sum(Uniform(c, n)) == n as real * c
  {
    if n > 0 {
      assert Uniform(c, n)[..n - 1] == Uniform(c, n - 1);
      SumUniform(c, n - 1);
    }
  }

  /** `calculateNumberOfItemsPerRow`: `floor(width / size)`, as a CGFloat. The
      source divides unguarded; a zero size gives no finite count, so a non-zero
      size is the caller's duty. For a positive size the result is the whole
      number of items of that size that fit, and one more would not; for a
      negative size the bracket is mirrored. */
  function ItemsPerRow(width: real, size: real): (r: real)
    requires size != 0.0
    ensures r == r.Floor as real
    ensures size > 0.0 ==> r * size <= width < (r + 1.0) * size
    ensures size < 0.0 ==> (r + 1.0) * size < width <= r * size
  {
    var q := width / size;
    var f := q.Floor as real;
    if size > 0.0 then
      ScaleLower(f, q, size, width);
      ScaleUpper(f + 1.0, q, size, width);
      f
    else
      ScaleLowerNegative(f, q, size, width);
      ScaleUpperNegative(f + 1.0, q, size, width);
      f
  }

  /** Scaling by a positive factor keeps `<=`. */
  lemma MulMonotone(a: real, b: real, c: real)
    requires c > 0.0 && a <= b
    ensures a * c <= b * c
  {
    assert b * c - a * c == (b - a) * c;
  }

  /** Scaling by a positive factor keeps `<`. */
  lemma MulStrictMonotone(a: real, b: real, c: real)
    requires c > 0.0 && a < b
    ensures a * c < b * c
  {
    assert b * c - a * c == (b - a) * c;
  }

  /** A lower bound on the quotient `q = width / size` scales to one on `width`. */
  lemma ScaleLower(f: real, q: real, size: real, width: real)
    requires size > 0.0 && q * size == width && f <= q
    ensures f * size <= width
  {
    MulMonotone(f, q, size);
  }

  /** A strict upper bound on the quotient `q = width / size` scales to one on `width`. */
  lemma ScaleUpper(g: real, q: real, size: real, width: real)
    requires size > 0.0 && q * size == width && q < g
    ensures width < g * size
  {
    MulStrictMonotone(q, g, size);
  }

  /** With a negative `size`, a lower bound on `q = width / size` scales to an
      upper bound on `width`. */
  lemma ScaleLowerNegative(f: real, q: real, size: real, width: real)
    requires size < 0.0 && q * size == width && f <= q
    ensures width <= f * size
  {
    assert f * size - q * size == (q - f) * -size;
  }

  /** With a negative `size`, a strict upper bound on `q = width / size` scales
      to a strict lower bound on `width`. */
  lemma ScaleUpperNegative(g: real, q: real, size: real, width: real)
    requires size < 0.0 && q * size == width && q < g
    ensures g * size < width
  {
    assert q * size - g * size == (g - q) * -size;
  }

  /** A positive factor can be cancelled from `<`. */
  lemma MulCancel(a: real, b: real, c: real)
    requires c > 0.0 && a * c < b * c
    ensures a < b
  {
    assert (b - a) * c == b * c - a * c;
  }

  /** The fitting count is unique: at most one whole `k` has `k * size <= width`
      and `width < (k + 1) * size`. */
  lemma ItemsPerRowUnique(width: real, size: real, k: int)
    requires size > 0.0
    requires k as real * size <= width < (k + 1) as real * size
    ensures ItemsPerRow(width, size) == k as real
  {
    var m := ItemsPerRowBracket(width, size);
    FitIffAtMost(k, m, size, width);
    FitIffAtMost(m, k, size, width);
  }

  /** For a positive size, the count as a whole number `m` with
      `m * size <= width < (m + 1) * size`. */
  lemma ItemsPerRowBracket(width: real, size: real) returns (m: int)
    requires size > 0.0
    ensures m as real == ItemsPerRow(width, size)
    ensures m as real * size <= width < (m as real + 1.0) * size
  {
    var q := width / size;
    m := q.Floor;
    ScaleLower(m as real, q, size, width);
    ScaleUpper(m as real + 1.0, q, size, width);
  }

  /** Container widths 320, 300 and 299 hold 3, 3 and 2 items of width 100; a
      negative size gives a finite, non-positive count. */
  lemma ItemsPerRowExamples()
    ensures ItemsPerRow(320.0, 100.0) == 3.0
    ensures ItemsPerRow(300.0, 100.0) == 3.0
    ensures ItemsPerRow(299.0, 100.0) == 2.0
    ensures ItemsPerRow(300.0, -100.0) == -3.0
    ensures ItemsPerRow(250.0, -100.0) == -3.0
  {
    ItemsPerRowUnique(320.0, 100.0, 3);
    ItemsPerRowUnique(300.0, 100.0, 3);
    ItemsPerRowUnique(299.0, 100.0, 2);
  }

  /** `remainingSpace`: the container width left after the elements' widths. It is
      not clamped: an over-full row gives a negative remainder. */
  function RemainingSpace(width: real, widths: seq<real>): (r: real)
    ensures r + Sum(widths) == width
    ensures widths == [] ==> r == width
    ensures NonNegative(widths) ==> r <= width
  {
    width - Sum(widths)
  }

  /** Placing `a` and then `b` leaves what placing `b` in the remainder of `a` leaves. */
  lemma RemainingSpaceAfterPlacing(width: real, a: seq<real>, b: seq<real>)
    ensures RemainingSpace(width, a + b) == RemainingSpace(RemainingSpace(width, a), b)
  {
    SumAppend(a, b);
  }

  /** `canFitNewCellInRow`, as written: the width of the FIRST element is taken as
      the width of the new item, and the row with that item added must not exceed
      the container. The source reads `cells[0]` unguarded, so the row must not be
      empty. */
  function CanFitNewCellInRow(width: real, widths: seq<real>): (r: bool)
    requires |widths| > 0
    ensures r <==> Sum(widths + [widths[0]]) <= width
  {
    SumAppend(widths, [widths[0]]);
    assert [widths[0]][..0] == [];
    Sum(widths) + widths[0] <= width
  }

  /** A new item fits exactly when the space remaining covers the first item's width. */
  lemma CanFitIffRemainingSpace(width: real, widths: seq<real>)
    requires |widths| > 0
    ensures CanFitNewCellInRow(width, widths) <==> RemainingSpace(width, widths) >= widths[0]
  {
  }

  /** `j` items of width `size` fit side by side exactly when `j` is at most the
      count `calculateNumberOfItemsPerRow` reports. */
  lemma ItemsPerRowIsLargestFit(width: real, size: real, j: int)
    requires size > 0.0
    ensures j as real * size <= width <==> j as real <= ItemsPerRow(width, size)
  {
    var k := ItemsPerRowBracket(width, size);
    FitIffAtMost(j, k, size, width);
  }

  /** With `k * size <= width < (k + 1) * size`, `j` whole items fit exactly when `j <= k`. */
  lemma FitIffAtMost(j: int, k: int, size: real, width: real)
    requires size > 0.0 && k as real * size <= width < (k as real + 1.0) * size
    ensures j as real * size <= width <==> j <= k
  {
    if j <= k {
      MulMonotone(j as real, k as real, size);
    }
    if j as real * size <= width {
      MulCancel(j as real, k as real + 1.0, size);
    }
  }

  /** For a row of `n` equal items, the two helpers agree: one more item fits
      exactly when `n + 1` items of that width fit in a row. */
  lemma UniformRowFit(width: real, c: real, n: nat)
    requires c > 0.0 && n > 0
    ensures CanFitNewCellInRow(width, Uniform(c, n)) <==> (n + 1) as real <= ItemsPerRow(width, c)
  {
    var row := Uniform(c, n);
    assert row[0] == c;
    SumUniformPlusOne(c, n);
    ItemsPerRowIsLargestFit(width, c, n + 1);
  }

  /** A row of `n` items of width `c` with one more such item is `(n + 1) * c` wide. */
  lemma SumUniformPlusOne(c: real, n: nat)
    ensures Sum(Uniform(c, n)) + c == (n + 1) as real * c
  {
    SumUniform(c, n);
    assert (n + 1) as real * c == n as real * c + c;
  }

  /** Rows of 30 and 30 in a container of 100: another 30 fits; with 50 first, it does not. */
  lemma CanFitExamples()
    ensures CanFitNewCellInRow(100.0, [30.0, 30.0])
    ensures !CanFitNewCellInRow(100.0, [50.0, 30.0])
  {
  }
}
