/** Per-channel histograms over 65535 quantisation bins, and their cumulative
    form (the "CFH"). */
module Histograms {
  import opened Images

  /** MAX_VALUE: the largest 16-bit unsigned value. */
  const MaxValue: nat := 65535

  /** The number of entries of a `Histogram` buffer: MAX_VALUE itself, so the
      valid bins are 0 .. MAX_VALUE - 1. */
  const BinCount: nat := MaxValue

  /** The three colour channels (the enum RGB). */
  datatype Channel = R | G | B

  /** Channel number 0, 1 or 2 as a channel. */
  function ChannelOf(ch: nat): (c: Channel)
    requires ch < 3
    ensures Index(c) == ch
  {
    if ch == 0 then R else if ch == 1 then G else B
  }

  /** The channel's number. */
  function Index(c: Channel): (k: nat)
    ensures k < 3
  {
    match c
    case R => 0
    case G => 1
    case B => 2
  }

  /** The selected channel's value of a pixel: the double at offset
      `Index(c)` of the pixel's three consecutive fields r, g, b. */
  function ChannelValue(p: Pixel, c: Channel): (v: real)
    ensures v == [p.r, p.g, p.b][Index(c)]
  {
    match c
    case R => p.r
    case G => p.g
    case B => p.b
  }

  /** The pixel with the selected channel replaced. */
  function WithChannel(p: Pixel, c: Channel, v: real): (q: Pixel)
    ensures ChannelValue(q, c) == v
    ensures forall d :: d != c ==> ChannelValue(q, d) == ChannelValue(p, d)
  {
    match c
    case R => p.(r := v)
    case G => p.(g := v)
    case B => p.(b := v)
  }

  /** The bin a channel value is counted in: the value scaled by MAX_VALUE,
      rounded down. */
  function HistBin(v: real): (b: int)
    ensures b as real <= v * MaxValue as real < b as real + 1.0
    ensures v >= 0.0 ==> b >= 0
  {
    (v * MaxValue as real).Floor
  }

  /** The bin a channel value is looked up in when it is remapped: the value
      scaled by MAX_VALUE - 1, rounded down. It differs from `HistBin`. */
  function LookupBin(v: real): (b: int)
    ensures b as real <= v * (MaxValue - 1) as real < b as real + 1.0
    ensures v >= 0.0 ==> b >= 0
  {
    (v * (MaxValue - 1) as real).Floor
  }

  /** A value that can be counted without indexing outside the histogram. */
  predicate InHistogramRange(v: real)
  {
    0 <= HistBin(v) < BinCount
  }

  /** A channel value of 1.0 (full intensity) falls one past the last bin. */
  lemma FullIntensityOverflows()
    ensures HistBin(1.0) == BinCount && !InHistogramRange(1.0)
  {
  }

  /** A countable value is also a valid lookup index, never above its own bin. */
  lemma LookupBinInRange(v: real)
    requires InHistogramRange(v)
    ensures 0 <= LookupBin(v) <= HistBin(v) && LookupBin(v) < BinCount - 1
  {
  }

  /** Both quantisers are monotone. */
  lemma BinsMonotone(v1: real, v2: real)
    requires v1 <= v2
    ensures HistBin(v1) <= HistBin(v2) && LookupBin(v1) <= LookupBin(v2)
  {
  }

  /** An 8-bit level n/255 strictly between black and white is counted in
      bin 257*n but looked up in bin 257*n - 1. */
  lemma ByteLevelBins(n: nat)
    requires 0 < n < 255
    ensures HistBin(n as real / 255.0) == 257 * n
    ensures LookupBin(n as real / 255.0) == 257 * n - 1
  {
  }

  // ---------------------------------------------------------------------
  // Sums

  /** The sum of the entries of a histogram. */
  function Sum(s: seq<nat>): nat
  {
    if |s| == 0 then 0 else Sum(s[..|s| - 1]) + s[|s| - 1]
  }

  /** Replacing one entry changes the sum by the difference. */
  lemma {:induction false} SumUpdate(s: seq<nat>, k: nat, v: nat)
    requires k < |s|
    ensures Sum(s[k := v]) + s[k] == Sum(s) + v
  {
    var n := |s| - 1;
    if k == n {
      assert s[k := v][..n] == s[..n];
    } else {
      assert s[k := v][..n] == s[..n][k := v];
      SumUpdate(s[..n], k, v);
    }
  }

  /** All-zero entries sum to zero. */
  lemma {:induction false} SumOfZeros(s: seq<nat>)
    requires forall i :: 0 <= i < |s| ==> s[i] == 0
    ensures Sum(s) == 0
  {
    if |s| > 0 {
      SumOfZeros(s[..|s| - 1]);
    }
  }

  // ---------------------------------------------------------------------
  // Histogram of one channel over a whole image

  /** How many of the first `n` pixels have their channel `c` in bin `b`. */
  function CountBelow(data: seq<Pixel>, c: Channel, b: int, n: nat): (k: nat)
    requires n <= |data|
    ensures k <= n
  {
    if n == 0 then 0
    else CountBelow(data, c, b, n - 1) + (if HistBin(ChannelValue(data[n - 1], c)) == b then 1 else 0)
  }

  /** The histogram of channel `c` over the first `n` pixels. */
  function HistogramPrefix(data: seq<Pixel>, c: Channel, n: nat): (h: seq<nat>)
    requires n <= |data|
    ensures |h| == BinCount
  {
    seq(BinCount, b => CountBelow(data, c, b, n))
  }

  /** The histogram of channel `c` over every pixel of the image. */
  function HistogramOf(data: seq<Pixel>, c: Channel): (h: seq<nat>)
    ensures |h| == BinCount
  {
    HistogramPrefix(data, c, |data|)
  }

  /** The quantised values of channel `c`, one per pixel. */
  function Bins(data: seq<Pixel>, c: Channel): (bins: seq<int>)
    ensures |bins| == |data|
  {
    seq(|data|, i requires 0 <= i < |data| => HistBin(ChannelValue(data[i], c)))
  }

  lemma {:induction false} CountBelowIsMultiplicity(data: seq<Pixel>, c: Channel, b: int, n: nat)
    requires n <= |data|
    ensures CountBelow(data, c, b, n) == multiset(Bins(data, c)[..n])[b]
  {
    if n > 0 {
      CountBelowIsMultiplicity(data, c, b, n - 1);
      var bins := Bins(data, c);
      assert bins[..n] == bins[..n - 1] + [bins[n - 1]];
    }
  }

  /** Entry `b` of the histogram is the number of pixels whose channel
      quantises to `b`. */
  lemma HistogramIsMultiplicity(data: seq<Pixel>, c: Channel, b: int)
    requires 0 <= b < BinCount
    ensures HistogramOf(data, c)[b] == multiset(Bins(data, c))[b]
  {
    CountBelowIsMultiplicity(data, c, b, |data|);
    assert Bins(data, c)[..|data|] == Bins(data, c);
  }

  /** Counting one more pixel adds one to exactly its own bin. */
  lemma HistogramPrefixStep(data: seq<Pixel>, c: Channel, n: nat)
    requires n < |data|
    requires InHistogramRange(ChannelValue(data[n], c))
    ensures var k := HistBin(ChannelValue(data[n], c));
            var prev := HistogramPrefix(data, c, n);
            HistogramPrefix(data, c, n + 1) == prev[k := prev[k] + 1]
  {
  }

  lemma {:induction false} HistogramPrefixTotal(data: seq<Pixel>, c: Channel, n: nat)
    requires n <= |data|
    requires forall i :: 0 <= i < n ==> InHistogramRange(ChannelValue(data[i], c))
    ensures Sum(HistogramPrefix(data, c, n)) == n
  {
    if n == 0 {
      SumOfZeros(HistogramPrefix(data, c, 0));
    } else {
      HistogramPrefixTotal(data, c, n - 1);
      var k := HistBin(ChannelValue(data[n - 1], c));
      var prev := HistogramPrefix(data, c, n - 1);
      HistogramPrefixStep(data, c, n - 1);
      SumUpdate(prev, k, prev[k] + 1);
    }
  }

  /** When every value is countable, the entries sum to the number of pixels. */
  lemma HistogramTotal(data: seq<Pixel>, c: Channel)
    requires forall i :: 0 <= i < |data| ==> InHistogramRange(ChannelValue(data[i], c))
    ensures Sum(HistogramOf(data, c)) == |data|
  {
    HistogramPrefixTotal(data, c, |data|);
  }

  /** The histogram of a channel sees only that channel. */
  lemma {:induction false} HistogramOfChannelOnly(d1: seq<Pixel>, d2: seq<Pixel>, c: Channel)
    requires |d1| == |d2|
    requires forall i :: 0 <= i < |d1| ==> ChannelValue(d1[i], c) == ChannelValue(d2[i], c)
    ensures HistogramOf(d1, c) == HistogramOf(d2, c)
  {
    forall b | 0 <= b < BinCount
      ensures CountBelow(d1, c, b, |d1|) == CountBelow(d2, c, b, |d2|)
    {
      CountBelowIsMultiplicity(d1, c, b, |d1|);
      CountBelowIsMultiplicity(d2, c, b, |d2|);
      assert Bins(d1, c) == Bins(d2, c);
    }
  }

  // ---------------------------------------------------------------------
  // Column-major traversal of a row-major image

  /** 1 when pixel (x, y) exists and its channel `c` is in bin `b`. */
  function Hit(data: seq<Pixel>, w: nat, c: Channel, b: int, x: nat, y: nat): nat
  {
    if x < w && w * y + x < |data| && HistBin(ChannelValue(data[w * y + x], c)) == b then 1 else 0
  }

  /** Hits in rows 0 .. n-1 of column x. */
  function ColumnCount(data: seq<Pixel>, w: nat, c: Channel, b: int, x: nat, n: nat): nat
  {
    if n == 0 then 0 else ColumnCount(data, w, c, b, x, n - 1) + Hit(data, w, c, b, x, n - 1)
  }

  /** Hits in columns 0 .. m-1, each taken over rows 0 .. h-1. */
  function ColumnsCount(data: seq<Pixel>, w: nat, h: nat, c: Channel, b: int, m: nat): nat
  {
    if m == 0 then 0 else ColumnsCount(data, w, h, c, b, m - 1) + ColumnCount(data, w, c, b, m - 1, h)
  }

  /** Hits in columns 0 .. n-1 of row y. */
  function RowCount(data: seq<Pixel>, w: nat, c: Channel, b: int, y: nat, n: nat): nat
  {
    if n == 0 then 0 else RowCount(data, w, c, b, y, n - 1) + Hit(data, w, c, b, n - 1, y)
  }

  /** Hits in rows 0 .. m-1, each taken over columns 0 .. n-1. */
  function RowsCount(data: seq<Pixel>, w: nat, c: Channel, b: int, m: nat, n: nat): nat
  {
    if m == 0 then 0 else RowsCount(data, w, c, b, m - 1, n) + RowCount(data, w, c, b, m - 1, n)
  }

  lemma {:induction false} RowsOfNoColumns(data: seq<Pixel>, w: nat, c: Channel, b: int, m: nat)
    ensures RowsCount(data, w, c, b, m, 0) == 0
  {
    if m > 0 {
      RowsOfNoColumns(data, w, c, b, m - 1);
    }
  }

  lemma {:induction false} AddColumn(data: seq<Pixel>, w: nat, c: Channel, b: int, m: nat, n: nat)
    ensures RowsCount(data, w, c, b, m, n + 1) == RowsCount(data, w, c, b, m, n) + ColumnCount(data, w, c, b, n, m)
  {
    if m > 0 {
      AddColumn(data, w, c, b, m - 1, n);
    }
  }

  /** Counting column by column gives the same as counting row by row. */
  lemma {:induction false} ColumnsThenRows(data: seq<Pixel>, w: nat, h: nat, c: Channel, b: int, m: nat)
    ensures ColumnsCount(data, w, h, c, b, m) == RowsCount(data, w, c, b, h, m)
  {
    if m == 0 {
      RowsOfNoColumns(data, w, c, b, h);
    } else {
      ColumnsThenRows(data, w, h, c, b, m - 1);
      AddColumn(data, w, c, b, h, m - 1);
    }
  }

  lemma {:induction false} RowSegment(data: seq<Pixel>, w: nat, c: Channel, b: int, y: nat, n: nat)
    requires n <= w && w * y + n <= |data|
    ensures CountBelow(data, c, b, w * y + n) == CountBelow(data, c, b, w * y) + RowCount(data, w, c, b, y, n)
  {
    if n > 0 {
      RowSegment(data, w, c, b, y, n - 1);
    }
  }

  lemma {:induction false} RowsArePrefix(data: seq<Pixel>, w: nat, c: Channel, b: int, m: nat)
    requires w * m <= |data|
    ensures RowsCount(data, w, c, b, m, w) == CountBelow(data, c, b, w * m)
  {
    if m > 0 {
      assert w * m == w * (m - 1) + w;
      RowsArePrefix(data, w, c, b, m - 1);
      RowSegment(data, w, c, b, m - 1, w);
    }
  }

  /** Visiting every column of every row of a valid image counts each pixel
      exactly once: the column-major count is the whole-image count. */
  lemma ColumnMajorCount(data: seq<Pixel>, w: nat, h: nat, c: Channel, b: int)
    requires |data| == w * h
    ensures ColumnsCount(data, w, h, c, b, w) == CountBelow(data, c, b, |data|)
  {
    ColumnsThenRows(data, w, h, c, b, w);
    RowsArePrefix(data, w, c, b, h);
  }

  /** The inner loop of `CalculateHistogram`: counts rows 0 .. height-1 of
      column `x`. */
  method CountColumn(image: Image, c: Channel, histogram: array<nat>, x: nat)
    requires image.Valid() && histogram.Length == BinCount && x < image.width
    requires forall i :: 0 <= i < |image.data| ==> InHistogramRange(ChannelValue(image.data[i], c))
    modifies histogram
    ensures forall b :: 0 <= b < BinCount ==>
              histogram[b] == old(histogram[b]) + ColumnCount(image.data, image.width, c, b, x, image.height)
  {
    var w, h := image.Width(), image.Height();
    ghost var data := image.data;
    var y := 0;
    while y < h
      invariant y <= h
      invariant forall b :: 0 <= b < BinCount ==>
                  histogram[b] == old(histogram[b]) + ColumnCount(data, w, c, b, x, y)
    {
      FlatIndexInRange(w, h, x, y);
      var pixel := image.GetPixel(x, y);
      assert InHistogramRange(ChannelValue(data[w * y + x], c));
      var bin := HistBin(ChannelValue(pixel, c));
      histogram[bin] := histogram[bin] + 1;
      y := y + 1;
    }
  }

  /** Adds, into `histogram`, one count per pixel of the whole image in the
      bin of its channel `c`, scanning column by column. The image is only
      read. */
  method CalculateHistogram(image: Image, c: Channel, histogram: array<nat>)
    requires image.Valid() && histogram.Length == BinCount
    requires forall i :: 0 <= i < |image.data| ==> InHistogramRange(ChannelValue(image.data[i], c))
    modifies histogram
    ensures forall b :: 0 <= b < BinCount ==> histogram[b] == old(histogram[b]) + HistogramOf(image.data, c)[b]
  {
    var w, h := image.Width(), image.Height();
    ghost var data := image.data;
    var x := 0;
    while x < w
      invariant x <= w
      invariant forall b :: 0 <= b < BinCount ==>
                  histogram[b] == old(histogram[b]) + ColumnsCount(data, w, h, c, b, x)
    {
      CountColumn(image, c, histogram, x);
      x := x + 1;
    }
    forall b | 0 <= b < BinCount
      ensures histogram[b] == old(histogram[b]) + HistogramOf(data, c)[b]
    {
      ColumnMajorCount(data, w, h, c, b);
    }
  }

  // ---------------------------------------------------------------------
  // Cumulative histogram

  /** Entry i of the cumulative histogram is the sum of entries 0 .. i. */
  function Cumulative(h: seq<nat>): (cfh: seq<nat>)
    ensures |cfh| == |h|
  {
    seq(|h|, i requires 0 <= i < |h| => Sum(h[..i + 1]))
  }

  /** Each entry is the previous one plus the histogram's own entry. */
  lemma CumulativeStep(h: seq<nat>, i: nat)
    requires i < |h|
    ensures Cumulative(h)[i] == (if i == 0 then 0 else Cumulative(h)[i - 1]) + h[i]
  {
    var prefix := h[..i + 1];
    assert prefix[..i] == h[..i];
    assert Cumulative(h)[i] == Sum(prefix) == Sum(h[..i]) + h[i];
    if i > 0 {
      assert Cumulative(h)[i - 1] == Sum(h[..i]);
    }
  }

  /** The cumulative histogram never decreases. */
  lemma {:induction false} CumulativeMonotone(h: seq<nat>, i: nat, j: nat)
    requires i <= j < |h|
    ensures Cumulative(h)[i] <= Cumulative(h)[j]
  {
    if i < j {
      CumulativeMonotone(h, i, j - 1);
      CumulativeStep(h, j);
    }
  }

  /** The last entry is the histogram's total. */
  lemma CumulativeLast(h: seq<nat>)
    requires |h| > 0
    ensures Cumulative(h)[|h| - 1] == Sum(h)
  {
    assert h[..|h|] == h;
  }

  /** No entry exceeds the histogram's total. */
  lemma CumulativeBounded(h: seq<nat>, i: nat)
    requires i < |h|
    ensures Cumulative(h)[i] <= Sum(h)
  {
    CumulativeMonotone(h, i, |h| - 1);
    CumulativeLast(h);
  }

  /** Writes the running sum of `histogram` into `cfh`. */
  method CalculateCfh(histogram: seq<nat>, cfh: array<nat>)
    requires |histogram| == BinCount && cfh.Length == BinCount
    modifies cfh
    ensures cfh[..] == Cumulative(histogram)
  {
    var sum: nat := 0;
    var i := 0;
    while i < |histogram|
      invariant i <= |histogram|
      invariant sum == Sum(histogram[..i])
      invariant forall k :: 0 <= k < i ==> cfh[k] == Sum(histogram[..k + 1])
    {
      assert histogram[..i + 1][..i] == histogram[..i];
      sum := sum + histogram[i];
      cfh[i] := sum;
      i := i + 1;
    }
  }
}
