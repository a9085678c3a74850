/** Histogram equalization of the three channels of an image inside a
    rectangular region of interest, in place. */
module Equalization {
  import opened Images
  import opened Histograms

  /** A region of interest: top-left corner and size, in pixels. */
  datatype Rect = Rect(x: nat, y: nat, width: nat, height: nat)

  /** The region lies inside a `w` by `h` image. */
  predicate RoiInside(roi: Rect, w: nat, h: nat)
  {
    roi.x + roi.width <= w && roi.y + roi.height <= h
  }

  /** Flat index `i` of an image of width `w` is a pixel of the region. */
  predicate InRoi(roi: Rect, w: nat, i: nat)
  {
    w > 0 &&
    roi.x <= Col(w, i) < roi.x + roi.width &&
    roi.y <= Row(w, i) < roi.y + roi.height
  }

  /** The new channel value: the cumulative count at the value's lookup bin,
      as a fraction of the image's pixel count. */
  function Remap(v: real, cfh: seq<nat>, area: nat): (r: real)
    requires area > 0 && 0 <= LookupBin(v) < |cfh|
    ensures 0.0 <= r
    ensures cfh[LookupBin(v)] <= area ==> r <= 1.0
    ensures cfh[LookupBin(v)] == area ==> r == 1.0
  {
    cfh[LookupBin(v)] as real / area as real
  }

  /** The cumulative histogram of channel `c` over the whole image. */
  function ChannelCfh(data: seq<Pixel>, c: Channel): (cfh: seq<nat>)
    ensures |cfh| == BinCount
  {
    Cumulative(HistogramOf(data, c))
  }

  /** Every entry of a channel's cumulative histogram is at most the image's
      pixel count. */
  lemma ChannelCfhBounded(data: seq<Pixel>, c: Channel, k: nat)
    requires forall i :: 0 <= i < |data| ==> InHistogramRange(ChannelValue(data[i], c))
    requires k < BinCount
    ensures ChannelCfh(data, c)[k] <= |data|
  {
    HistogramTotal(data, c);
    CumulativeBounded(HistogramOf(data, c), k);
  }

  /** The value a countable channel value `v` takes after its channel `c`
      is equalized against the whole image `data`. */
  function EqualizedValue(data: seq<Pixel>, c: Channel, v: real): real
    requires |data| > 0 && InHistogramRange(v)
  {
    LookupBinInRange(v);
    Remap(v, ChannelCfh(data, c), |data|)
  }

  /** An equalized value of a countable image lies in [0, 1]. */
  lemma EqualizedInUnitInterval(data: seq<Pixel>, c: Channel, v: real)
    requires |data| > 0
    requires forall i :: 0 <= i < |data| ==> InHistogramRange(ChannelValue(data[i], c))
    requires InHistogramRange(v)
    ensures 0.0 <= EqualizedValue(data, c, v) <= 1.0
  {
    LookupBinInRange(v);
    ChannelCfhBounded(data, c, LookupBin(v));
  }

  /** Equalization keeps the order of channel values. */
  lemma EqualizedMonotone(data: seq<Pixel>, c: Channel, v1: real, v2: real)
    requires |data| > 0
    requires InHistogramRange(v1) && InHistogramRange(v2) && v1 <= v2
    ensures EqualizedValue(data, c, v1) <= EqualizedValue(data, c, v2)
  {
    LookupBinInRange(v1);
    LookupBinInRange(v2);
    BinsMonotone(v1, v2);
    var cfh := ChannelCfh(data, c);
    CumulativeMonotone(HistogramOf(data, c), LookupBin(v1), LookupBin(v2));
    QuotientMonotone(cfh[LookupBin(v1)], cfh[LookupBin(v2)], |data|);
  }

  lemma QuotientMonotone(a: nat, b: nat, n: nat)
    requires a <= b && n > 0
    ensures a as real / n as real <= b as real / n as real
  {
  }

  lemma {:induction false} UniformCount(data: seq<Pixel>, c: Channel, v: real, b: int, n: nat)
    requires n <= |data|
    requires forall i :: 0 <= i < |data| ==> ChannelValue(data[i], c) == v
    ensures CountBelow(data, c, b, n) == if b == HistBin(v) then n else 0
  {
    if n > 0 {
      UniformCount(data, c, v, b, n - 1);
    }
  }

  lemma {:induction false} SingleBinCumulative(h: seq<nat>, m: nat, total: nat, i: nat)
    requires m < |h| && i < |h|
    requires forall k :: 0 <= k < |h| ==> h[k] == if k == m then total else 0
    ensures Cumulative(h)[i] == if i >= m then total else 0
  {
    CumulativeStep(h, i);
    if i > 0 {
      SingleBinCumulative(h, m, total, i - 1);
    }
  }

  /** When a channel holds one value everywhere, its histogram has one
      occupied bin and every pixel maps to 1 if its lookup bin reaches that
      bin and to 0 otherwise. */
  lemma UniformChannel(data: seq<Pixel>, c: Channel, v: real)
    requires |data| > 0 && InHistogramRange(v)
    requires forall i :: 0 <= i < |data| ==> ChannelValue(data[i], c) == v
    ensures EqualizedValue(data, c, v) == if LookupBin(v) >= HistBin(v) then 1.0 else 0.0
  {
    LookupBinInRange(v);
    var h := HistogramOf(data, c);
    forall k | 0 <= k < |h|
      ensures h[k] == if k == HistBin(v) then |data| else 0
    {
      UniformCount(data, c, v, k, |data|);
    }
    SingleBinCumulative(h, HistBin(v), |data|, LookupBin(v));
  }

  /** A channel that is 0.5 everywhere becomes 1 everywhere. */
  lemma UniformHalfBecomesOne(data: seq<Pixel>, c: Channel)
    requires |data| > 0
    requires forall i :: 0 <= i < |data| ==> ChannelValue(data[i], c) == 0.5
    ensures EqualizedValue(data, c, 0.5) == 1.0
  {
    UniformChannel(data, c, 0.5);
  }

  /** A channel that holds the same 8-bit level n/255, 0 < n < 255, everywhere
      becomes 0 everywhere: the lookup bin is one below the only occupied bin. */
  lemma UniformByteLevelBecomesZero(data: seq<Pixel>, c: Channel, n: nat)
    requires |data| > 0 && 0 < n < 255
    requires forall i :: 0 <= i < |data| ==> ChannelValue(data[i], c) == n as real / 255.0
    ensures EqualizedValue(data, c, n as real / 255.0) == 0.0
  {
    ByteLevelBins(n);
    UniformChannel(data, c, n as real / 255.0);
  }

  /** Rewrites channel `c` of every pixel of the region to its remapped value,
      in place; every other pixel and channel is left alone. */
  method EqualizeChannel(image: Image, roi: Rect, c: Channel, cfh: seq<nat>)
    requires image.Valid() && RoiInside(roi, image.width, image.height) && |cfh| == BinCount
    requires forall i :: 0 <= i < |image.data| && InRoi(roi, image.width, i) ==>
               0 <= LookupBin(ChannelValue(image.data[i], c)) < BinCount
    modifies image
    ensures image.Valid()
    ensures image.width == old(image.width) && image.height == old(image.height)
    ensures |image.data| == old(|image.data|)
    ensures forall i :: 0 <= i < |image.data| ==>
              image.data[i] == if InRoi(roi, image.width, i)
                               then WithChannel(old(image.data[i]), c, Remap(ChannelValue(old(image.data[i]), c), cfh, |image.data|))
                               else old(image.data[i])
  {
    ghost var orig := image.data;
    var w, h := image.Width(), image.Height();
    var x := roi.x;
    while x < roi.x + roi.width
      invariant roi.x <= x <= roi.x + roi.width
      invariant image.width == w && image.height == h && |image.data| == |orig| && image.Valid()
      invariant forall i :: 0 <= i < |orig| ==>
                  image.data[i] == if InRoi(roi, w, i) && Col(w, i) < x
                                   then WithChannel(orig[i], c, Remap(ChannelValue(orig[i], c), cfh, |orig|))
                                   else orig[i]
    {
      var y := roi.y;
      while y < roi.y + roi.height
        invariant roi.y <= y <= roi.y + roi.height
        invariant image.width == w && image.height == h && |image.data| == |orig| && image.Valid()
        invariant forall i :: 0 <= i < |orig| ==>
                    image.data[i] == if InRoi(roi, w, i) && (Col(w, i) < x || (Col(w, i) == x && Row(w, i) < y))
                                     then WithChannel(orig[i], c, Remap(ChannelValue(orig[i], c), cfh, |orig|))
                                     else orig[i]
      {
        FlatIndexInRange(w, h, x, y);
        FlatIndexCoords(w, x, y);
        var pixel := image.GetPixel(x, y);
        var v := ChannelValue(pixel, c);
        pixel := WithChannel(pixel, c, cfh[LookupBin(v)] as real / image.Area() as real);
        image.SetPixel(x, y, pixel);
        y := y + 1;
      }
      x := x + 1;
    }
  }

  /** Channels numbered below `n` of the region's pixels hold their
      equalized values; everything else holds the original values. */
  ghost predicate EqualizedUpTo(orig: seq<Pixel>, cur: seq<Pixel>, roi: Rect, w: nat, n: nat)
    requires forall i, d :: 0 <= i < |orig| ==> InHistogramRange(ChannelValue(orig[i], d))
  {
    |cur| == |orig| &&
    forall i, d :: 0 <= i < |orig| ==>
      ChannelValue(cur[i], d) ==
        if InRoi(roi, w, i) && Index(d) < n
        then EqualizedValue(orig, d, ChannelValue(orig[i], d))
        else ChannelValue(orig[i], d)
  }

  /** One pass of `EqualizeChannel` with the channel's own cumulative
      histogram moves the equalization on by one channel. */
  lemma ChannelPassStep(orig: seq<Pixel>, before: seq<Pixel>, after: seq<Pixel>, roi: Rect, w: nat, ch: nat)
    requires ch < 3
    requires forall i, d :: 0 <= i < |orig| ==> InHistogramRange(ChannelValue(orig[i], d))
    requires EqualizedUpTo(orig, before, roi, w, ch)
    requires |after| == |before|
    requires forall i :: 0 <= i < |before| ==>
               after[i] == if InRoi(roi, w, i)
                           then WithChannel(before[i], ChannelOf(ch), Remap(ChannelValue(before[i], ChannelOf(ch)), ChannelCfh(orig, ChannelOf(ch)), |before|))
                           else before[i]
    ensures EqualizedUpTo(orig, after, roi, w, ch + 1)
  {
  }

  /** After all three passes, every channel of the region is equalized and
      the pixels outside the region are untouched. */
  lemma AllChannelsEqualized(orig: seq<Pixel>, cur: seq<Pixel>, roi: Rect, w: nat)
    requires forall i, d :: 0 <= i < |orig| ==> InHistogramRange(ChannelValue(orig[i], d))
    requires EqualizedUpTo(orig, cur, roi, w, 3)
    ensures forall i, d :: 0 <= i < |orig| ==>
              ChannelValue(cur[i], d) ==
                if InRoi(roi, w, i) then EqualizedValue(orig, d, ChannelValue(orig[i], d))
                else ChannelValue(orig[i], d)
    ensures forall i :: 0 <= i < |orig| && !InRoi(roi, w, i) ==> cur[i] == orig[i]
    ensures forall i, d :: 0 <= i < |orig| && InRoi(roi, w, i) ==> 0.0 <= ChannelValue(cur[i], d) <= 1.0
  {
    forall i, d | 0 <= i < |orig|
      ensures ChannelValue(cur[i], d) ==
                if InRoi(roi, w, i) then EqualizedValue(orig, d, ChannelValue(orig[i], d))
                else ChannelValue(orig[i], d)
    {
      assert Index(d) < 3;
    }
    forall i, d | 0 <= i < |orig| && InRoi(roi, w, i)
      ensures 0.0 <= ChannelValue(cur[i], d) <= 1.0
    {
      EqualizedInUnitInterval(orig, d, ChannelValue(orig[i], d));
    }
    forall i | 0 <= i < |orig| && !InRoi(roi, w, i)
      ensures cur[i] == orig[i]
    {
      assert ChannelValue(cur[i], R) == ChannelValue(orig[i], R);
      assert ChannelValue(cur[i], G) == ChannelValue(orig[i], G);
      assert ChannelValue(cur[i], B) == ChannelValue(orig[i], B);
    }
  }

  /** Equalizes the red, green and blue channels of the region in turn, each
      from its own histogram over the whole image. */
  method DoHistogramEqualization(image: Image, roi: Rect)
    requires image.Valid() && RoiInside(roi, image.width, image.height)
    requires forall i, c :: 0 <= i < |image.data| ==> InHistogramRange(ChannelValue(image.data[i], c))
    modifies image
    ensures image.Valid()
    ensures image.width == old(image.width) && image.height == old(image.height)
    ensures |image.data| == old(|image.data|)
    ensures forall i, c :: 0 <= i < |image.data| ==>
              ChannelValue(image.data[i], c) ==
                if InRoi(roi, image.width, i)
                then EqualizedValue(old(image.data), c, ChannelValue(old(image.data[i]), c))
                else ChannelValue(old(image.data[i]), c)
    ensures forall i :: 0 <= i < |image.data| && !InRoi(roi, image.width, i) ==> image.data[i] == old(image.data[i])
    ensures forall i, c :: 0 <= i < |image.data| && InRoi(roi, image.width, i) ==>
              0.0 <= ChannelValue(image.data[i], c) <= 1.0
    ensures roi.width == 0 || roi.height == 0 ==> image.data == old(image.data)
  {
    ghost var orig := image.data;
    var w := image.Width();
    for ch := 0 to 3
      invariant image.Valid() && image.width == old(image.width) && image.height == old(image.height)
      invariant EqualizedUpTo(orig, image.data, roi, w, ch)
    {
      var c := ChannelOf(ch);
      ghost var before := image.data;
      var hist := new nat[BinCount](_ => 0);
      var cfh := new nat[BinCount](_ => 0);
      CalculateHistogram(image, c, hist);
      HistogramOfChannelOnly(before, orig, c);
      assert hist[..] == HistogramOf(orig, c);
      CalculateCfh(hist[..], cfh);
      forall i | 0 <= i < |before| && InRoi(roi, w, i)
        ensures 0 <= LookupBin(ChannelValue(before[i], c)) < BinCount
      {
        LookupBinInRange(ChannelValue(orig[i], c));
      }
      EqualizeChannel(image, roi, c, cfh[..]);
      ChannelPassStep(orig, before, image.data, roi, w, ch);
    }
    AllChannelsEqualized(orig, image.data, roi, w);
  }
}
