/** What is built on the regions: the area filter, the kept-region list and the pixel metrics. */
module PixelComparison {
  import opened Common
  import opened AssetRegions

  // ---- The regions are unique, and are the components ----

  lemma {:induction false} PathStays(mask: seq<bool>, width: nat, r: Region, path: seq<nat>)
    requires width > 0 && IsRegion(mask, width, r)
    requires IsPath(mask, width, path) && path[0] in r.pixels
    ensures path[|path| - 1] in r.pixels
  {
    if |path| > 1 {
      assert Adjacent(width, path[0], path[1]) && Lit(mask, path[1]);
      assert forall k :: 0 < k < |path[1..]| ==> path[1..][k] == path[k + 1] && path[1..][k - 1] == path[k];
      PathStays(mask, width, r, path[1..]);
    }
  }

  /** A region lists the whole component of each of its pixels, and nothing else. */
  lemma {:induction false} RegionIsComponent(mask: seq<bool>, width: nat, r: Region, p: nat)
    requires width > 0 && IsRegion(mask, width, r) && p in r.pixels
    ensures Elements(r.pixels) == Component(mask, width, p)
    ensures |r.pixels| == |Component(mask, width, p)|
  {
    var first := r.pixels[0];
    forall q: nat | q in r.pixels ensures Connected(mask, width, p, q) {
      ConnectedSymmetric(mask, width, first, p);
      ConnectedTransitive(mask, width, p, first, q);
    }
    forall q: nat | q < |mask| && Connected(mask, width, p, q) ensures q in r.pixels {
      var path :| IsPath(mask, width, path) && path[0] == p && path[|path| - 1] == q;
      PathStays(mask, width, r, path);
    }
  }

  /** Two pixels share a region exactly when a walk over lit pixels joins them. */
  lemma {:induction false} SameRegionIffConnected(mask: seq<bool>, width: nat, regions: seq<Region>, p: nat, q: nat)
    requires AreRegions(mask, width, regions) && Lit(mask, p)
    ensures (exists k :: 0 <= k < |regions| && p in regions[k].pixels && q in regions[k].pixels)
            <==> Connected(mask, width, p, q)
  {
    assert Owned(regions, p);
    var k :| 0 <= k < |regions| && p in regions[k].pixels;
    RegionIsComponent(mask, width, regions[k], p);
    if Connected(mask, width, p, q) {
      var path :| IsPath(mask, width, path) && path[0] == p && path[|path| - 1] == q;
      assert Lit(mask, path[|path| - 1]);
      assert q in Component(mask, width, p);
    }
    forall l | 0 <= l < |regions| && p in regions[l].pixels ensures l == k {
      assert !(l < k) && !(k < l);
    }
  }

  ghost function Firsts(regions: seq<Region>): (s: seq<nat>)
    requires forall k :: 0 <= k < |regions| ==> regions[k].pixels != []
  {
    seq(|regions|, k requires 0 <= k < |regions| => regions[k].pixels[0])
  }

  ghost predicate Increasing(s: seq<nat>) {
    forall k, l :: 0 <= k < l < |s| ==> s[k] < s[l]
  }

  lemma {:induction false} IncreasingIsDetermined(s: seq<nat>, t: seq<nat>)
    requires Increasing(s) && Increasing(t)
    requires forall x :: x in s <==> x in t
    ensures s == t
  {
    if s == [] {
      assert forall k :: 0 <= k < |t| ==> t[k] in t;
    } else {
      assert s[0] in t && t != [];
      assert t[0] in s;
      var k :| 0 <= k < |t| && t[k] == s[0];
      var l :| 0 <= l < |s| && s[l] == t[0];
      assert s[0] == t[0];
      forall x ensures x in s[1..] <==> x in t[1..] {
        if x in s[1..] { assert x in t && x != t[0]; }
        if x in t[1..] { assert x in s && x != s[0]; }
      }
      IncreasingIsDetermined(s[1..], t[1..]);
    }
  }

  lemma {:induction false} FirstsIncluded(mask: seq<bool>, width: nat, rs: seq<Region>, ss: seq<Region>, x: nat)
    requires AreRegions(mask, width, rs) && AreRegions(mask, width, ss)
    requires x in Firsts(rs)
    ensures x in Firsts(ss)
  {
    var k :| 0 <= k < |rs| && rs[k].pixels[0] == x;
    assert x in rs[k].pixels && Lit(mask, x);
    assert Owned(ss, x);
    var l :| 0 <= l < |ss| && x in ss[l].pixels;
    RegionIsComponent(mask, width, rs[k], x);
    RegionIsComponent(mask, width, ss[l], x);
    var y := ss[l].pixels[0];
    assert y in Elements(ss[l].pixels) && y in rs[k].pixels;
    assert Firsts(ss)[l] == x;
  }

  lemma {:induction false} RegionsHaveFirsts(mask: seq<bool>, width: nat, rs: seq<Region>)
    requires AreRegions(mask, width, rs)
    ensures (rs != [] ==> width > 0) && forall k :: 0 <= k < |rs| ==> rs[k].pixels != [] && IsRegion(mask, width, rs[k])
    ensures Increasing(Firsts(rs)) && |Firsts(rs)| == |rs| && forall k :: 0 <= k < |rs| ==> Firsts(rs)[k] == rs[k].pixels[0]
  {
    assert forall k :: 0 <= k < |rs| ==> IsRegion(mask, width, rs[k]);
  }

  lemma {:induction false} FirstsAgree(mask: seq<bool>, width: nat, rs: seq<Region>, ss: seq<Region>)
    requires AreRegions(mask, width, rs) && AreRegions(mask, width, ss)
    requires forall k :: 0 <= k < |rs| ==> rs[k].pixels != []
    requires forall k :: 0 <= k < |ss| ==> ss[k].pixels != []
    ensures Firsts(rs) == Firsts(ss)
  {
    RegionsHaveFirsts(mask, width, rs);
    RegionsHaveFirsts(mask, width, ss);
    hide AreRegions, IsRegion, Increasing, Firsts;
    forall x: nat ensures x in Firsts(rs) <==> x in Firsts(ss) {
      if x in Firsts(rs) { FirstsIncluded(mask, width, rs, ss, x); }
      if x in Firsts(ss) { FirstsIncluded(mask, width, ss, rs, x); }
    }
    IncreasingIsDetermined(Firsts(rs), Firsts(ss));
  }

  /** The specification leaves no freedom: same number of regions, in the same order, with the
      same pixels and the same boxes. */
  lemma {:induction false} RegionsAreUnique(mask: seq<bool>, width: nat, rs: seq<Region>, ss: seq<Region>)
    requires AreRegions(mask, width, rs) && AreRegions(mask, width, ss)
    ensures |rs| == |ss|
    ensures forall k :: 0 <= k < |rs| ==> Elements(rs[k].pixels) == Elements(ss[k].pixels) && rs[k].box == ss[k].box
  {
    hide AreRegions, IsRegion, Increasing, Firsts, Elements;
    RegionsHaveFirsts(mask, width, rs);
    RegionsHaveFirsts(mask, width, ss);
    FirstsAgree(mask, width, rs, ss);
    forall k | 0 <= k < |rs| ensures Elements(rs[k].pixels) == Elements(ss[k].pixels) && rs[k].box == ss[k].box {
      SameFirstSameRegion(mask, width, rs[k], ss[k]);
    }
  }

  lemma {:induction false} SameFirstSameRegion(mask: seq<bool>, width: nat, r: Region, s: Region)
    requires width > 0 && IsRegion(mask, width, r) && IsRegion(mask, width, s) && r.pixels[0] == s.pixels[0]
    ensures Elements(r.pixels) == Elements(s.pixels) && r.box == s.box
  {
    var x := r.pixels[0];
    assert x in r.pixels && x in s.pixels;
    RegionIsComponent(mask, width, r, x);
    RegionIsComponent(mask, width, s, x);
    hide Component, TightBox;
    TightBoxesAgree(width, r, s);
  }

  lemma {:induction false} TightBoxesAgree(width: nat, r: Region, s: Region)
    requires width > 0 && Elements(r.pixels) == Elements(s.pixels)
    requires TightBox(width, r.pixels, r.box) && TightBox(width, s.pixels, s.box)
    ensures r.box == s.box
  {
    assert forall p: nat :: p in r.pixels <==> p in Elements(r.pixels);
    assert forall p: nat :: p in s.pixels <==> p in Elements(s.pixels);
    BoxWithin(width, r, s);
    BoxWithin(width, s, r);
  }

  lemma {:induction false} BoxWithin(width: nat, r: Region, s: Region)
    requires width > 0 && forall p :: p in r.pixels ==> p in s.pixels
    requires TightBox(width, r.pixels, r.box) && TightBox(width, s.pixels, s.box)
    ensures s.box.minX <= r.box.minX && r.box.maxX <= s.box.maxX
    ensures s.box.minY <= r.box.minY && r.box.maxY <= s.box.maxY
  {}

  // ---- filter_regions ----

  ghost function Filtered(mask: seq<bool>, width: nat, minArea: nat): (f: seq<bool>)
    ensures |f| == |mask|
    ensures forall i: nat :: i < |mask| ==> (f[i] <==> mask[i] && |Component(mask, width, i)| >= minArea)
  {
    seq(|mask|, i requires 0 <= i < |mask| => mask[i] && |Component(mask, width, i)| >= minArea)
  }

  method FilterRegions(mask: seq<bool>, width: nat, height: nat, minArea: nat) returns (filtered: seq<bool>)
    requires width * height == |mask|
    ensures filtered == Filtered(mask, width, minArea)
  {
    if minArea <= 1 {
      SmallestArea(mask, width, minArea);
      return mask;
    }
    var regions := CollectRegions(mask, width, height);
    PixelsFit(mask, width, regions);
    LargeOwnersAreLargeComponents(mask, width, regions, minArea);
    hide AreRegions, Component, OwnedByLarge;
    filtered := MarkLarge(|mask|, regions, minArea);
  }

  method MarkLarge(n: nat, regions: seq<Region>, minArea: nat) returns (marked: seq<bool>)
    requires forall k, p :: 0 <= k < |regions| && p in regions[k].pixels ==> p < n
    ensures |marked| == n && forall i: nat :: i < n ==> (marked[i] <==> OwnedByLarge(regions, minArea, i))
  {
    var result := new bool[n](_ => false);
    assert forall i: nat :: !OwnedByLarge(regions[..0], minArea, i);
    hide OwnedByLarge;
    for k := 0 to |regions|
      invariant forall i: nat :: i < n ==> (result[i] <==> OwnedByLarge(regions[..k], minArea, i))
    {
      var r := regions[k];
      assert regions[..k + 1] == regions[..k] + [r];
      OwnedByLargeSnoc(regions[..k], minArea, r);
      if |r.pixels| >= minArea {
        Mark(result, r.pixels);
      }
    }
    marked := result[..];
    assert regions[..|regions|] == regions;
  }

  lemma {:induction false} SmallestArea(mask: seq<bool>, width: nat, minArea: nat)
    requires minArea <= 1
    ensures mask == Filtered(mask, width, minArea)
  {
    forall i: nat | i < |mask| && mask[i] ensures |Component(mask, width, i)| >= 1 {
      ConnectedSelf(mask, width, i);
      assert i in Component(mask, width, i);
      SubsetSize({i}, Component(mask, width, i));
    }
    hide Component;
  }

  lemma {:induction false} PixelsFit(mask: seq<bool>, width: nat, regions: seq<Region>)
    requires AreRegions(mask, width, regions)
    ensures forall k, p :: 0 <= k < |regions| && p in regions[k].pixels ==> p < |mask|
  {
    forall k, p | 0 <= k < |regions| && p in regions[k].pixels ensures p < |mask| {
      assert IsRegion(mask, width, regions[k]) && Lit(mask, p);
    }
  }

  /** The inner loop: sets the mask at every listed pixel. */
  method Mark(result: array<bool>, pixels: seq<nat>)
    requires forall p :: p in pixels ==> p < result.Length
    modifies result
    ensures forall i: nat :: i < result.Length ==> (result[i] <==> old(result[i]) || i in pixels)
  {
    for j := 0 to |pixels|
      invariant forall i: nat :: i < result.Length ==> (result[i] <==> old(result[i]) || i in pixels[..j])
    {
      assert pixels[..j + 1] == pixels[..j] + [pixels[j]] && pixels[j] in pixels;
      result[pixels[j]] := true;
    }
    assert pixels[..|pixels|] == pixels;
  }

  ghost predicate OwnedByLarge(regions: seq<Region>, minArea: nat, p: nat) {
    exists k :: 0 <= k < |regions| && |regions[k].pixels| >= minArea && p in regions[k].pixels
  }

  lemma {:induction false} OwnedByLargeSnoc(regions: seq<Region>, minArea: nat, r: Region)
    ensures forall i: nat :: OwnedByLarge(regions + [r], minArea, i) <==>
                               OwnedByLarge(regions, minArea, i) || (|r.pixels| >= minArea && i in r.pixels)
  {
    var all := regions + [r];
    assert all[|regions|] == r;
    forall i: nat | OwnedByLarge(regions, minArea, i) ensures OwnedByLarge(all, minArea, i) {
      var k :| 0 <= k < |regions| && |regions[k].pixels| >= minArea && i in regions[k].pixels;
      assert all[k] == regions[k];
    }
  }

  lemma {:induction false} LargeOwnersAreLargeComponents(mask: seq<bool>, width: nat, regions: seq<Region>, minArea: nat)
    requires AreRegions(mask, width, regions)
    ensures forall i: nat :: OwnedByLarge(regions, minArea, i) <==>
                               Lit(mask, i) && |Component(mask, width, i)| >= minArea
  {
    forall i: nat ensures OwnedByLarge(regions, minArea, i) <==> Lit(mask, i) && |Component(mask, width, i)| >= minArea {
      if Lit(mask, i) {
        assert Owned(regions, i);
        var k :| 0 <= k < |regions| && i in regions[k].pixels;
        RegionIsComponent(mask, width, regions[k], i);
        forall l | 0 <= l < |regions| && i in regions[l].pixels ensures l == k {
          assert !(l < k) && !(k < l);
        }
      } else {
        assert !Owned(regions, i);
      }
    }
  }

  lemma {:induction false} ComponentShared(mask: seq<bool>, width: nat, a: nat, b: nat)
    requires Connected(mask, width, a, b)
    ensures Component(mask, width, a) == Component(mask, width, b)
  {
    ConnectedSymmetric(mask, width, a, b);
    forall j: nat | j < |mask| ensures Connected(mask, width, a, j) <==> Connected(mask, width, b, j) {
      if Connected(mask, width, a, j) { ConnectedTransitive(mask, width, b, a, j); }
      if Connected(mask, width, b, j) { ConnectedTransitive(mask, width, a, b, j); }
    }
  }

  lemma {:induction false} PrefixConnected(mask: seq<bool>, width: nat, path: seq<nat>, k: nat)
    requires IsPath(mask, width, path) && k < |path|
    ensures Connected(mask, width, path[0], path[k])
  {
    assert IsPath(mask, width, path[..k + 1]);
  }

  /** A component that passes the filter passes it whole. */
  lemma {:induction false} SurvivingComponent(mask: seq<bool>, width: nat, minArea: nat, i: nat)
    requires Lit(Filtered(mask, width, minArea), i)
    ensures Component(Filtered(mask, width, minArea), width, i) == Component(mask, width, i)
  {
    var f := Filtered(mask, width, minArea);
    forall j: nat | j < |mask| ensures Connected(f, width, i, j) <==> Connected(mask, width, i, j) {
      if Connected(f, width, i, j) {
        var path :| IsPath(f, width, path) && path[0] == i && path[|path| - 1] == j;
        assert forall k :: 0 <= k < |path| ==> Lit(f, path[k]) ==> Lit(mask, path[k]);
        assert IsPath(mask, width, path);
      }
      if Connected(mask, width, i, j) {
        var path :| IsPath(mask, width, path) && path[0] == i && path[|path| - 1] == j;
        forall k | 0 <= k < |path| ensures Lit(f, path[k]) {
          PrefixConnected(mask, width, path, k);
          ComponentShared(mask, width, i, path[k]);
          assert Lit(mask, path[k]);
        }
        assert IsPath(f, width, path);
      }
    }
  }

  /** Filtering twice is filtering once at the larger area. With equal areas: filtering is idempotent. */
  lemma {:induction false} FilterComposes(mask: seq<bool>, width: nat, a: nat, b: nat)
    ensures Filtered(Filtered(mask, width, a), width, b) == Filtered(mask, width, if a >= b then a else b)
  {
    var f := Filtered(mask, width, a);
    forall i: nat | i < |mask| && f[i] ensures |Component(f, width, i)| == |Component(mask, width, i)| {
      assert Lit(f, i);
      SurvivingComponent(mask, width, a, i);
    }
  }

  // ---- Kept regions and the pixel counts ----

  function CountTrue(mask: seq<bool>): nat {
    if mask == [] then 0 else CountTrue(mask[..|mask| - 1]) + (if mask[|mask| - 1] then 1 else 0)
  }

  /** The regions reported: at least `max(region_min_area, 1)` pixels, order kept. */
  function KeptRegions(regions: seq<Region>, minArea: nat): seq<Region> {
    if regions == [] then []
    else
      var rest := KeptRegions(regions[..|regions| - 1], minArea);
      var last := regions[|regions| - 1];
      if |last.pixels| >= (if minArea > 1 then minArea else 1) then rest + [last] else rest
  }

  function PixelTotal(regions: seq<Region>): nat {
    if regions == [] then 0 else PixelTotal(regions[..|regions| - 1]) + |regions[|regions| - 1].pixels|
  }

  ghost function LitSet(mask: seq<bool>): (s: set<nat>)
    ensures forall i: nat :: i in s <==> Lit(mask, i)
    ensures |s| == CountTrue(mask)
  {
    if mask == [] then {}
    else
      var n := |mask| - 1;
      var front := LitSet(mask[..n]);
      assert n !in front && |front + {n}| == |front| + 1;
      front + (if mask[n] then {n} else {})
  }

  ghost function KeptPixels(regions: seq<Region>, minArea: nat): (s: set<nat>)
    ensures forall i: nat :: i in s <==> OwnedByLarge(regions, minArea, i)
  {
    if regions == [] then {}
    else
      var last := regions[|regions| - 1];
      assert regions == regions[..|regions| - 1] + [last];
      OwnedByLargeSnoc(regions[..|regions| - 1], minArea, last);
      KeptPixels(regions[..|regions| - 1], minArea) + (if |last.pixels| >= minArea then Elements(last.pixels) else {})
  }

  ghost predicate AllProper(regions: seq<Region>) {
    forall k :: 0 <= k < |regions| ==> regions[k].pixels != [] && NoDuplicates(regions[k].pixels)
  }

  lemma {:induction false} KeptStep(regions: seq<Region>, minArea: nat)
    requires regions != [] && AllProper(regions)
    ensures var n := |regions| - 1;
            var kept, large := KeptRegions(regions[..n], minArea), |regions[n].pixels| >= minArea;
            && PixelTotal(KeptRegions(regions, minArea)) == PixelTotal(kept) + (if large then |regions[n].pixels| else 0)
            && KeptPixels(regions, minArea) == KeptPixels(regions[..n], minArea) + (if large then Elements(regions[n].pixels) else {})
  {
    var kept := KeptRegions(regions[..|regions| - 1], minArea);
    assert (kept + [regions[|regions| - 1]])[..|kept|] == kept;
  }

  lemma {:induction false} LastIsApart(regions: seq<Region>, minArea: nat)
    requires regions != [] && Disjoint(regions) && AllProper(regions)
    ensures var n := |regions| - 1;
            && Disjoint(regions[..n]) && AllProper(regions[..n])
            && KeptPixels(regions[..n], minArea) !! Elements(regions[n].pixels)
            && |Elements(regions[n].pixels)| == |regions[n].pixels|
  {
    hide KeptPixels;
    var n := |regions| - 1;
    forall p: nat | p in KeptPixels(regions[..n], minArea) ensures p !in Elements(regions[n].pixels) {
      var k :| 0 <= k < n && |regions[k].pixels| >= minArea && p in regions[k].pixels;
    }
  }

  lemma {:induction false} KeptTotal(regions: seq<Region>, minArea: nat)
    requires AllProper(regions) && Disjoint(regions)
    ensures PixelTotal(KeptRegions(regions, minArea)) == |KeptPixels(regions, minArea)|
  {
    if regions == [] {
      assert KeptPixels(regions, minArea) == {};
    } else {
      var n := |regions| - 1;
      LastIsApart(regions, minArea);
      KeptStep(regions, minArea);
      hide *;
      KeptTotal(regions[..n], minArea);
      DisjointSizes(KeptPixels(regions[..n], minArea), Elements(regions[n].pixels));
    }
  }

  lemma {:induction false} DisjointSizes(a: set<nat>, b: set<nat>)
    requires a !! b
    ensures |a + b| == |a| + |b| && a + {} == a
  {}

  /** The pixel counts of the reported regions add up to the reported number of changed pixels. */
  lemma {:induction false} KeptRegionsCoverChangedPixels(mask: seq<bool>, width: nat, regions: seq<Region>, minArea: nat)
    requires AreRegions(mask, width, regions)
    ensures PixelTotal(KeptRegions(regions, minArea)) == CountTrue(Filtered(mask, width, minArea))
  {
    assert AllProper(regions) by {
      assert forall k :: 0 <= k < |regions| ==> IsRegion(mask, width, regions[k]);
    }
    KeptTotal(regions, minArea);
    LargeOwnersAreLargeComponents(mask, width, regions, minArea);
    hide AreRegions, OwnedByLarge, Component, PixelTotal, KeptRegions, CountTrue;
    assert KeptPixels(regions, minArea) == LitSet(Filtered(mask, width, minArea));
  }

  /** raw = filtered + tiny, without overlap. */
  lemma {:induction false} CountsSplit(raw: seq<bool>, filtered: seq<bool>, tiny: seq<bool>)
    requires |raw| == |filtered| == |tiny|
    requires forall i :: 0 <= i < |raw| ==> (filtered[i] ==> raw[i]) && (tiny[i] <==> raw[i] && !filtered[i])
    ensures CountTrue(raw) == CountTrue(filtered) + CountTrue(tiny)
  {
    if raw != [] {
      var n := |raw| - 1;
      CountsSplit(raw[..n], filtered[..n], tiny[..n]);
    }
  }

  // ---- compare_pixels ----

  type Channel = c: nat | c < 256

  datatype Pixel = Pixel(r: Channel, g: Channel, b: Channel, a: Channel)

  datatype Options = Options(pixelThreshold: Channel, ignoreAlpha: bool, regionMinArea: nat)

  /** The numbers behind the metrics, before they are divided. */
  datatype Metrics = Metrics(changedPixels: nat, rawChangedPixels: nat, absSum: nat, squareSum: nat, divisor: nat,
                             xSum: nat, ySum: nat)

  function AbsDiff(x: Channel, y: Channel): Channel {
    if x >= y then x - y else y - x
  }

  function Channels(p: Pixel, ignoreAlpha: bool): (s: seq<Channel>)
    ensures |s| == if ignoreAlpha then 3 else 4
  {
    if ignoreAlpha then [p.r, p.g, p.b] else [p.r, p.g, p.b, p.a]
  }

  /** Every compared channel difference of the first `n` pixels, in comparison order. */
  ghost function Deltas(before: seq<Pixel>, after: seq<Pixel>, ignoreAlpha: bool, n: nat): (d: seq<nat>)
    requires n <= |before| == |after|
    ensures |d| == if ignoreAlpha then 3 * n else 4 * n
    ensures forall k :: 0 <= k < |d| ==> d[k] < 256
  {
    if n == 0 then []
    else Deltas(before, after, ignoreAlpha, n - 1) + PixelDeltas(before[n - 1], after[n - 1], ignoreAlpha)
  }

  function PixelDeltas(p: Pixel, q: Pixel, ignoreAlpha: bool): (d: seq<nat>)
    ensures |d| == if ignoreAlpha then 3 else 4
    ensures forall k :: 0 <= k < |d| ==> d[k] == AbsDiff(Channels(p, ignoreAlpha)[k], Channels(q, ignoreAlpha)[k])
  {
    var rgb := [AbsDiff(p.r, q.r), AbsDiff(p.g, q.g), AbsDiff(p.b, q.b)];
    if ignoreAlpha then rgb else rgb + [AbsDiff(p.a, q.a)]
  }

  function Sum(s: seq<nat>): nat {
    if s == [] then 0 else Sum(s[..|s| - 1]) + s[|s| - 1]
  }

  function Square(x: nat): nat {
    x * x
  }

  function SumSquares(s: seq<nat>): nat {
    if s == [] then 0 else SumSquares(s[..|s| - 1]) + Square(s[|s| - 1])
  }

  /** A pixel is raw-changed when some compared channel moved by more than the threshold. */
  predicate RawChanged(p: Pixel, q: Pixel, o: Options) {
    exists k :: 0 <= k < |PixelDeltas(p, q, o.ignoreAlpha)| && PixelDeltas(p, q, o.ignoreAlpha)[k] > o.pixelThreshold
  }

  ghost function RawMask(before: seq<Pixel>, after: seq<Pixel>, o: Options): (m: seq<bool>)
    requires |before| == |after|
    ensures |m| == |before|
  {
    seq(|before|, i requires 0 <= i < |before| => RawChanged(before[i], after[i], o))
  }

  /** The x (or y) coordinates of the lit pixels among the first `n`, added up. */
  ghost function CoordinateSum(mask: seq<bool>, width: nat, n: nat, row: bool): nat
    requires n <= |mask|
  {
    if n == 0 then 0
    else
      CoordinateSum(mask, width, n - 1, row) +
      (if mask[n - 1] && width > 0 then (if row then (n - 1) / width else (n - 1) % width) else 0)
  }

  lemma {:induction false} SumSnoc(s: seq<nat>, x: nat)
    ensures Sum(s + [x]) == Sum(s) + x && SumSquares(s + [x]) == SumSquares(s) + Square(x)
  {
    hide Square;
    assert (s + [x])[..|s|] == s;
  }

  predicate IsMaximum(s: seq<nat>, m: nat) {
    (forall k :: 0 <= k < |s| ==> s[k] <= m) && (if s == [] then m == 0 else m in s)
  }

  lemma {:induction false} MaximumSnoc(s: seq<nat>, m: nat, x: nat)
    requires IsMaximum(s, m)
    ensures IsMaximum(s + [x], if x > m then x else m)
  {
    assert (s + [x])[|s|] == x;
  }

  /** The channel loop: adds one pixel's differences to both sums and returns the largest. */
  method ScanChannels(p: Pixel, q: Pixel, ignoreAlpha: bool, ghost seen: seq<nat>, absSum: nat, squareSum: nat)
    returns (maxDelta: nat, absSum': nat, squareSum': nat)
    requires absSum == Sum(seen) && squareSum == SumSquares(seen)
    ensures IsMaximum(PixelDeltas(p, q, ignoreAlpha), maxDelta)
    ensures absSum' == Sum(seen + PixelDeltas(p, q, ignoreAlpha))
    ensures squareSum' == SumSquares(seen + PixelDeltas(p, q, ignoreAlpha))
  {
    hide Square, Sum, SumSquares, Channels, PixelDeltas;
    var a, b := Channels(p, ignoreAlpha), Channels(q, ignoreAlpha);
    ghost var deltas: seq<nat> := PixelDeltas(p, q, ignoreAlpha);
    maxDelta, absSum', squareSum' := 0, absSum, squareSum;
    assert seen + deltas[..0] == seen;
    for c := 0 to |a|
      invariant ChannelState(seen, deltas, c, maxDelta, absSum', squareSum')
    {
      var delta: nat := AbsDiff(a[c], b[c]);
      ChannelStep(seen, deltas, c, maxDelta, absSum', squareSum');
      maxDelta := if delta > maxDelta then delta else maxDelta;
      absSum', squareSum' := absSum' + delta, squareSum' + Square(delta);
    }
    assert deltas[..|a|] == deltas;
  }

  ghost predicate ChannelState(seen: seq<nat>, deltas: seq<nat>, c: nat, maxDelta: nat, absSum: nat, squareSum: nat) {
    && c <= |deltas|
    && IsMaximum(deltas[..c], maxDelta)
    && absSum == Sum(seen + deltas[..c]) && squareSum == SumSquares(seen + deltas[..c])
  }

  lemma {:induction false} ChannelStep(seen: seq<nat>, deltas: seq<nat>, c: nat, maxDelta: nat, absSum: nat, squareSum: nat)
    requires c < |deltas| && ChannelState(seen, deltas, c, maxDelta, absSum, squareSum)
    ensures ChannelState(seen, deltas, c + 1, if deltas[c] > maxDelta then deltas[c] else maxDelta,
                         absSum + deltas[c], squareSum + Square(deltas[c]))
  {
    hide Square, Sum, SumSquares, IsMaximum;
    SumSnoc(seen + deltas[..c], deltas[c]);
    MaximumSnoc(deltas[..c], maxDelta, deltas[c]);
    assert deltas[..c + 1] == deltas[..c] + [deltas[c]];
    assert seen + deltas[..c + 1] == seen + deltas[..c] + [deltas[c]];
  }

  lemma {:induction false} CountSnoc(mask: seq<bool>, n: nat)
    requires n < |mask|
    ensures CountTrue(mask[..n + 1]) == CountTrue(mask[..n]) + (if mask[n] then 1 else 0)
  {
    assert mask[..n + 1][..n] == mask[..n];
  }

  /** The state of the first pass once `n` pixels are done. */
  ghost predicate ScanState(before: seq<Pixel>, after: seq<Pixel>, o: Options, mask: seq<bool>, n: nat,
                            rawChanged: nat, absSum: nat, squareSum: nat)
    requires |before| == |after|
  {
    && n <= |before| == |mask|
    && (forall i :: 0 <= i < |mask| ==> (mask[i] <==> i < n && RawMask(before, after, o)[i]))
    && rawChanged == CountTrue(RawMask(before, after, o)[..n])
    && absSum == Sum(Deltas(before, after, o.ignoreAlpha, n))
    && squareSum == SumSquares(Deltas(before, after, o.ignoreAlpha, n))
  }

  lemma {:induction false} ScanStep(before: seq<Pixel>, after: seq<Pixel>, o: Options, mask: seq<bool>, n: nat,
                                    rawChanged: nat, absSum: nat, squareSum: nat, maxDelta: nat, absSum': nat, squareSum': nat)
    requires |before| == |after| && n < |before|
    requires ScanState(before, after, o, mask, n, rawChanged, absSum, squareSum)
    requires IsMaximum(PixelDeltas(before[n], after[n], o.ignoreAlpha), maxDelta)
    requires absSum' == Sum(Deltas(before, after, o.ignoreAlpha, n) + PixelDeltas(before[n], after[n], o.ignoreAlpha))
    requires squareSum' == SumSquares(Deltas(before, after, o.ignoreAlpha, n) + PixelDeltas(before[n], after[n], o.ignoreAlpha))
    ensures maxDelta > o.pixelThreshold ==>
      ScanState(before, after, o, mask[n := true], n + 1, rawChanged + 1, absSum', squareSum')
    ensures maxDelta <= o.pixelThreshold ==>
      ScanState(before, after, o, mask, n + 1, rawChanged, absSum', squareSum')
  {
    hide Square, Sum, SumSquares, CountTrue, PixelDeltas;
    var raw := RawMask(before, after, o);
    CountSnoc(raw, n);
    var deltas := PixelDeltas(before[n], after[n], o.ignoreAlpha);
    assert raw[n] <==> maxDelta > o.pixelThreshold by {
      var k :| 0 <= k < |deltas| && deltas[k] == maxDelta;
    }
  }

  /** `y * width`, the index of the first pixel of row `y`, row by row. */
  function RowStart(width: nat, y: nat): nat {
    if y == 0 then 0 else RowStart(width, y - 1) + width
  }

  lemma {:induction false} RowStartIsProduct(width: nat, y: nat)
    ensures RowStart(width, y) == y * width
  {
    if y > 0 { RowStartIsProduct(width, y - 1); }
  }

  lemma {:induction false} RowsFit(width: nat, y: nat, height: nat)
    requires y < height
    ensures RowStart(width, y) + width <= RowStart(width, height)
    decreases height
  {
    if y < height - 1 { RowsFit(width, y, height - 1); }
  }

  /** The body of the first pass at pixel `idx`. */
  method ScanPixel(before: seq<Pixel>, after: seq<Pixel>, o: Options, idx: nat, mask: array<bool>,
                   rawChanged: nat, absSum: nat, squareSum: nat)
    returns (rawChanged': nat, absSum': nat, squareSum': nat)
    requires |before| == |after| && idx < |before|
    requires ScanState(before, after, o, mask[..], idx, rawChanged, absSum, squareSum)
    modifies mask
    ensures ScanState(before, after, o, mask[..], idx + 1, rawChanged', absSum', squareSum')
  {
    ghost var seen := Deltas(before, after, o.ignoreAlpha, idx);
    hide Square, Sum, SumSquares, Deltas, PixelDeltas;
    var maxDelta;
    maxDelta, absSum', squareSum' := ScanChannels(before[idx], after[idx], o.ignoreAlpha, seen, absSum, squareSum);
    ScanStep(before, after, o, mask[..], idx, rawChanged, absSum, squareSum, maxDelta, absSum', squareSum');
    rawChanged' := rawChanged;
    if maxDelta > o.pixelThreshold {
      mask[idx] := true;
      assert mask[..] == old(mask[..])[idx := true];
      rawChanged' := rawChanged + 1;
    }
  }

  /** One row of the first pass, starting at index `first`. */
  method ScanRow(before: seq<Pixel>, after: seq<Pixel>, o: Options, first: nat, width: nat, mask: array<bool>,
                 rawChanged: nat, absSum: nat, squareSum: nat)
    returns (rawChanged': nat, absSum': nat, squareSum': nat)
    requires |before| == |after| && first + width <= |before|
    requires ScanState(before, after, o, mask[..], first, rawChanged, absSum, squareSum)
    modifies mask
    ensures ScanState(before, after, o, mask[..], first + width, rawChanged', absSum', squareSum')
  {
    rawChanged', absSum', squareSum' := rawChanged, absSum, squareSum;
    hide ScanState;
    for x := 0 to width
      invariant ScanState(before, after, o, mask[..], first + x, rawChanged', absSum', squareSum')
    {
      rawChanged', absSum', squareSum' :=
        ScanPixel(before, after, o, first + x, mask, rawChanged', absSum', squareSum');
    }
  }

  /** First pass: the raw mask, its count, and the error sums. */
  method ScanPixels(before: seq<Pixel>, after: seq<Pixel>, width: nat, height: nat, o: Options)
    returns (rawMask: seq<bool>, rawChanged: nat, absSum: nat, squareSum: nat)
    requires RowStart(width, height) == |before| == |after|
    ensures ScanState(before, after, o, rawMask, |before|, rawChanged, absSum, squareSum)
  {
    var mask := new bool[|before|](_ => false);
    rawChanged, absSum, squareSum := 0, 0, 0;
    assert ScanState(before, after, o, mask[..], RowStart(width, 0), rawChanged, absSum, squareSum);
    assert RowStart(width, 0) == 0;
    hide ScanState, RowStart;
    for y := 0 to height
      invariant RowStart(width, y) <= |before|
      invariant ScanState(before, after, o, mask[..], RowStart(width, y), rawChanged, absSum, squareSum)
    {
      RowsFit(width, y, height);
      rawChanged, absSum, squareSum :=
        ScanRow(before, after, o, RowStart(width, y), width, mask, rawChanged, absSum, squareSum);
    }
    rawMask := mask[..];
  }

  ghost predicate CoordinateState(mask: seq<bool>, width: nat, n: nat, changed: nat, xSum: nat, ySum: nat) {
    && n <= |mask|
    && changed == CountTrue(mask[..n])
    && xSum == CoordinateSum(mask, width, n, false)
    && ySum == CoordinateSum(mask, width, n, true)
  }

  lemma {:induction false} CoordinateStep(mask: seq<bool>, width: nat, x: nat, y: nat, changed: nat, xSum: nat, ySum: nat)
    requires x < width && RowStart(width, y) + x < |mask|
    requires CoordinateState(mask, width, RowStart(width, y) + x, changed, xSum, ySum)
    ensures var n := RowStart(width, y) + x;
            if mask[n] then CoordinateState(mask, width, n + 1, changed + 1, xSum + x, ySum + y)
            else CoordinateState(mask, width, n + 1, changed, xSum, ySum)
  {
    RowStartIsProduct(width, y);
    Coordinates(width, x, y);
    CountSnoc(mask, RowStart(width, y) + x);
  }

  /** Second pass: how many pixels survived the area filter, and where their centre of mass is. */
  method SumCoordinates(mask: seq<bool>, width: nat, height: nat) returns (changed: nat, xSum: nat, ySum: nat)
    requires RowStart(width, height) == |mask|
    ensures CoordinateState(mask, width, |mask|, changed, xSum, ySum)
  {
    changed, xSum, ySum := 0, 0, 0;
    assert CoordinateState(mask, width, RowStart(width, 0), changed, xSum, ySum);
    hide CoordinateState;
    for y := 0 to height
      invariant CoordinateState(mask, width, RowStart(width, y), changed, xSum, ySum)
    {
      RowsFit(width, y, height);
      for x := 0 to width
        invariant CoordinateState(mask, width, RowStart(width, y) + x, changed, xSum, ySum)
      {
        CoordinateStep(mask, width, x, y, changed, xSum, ySum);
        if mask[RowStart(width, y) + x] {
          changed, xSum, ySum := changed + 1, xSum + x, ySum + y;
        }
      }
    }
  }

  method ComparePixels(before: seq<Pixel>, after: seq<Pixel>, width: nat, height: nat, o: Options)
    returns (raw: seq<bool>, filtered: seq<bool>, tiny: seq<bool>, metrics: Metrics)
    requires width * height == |before| == |after|
    ensures raw == RawMask(before, after, o)
    ensures filtered == Filtered(raw, width, o.regionMinArea)
    ensures |tiny| == |raw| && forall i :: 0 <= i < |raw| ==> (tiny[i] <==> raw[i] && !filtered[i])
    ensures metrics.rawChangedPixels == metrics.changedPixels + CountTrue(tiny)
    ensures metrics == Measured(before, after, width, o)
  {
    var rawChanged, absSum, squareSum;
    RowStartIsProduct(width, height);
    raw, rawChanged, absSum, squareSum := ScanPixels(before, after, width, height, o);
    filtered := FilterRegions(raw, width, height, o.regionMinArea);
    tiny := seq(|raw|, i requires 0 <= i < |raw| && |filtered| == |raw| => raw[i] && !filtered[i]);
    assert raw == RawMask(before, after, o);
    assert raw[..|raw|] == raw && filtered[..|filtered|] == filtered;
    CountsSplit(raw, filtered, tiny);
    var changed, xSum, ySum := SumCoordinates(filtered, width, height);
    var samples := if o.ignoreAlpha then |before| * 3 else |before| * 4;
    metrics := Metrics(changed, rawChanged, absSum, squareSum, if samples > 1 then samples else 1, xSum, ySum);
  }

  ghost function Measured(before: seq<Pixel>, after: seq<Pixel>, width: nat, o: Options): Metrics
    requires |before| == |after|
  {
    var raw := RawMask(before, after, o);
    var filtered := Filtered(raw, width, o.regionMinArea);
    var deltas := Deltas(before, after, o.ignoreAlpha, |before|);
    Metrics(CountTrue(filtered), CountTrue(raw), Sum(deltas), SumSquares(deltas), if |deltas| > 1 then |deltas| else 1,
            CoordinateSum(filtered, width, |filtered|, false), CoordinateSum(filtered, width, |filtered|, true))
  }

  // ---- What the metrics mean ----

  function MeanAbsoluteError(m: Metrics): real
    requires m.divisor > 0
  {
    m.absSum as real / m.divisor as real
  }

  /** The square of the reported root-mean-squared error. */
  function MeanSquaredError(m: Metrics): real
    requires m.divisor > 0
  {
    m.squareSum as real / m.divisor as real
  }

  function CentroidX(m: Metrics, width: nat): real {
    if m.changedPixels == 0 then 0.5
    else m.xSum as real / m.changedPixels as real / (if width > 1 then width else 1) as real
  }

  function CentroidY(m: Metrics, height: nat): real {
    if m.changedPixels == 0 then 0.5
    else m.ySum as real / m.changedPixels as real / (if height > 1 then height else 1) as real
  }

  lemma {:induction false} SquareOfSum(s: seq<nat>)
    ensures Sum(s) * Sum(s) <= |s| * SumSquares(s)
  {
    if s != [] {
      var t, d := s[..|s| - 1], s[|s| - 1];
      SquareOfSum(t);
      SpreadAround(t, d);
      Binomial(Sum(t), d, |t|, SumSquares(t));
    }
  }

  lemma {:induction false} Binomial(a: nat, d: nat, n: nat, q: nat)
    ensures (a + d) * (a + d) == a * a + 2 * d * a + d * d
    ensures (n + 1) * (q + d * d) == n * q + q + n * (d * d) + d * d
  {}

  /** Squared distances from `d` never add up to less than nothing. */
  lemma {:induction false} SpreadAround(s: seq<nat>, d: nat)
    ensures 2 * d * Sum(s) <= SumSquares(s) + |s| * (d * d)
  {
    if s != [] {
      var t, x := s[..|s| - 1], s[|s| - 1];
      SpreadAround(t, d);
      SpreadStep(x, d, Sum(t), |t|);
    }
  }

  lemma {:induction false} SpreadStep(x: nat, d: nat, a: nat, n: nat)
    ensures 2 * d * x <= x * x + d * d
    ensures 2 * d * (a + x) == 2 * d * a + 2 * d * x
    ensures (n + 1) * (d * d) == n * (d * d) + d * d
  {
    assert (x - d) * (x - d) == x * x - 2 * d * x + d * d;
  }

  predicate AllZero(s: seq<nat>) {
    forall k :: 0 <= k < |s| ==> s[k] == 0
  }

  lemma {:induction false} AllZeroAppend(s: seq<nat>, t: seq<nat>)
    ensures AllZero(s + t) <==> AllZero(s) && AllZero(t)
  {
    assert forall k :: 0 <= k < |s| ==> (s + t)[k] == s[k];
    assert forall k :: 0 <= k < |t| ==> (s + t)[|s| + k] == t[k];
  }

  lemma {:induction false} SumOfChannels(s: seq<nat>)
    requires forall k :: 0 <= k < |s| ==> s[k] < 256
    ensures Sum(s) <= 255 * |s|
    ensures Sum(s) == 0 <==> AllZero(s)
  {
    if s != [] {
      SumOfChannels(s[..|s| - 1]);
      assert forall k :: 0 <= k < |s| - 1 ==> s[..|s| - 1][k] == s[k];
    }
  }

  lemma {:induction false} CoordinatesBounded(mask: seq<bool>, width: nat, height: nat, n: nat)
    requires width * height == |mask| && n <= |mask|
    ensures n > 0 ==> width > 0 && height > 0
    ensures CoordinateSum(mask, width, n, false) <= CountTrue(mask[..n]) * (width - 1)
            || (CountTrue(mask[..n]) == 0 && CoordinateSum(mask, width, n, false) == 0)
    ensures CoordinateSum(mask, width, n, true) <= CountTrue(mask[..n]) * (height - 1)
            || (CountTrue(mask[..n]) == 0 && CoordinateSum(mask, width, n, true) == 0)
  {
    if n > 0 {
      RowInGrid(width, height, n - 1);
      CoordinatesBounded(mask, width, height, n - 1);
      CountSnoc(mask, n - 1);
      var c := CountTrue(mask[..n - 1]);
      Distribute(c, width - 1);
      Distribute(c, height - 1);
    }
  }

  lemma {:induction false} Distribute(c: nat, k: int)
    ensures (c + 1) * k == c * k + k
  {}

  lemma {:induction false} ShareBelowOne(total: nat, count: nat, extent: nat)
    requires count > 0 && extent > 0 && total <= count * (extent - 1)
    ensures 0.0 <= total as real / count as real / extent as real < 1.0
  {
    var c, e := count as real, extent as real;
    var q := total as real / c;
    RealProduct(count, extent - 1);
    QuotientBounds(total as real, c, e - 1.0);
    QuotientBounds(q, e, (e - 1.0) / e);
    QuotientBounds(e - 1.0, e, 1.0);
  }

  lemma {:induction false} QuotientBounds(t: real, c: real, bound: real)
    requires t >= 0.0 && c > 0.0 && t <= bound * c
    ensures 0.0 <= t / c <= bound
    ensures t < bound * c ==> t / c < bound
  {
    var q := t / c;
    assert q * c == t;
    Cancel(q, bound, c);
    Cancel(0.0, q, c);
  }

  lemma {:induction false} RealProduct(a: int, b: int)
    ensures (a * b) as real == a as real * b as real
  {}

  lemma {:induction false} Cancel(x: real, y: real, k: real)
    requires k > 0.0 && x * k <= y * k
    ensures x <= y
  {
    if x > y { assert false; }
  }

  predicate SameOnFirst(before: seq<Pixel>, after: seq<Pixel>, ignoreAlpha: bool, n: nat)
    requires n <= |before| == |after|
  {
    forall i :: 0 <= i < n ==> Channels(before[i], ignoreAlpha) == Channels(after[i], ignoreAlpha)
  }

  predicate SameOnChannels(before: seq<Pixel>, after: seq<Pixel>, ignoreAlpha: bool)
    requires |before| == |after|
  {
    SameOnFirst(before, after, ignoreAlpha, |before|)
  }

  lemma {:induction false} PixelDeltasZero(p: Pixel, q: Pixel, ignoreAlpha: bool)
    ensures AllZero(PixelDeltas(p, q, ignoreAlpha))
            <==> Channels(p, ignoreAlpha) == Channels(q, ignoreAlpha)
  {
    var a, b := Channels(p, ignoreAlpha), Channels(q, ignoreAlpha);
    var d := PixelDeltas(p, q, ignoreAlpha);
    assert forall k :: 0 <= k < |d| ==> (d[k] == 0 <==> a[k] == b[k]);
    if AllZero(d) { assert a == b; }
  }

  lemma {:induction false} DeltasZero(before: seq<Pixel>, after: seq<Pixel>, ignoreAlpha: bool, n: nat)
    requires n <= |before| == |after|
    ensures AllZero(Deltas(before, after, ignoreAlpha, n))
            <==> SameOnFirst(before, after, ignoreAlpha, n)
  {
    if n > 0 {
      var d, e := Deltas(before, after, ignoreAlpha, n - 1), PixelDeltas(before[n - 1], after[n - 1], ignoreAlpha);
      assert Deltas(before, after, ignoreAlpha, n) == d + e;
      hide AllZero, Channels, PixelDeltas, AbsDiff, Deltas;
      DeltasZero(before, after, ignoreAlpha, n - 1);
      PixelDeltasZero(before[n - 1], after[n - 1], ignoreAlpha);
      AllZeroAppend(d, e);
    }
  }

  ghost predicate SumsOrdered(m: Metrics) {
    m.divisor > 0 && m.absSum <= 255 * m.divisor && m.absSum * m.absSum <= m.divisor * m.squareSum
  }

  ghost predicate ErrorsOrdered(m: Metrics)
    requires m.divisor > 0
  {
    0.0 <= MeanAbsoluteError(m) <= 255.0 && MeanAbsoluteError(m) * MeanAbsoluteError(m) <= MeanSquaredError(m)
  }

  /** The integer facts behind the error metrics. */
  lemma {:induction false} ErrorSums(before: seq<Pixel>, after: seq<Pixel>, width: nat, o: Options)
    requires |before| == |after|
    ensures var m := Measured(before, after, width, o);
            SumsOrdered(m) && (m.absSum == 0 <==> SameOnChannels(before, after, o.ignoreAlpha))
  {
    var deltas := Deltas(before, after, o.ignoreAlpha, |before|);
    SumOfChannels(deltas);
    DeltasZero(before, after, o.ignoreAlpha, |before|);
    SquareOfSum(deltas);
  }

  lemma {:induction false} MetricsOrdered(m: Metrics)
    requires SumsOrdered(m)
    ensures m.divisor > 0 && ErrorsOrdered(m) && (MeanAbsoluteError(m) == 0.0 <==> m.absSum == 0)
  {
    MeansOrdered(m.absSum, m.squareSum, m.divisor);
  }

  lemma {:induction false} ErrorsAreConsistent(before: seq<Pixel>, after: seq<Pixel>, width: nat, o: Options)
    requires |before| == |after|
    ensures var m := Measured(before, after, width, o);
            m.divisor > 0 && ErrorsOrdered(m) && (MeanAbsoluteError(m) == 0.0 <==> SameOnChannels(before, after, o.ignoreAlpha))
  {
    hide Measured, SameOnChannels, MeanAbsoluteError, SumsOrdered, ErrorsOrdered;
    ErrorSums(before, after, width, o);
    MetricsOrdered(Measured(before, after, width, o));
  }

  lemma {:induction false} CentroidInside(before: seq<Pixel>, after: seq<Pixel>, width: nat, height: nat, o: Options)
    requires width * height == |before| == |after|
    ensures var m := Measured(before, after, width, o);
            0.0 <= CentroidX(m, width) < 1.0 && 0.0 <= CentroidY(m, height) < 1.0
  {
    var m := Measured(before, after, width, o);
    var filtered := Filtered(RawMask(before, after, o), width, o.regionMinArea);
    CoordinatesBounded(filtered, width, height, |filtered|);
    assert filtered[..|filtered|] == filtered;
    if m.changedPixels > 0 {
      assert |filtered| > 0;
      ShareBelowOne(m.xSum, m.changedPixels, width);
      ShareBelowOne(m.ySum, m.changedPixels, height);
    }
  }

  /** The reported mean absolute error is zero exactly for images equal on the compared channels,
      never exceeds the root mean squared error, and the centroid lies inside the unit square. */
  lemma {:induction false} MetricsAreConsistent(before: seq<Pixel>, after: seq<Pixel>, width: nat, height: nat, o: Options)
    requires width * height == |before| == |after|
    ensures var m := Measured(before, after, width, o);
            && 0.0 <= MeanAbsoluteError(m) <= 255.0
            && (MeanAbsoluteError(m) == 0.0 <==> SameOnChannels(before, after, o.ignoreAlpha))
            && MeanAbsoluteError(m) * MeanAbsoluteError(m) <= MeanSquaredError(m)
            && 0.0 <= CentroidX(m, width) < 1.0 && 0.0 <= CentroidY(m, height) < 1.0
  {
    hide MeanAbsoluteError, MeanSquaredError, CentroidX, CentroidY;
    ErrorsAreConsistent(before, after, width, o);
    CentroidInside(before, after, width, height, o);
  }

  /** Multiplication of reals, to be hidden where only these laws are needed. */
  function Times(a: real, b: real): real {
    a * b
  }

  lemma {:induction false} CancelTimes(x: real, y: real, k: real)
    requires k > 0.0 && Times(x, k) <= Times(y, k)
    ensures x <= y
  {
    Cancel(x, y, k);
  }

  lemma {:induction false} Rearranged(a: real, b: real, d: real)
    ensures Times(Times(a, d), Times(a, d)) == Times(Times(a, a), Times(d, d)) && Times(d, Times(b, d)) == Times(b, Times(d, d))
  {}

  lemma {:induction false} TimesPositive(x: real, y: real)
    requires x > 0.0 && y > 0.0
    ensures Times(x, y) > 0.0
  {}

  lemma {:induction false} QuotientTimes(s: real, d: real)
    requires d > 0.0
    ensures Times(s / d, d) == s
  {}

  lemma {:induction false} IntegerTimes(a: int, b: int)
    ensures (a * b) as real == Times(a as real, b as real)
  {
    RealProduct(a, b);
  }

  lemma {:induction false} SquareOfMean(a: real, b: real, d: real)
    requires d > 0.0 && Times(Times(a, d), Times(a, d)) <= Times(d, Times(b, d))
    ensures Times(a, a) <= b
  {
    hide Times;
    Rearranged(a, b, d);
    TimesPositive(d, d);
    CancelTimes(Times(a, a), b, Times(d, d));
  }

  lemma {:induction false} SquaresOrdered(sum: nat, squares: nat, n: nat)
    requires n > 0 && sum * sum <= n * squares
    ensures Times(sum as real / n as real, sum as real / n as real) <= squares as real / n as real
  {
    hide Times;
    QuotientTimes(sum as real, n as real);
    QuotientTimes(squares as real, n as real);
    IntegerTimes(sum, sum);
    IntegerTimes(n, squares);
    SquareOfMean(sum as real / n as real, squares as real / n as real, n as real);
  }

  lemma {:induction false} MeanBounded(sum: nat, n: nat)
    requires n > 0 && sum <= 255 * n
    ensures 0.0 <= sum as real / n as real <= 255.0
    ensures sum as real / n as real == 0.0 <==> sum == 0
  {
    QuotientTimes(sum as real, n as real);
    RealProduct(255, n);
    QuotientBounds(sum as real, n as real, 255.0);
  }

  lemma {:induction false} MeansOrdered(sum: nat, squares: nat, n: nat)
    requires n > 0 && sum <= 255 * n && sum * sum <= n * squares
    ensures 0.0 <= sum as real / n as real <= 255.0
    ensures sum as real / n as real == 0.0 <==> sum == 0
    ensures (sum as real / n as real) * (sum as real / n as real) <= squares as real / n as real
  {
    MeanBounded(sum, n);
    SquaresOrdered(sum, squares, n);
  }

  lemma {:induction false} PixelDeltasSymmetric(p: Pixel, q: Pixel, ignoreAlpha: bool)
    ensures PixelDeltas(p, q, ignoreAlpha) == PixelDeltas(q, p, ignoreAlpha)
  {
    hide Channels;
  }

  lemma {:induction false} DeltasSymmetric(before: seq<Pixel>, after: seq<Pixel>, ignoreAlpha: bool, n: nat)
    requires n <= |before| == |after|
    ensures Deltas(before, after, ignoreAlpha, n) == Deltas(after, before, ignoreAlpha, n)
  {
    if n > 0 {
      DeltasSymmetric(before, after, ignoreAlpha, n - 1);
      PixelDeltasSymmetric(before[n - 1], after[n - 1], ignoreAlpha);
      hide PixelDeltas, Channels, AbsDiff;
    }
  }

  /** Comparing the other way round reports the same numbers. */
  lemma {:induction false} MeasuredSymmetric(before: seq<Pixel>, after: seq<Pixel>, width: nat, o: Options)
    requires |before| == |after|
    ensures Measured(before, after, width, o) == Measured(after, before, width, o)
  {
    DeltasSymmetric(before, after, o.ignoreAlpha, |before|);
    forall i | 0 <= i < |before| ensures RawMask(before, after, o)[i] == RawMask(after, before, o)[i] {
      assert PixelDeltas(before[i], after[i], o.ignoreAlpha) == PixelDeltas(after[i], before[i], o.ignoreAlpha);
    }
    assert RawMask(before, after, o) == RawMask(after, before, o);
  }

  // ---- The masks and the sums in terms of the channels alone ----

  /** Either side exceeds the other by more than `t`. */
  predicate Apart(x: Channel, y: Channel, t: Channel) {
    x > y + t || y > x + t
  }

  /** A pixel of the raw mask is lit exactly when some compared channel rose or fell by more than
      the threshold. */
  lemma {:induction false} RawMaskMeans(before: seq<Pixel>, after: seq<Pixel>, o: Options, i: nat)
    requires i < |before| == |after|
    ensures var p, q, t := before[i], after[i], o.pixelThreshold;
            RawMask(before, after, o)[i] <==>
            Apart(p.r, q.r, t) || Apart(p.g, q.g, t) || Apart(p.b, q.b, t) || (!o.ignoreAlpha && Apart(p.a, q.a, t))
  {
    var p, q, t := before[i], after[i], o.pixelThreshold;
    var d := PixelDeltas(p, q, o.ignoreAlpha);
    DifferenceApart(p.r, q.r, t);
    DifferenceApart(p.g, q.g, t);
    DifferenceApart(p.b, q.b, t);
    DifferenceApart(p.a, q.a, t);
    assert d[0] == AbsDiff(p.r, q.r) && d[1] == AbsDiff(p.g, q.g) && d[2] == AbsDiff(p.b, q.b);
    assert !o.ignoreAlpha ==> d[3] == AbsDiff(p.a, q.a);
    hide PixelDeltas, Apart, AbsDiff, Channels;
    if RawChanged(p, q, o) {
      var k :| 0 <= k < |d| && d[k] > t;
    }
  }

  lemma {:induction false} DifferenceApart(x: Channel, y: Channel, t: Channel)
    ensures AbsDiff(x, y) > t <==> Apart(x, y, t)
  {}

  /** The sum of all compared channels. */
  function Level(image: seq<Pixel>, ignoreAlpha: bool): nat {
    if image == [] then 0
    else Level(image[..|image| - 1], ignoreAlpha) + PixelLevel(image[|image| - 1], ignoreAlpha)
  }

  function PixelLevel(p: Pixel, ignoreAlpha: bool): nat {
    p.r + p.g + p.b + (if ignoreAlpha then 0 else p.a)
  }

  /** At every pixel and compared channel, `high` holds the greater of both images and `low` the lesser. */
  predicate Envelope(before: seq<Pixel>, after: seq<Pixel>, low: seq<Pixel>, high: seq<Pixel>, ignoreAlpha: bool) {
    && |before| == |after| == |low| == |high|
    && forall i :: 0 <= i < |before| ==> Between(before[i], after[i], low[i], high[i], ignoreAlpha)
  }

  predicate Between(p: Pixel, q: Pixel, low: Pixel, high: Pixel, ignoreAlpha: bool) {
    && Spans(p.r, q.r, low.r, high.r) && Spans(p.g, q.g, low.g, high.g)
    && Spans(p.b, q.b, low.b, high.b) && (ignoreAlpha || Spans(p.a, q.a, low.a, high.a))
  }

  predicate Spans(x: Channel, y: Channel, low: Channel, high: Channel) {
    low <= high && ((x == low && y == high) || (x == high && y == low))
  }

  lemma {:induction false} DifferenceSpans(x: Channel, y: Channel, low: Channel, high: Channel)
    requires Spans(x, y, low, high)
    ensures AbsDiff(x, y) == high - low
  {}

  lemma {:induction false} PixelRise(p: Pixel, q: Pixel, low: Pixel, high: Pixel, ignoreAlpha: bool, s: seq<nat>)
    requires Between(p, q, low, high, ignoreAlpha)
    ensures Sum(s + PixelDeltas(p, q, ignoreAlpha)) == Sum(s) + PixelLevel(high, ignoreAlpha) - PixelLevel(low, ignoreAlpha)
  {
    hide Spans, AbsDiff, Sum, SumSquares, Square, PixelDeltas;
    PixelDeltasAre(p, q, ignoreAlpha, s);
    DifferenceSpans(p.r, q.r, low.r, high.r);
    DifferenceSpans(p.g, q.g, low.g, high.g);
    DifferenceSpans(p.b, q.b, low.b, high.b);
    if !ignoreAlpha { DifferenceSpans(p.a, q.a, low.a, high.a); }
  }

  lemma {:induction false} PixelDeltasAre(p: Pixel, q: Pixel, ignoreAlpha: bool, s: seq<nat>)
    ensures Sum(s + PixelDeltas(p, q, ignoreAlpha)) ==
            Sum(s) + AbsDiff(p.r, q.r) + AbsDiff(p.g, q.g) + AbsDiff(p.b, q.b) + (if ignoreAlpha then 0 else AbsDiff(p.a, q.a))
    ensures SumSquares(s + PixelDeltas(p, q, ignoreAlpha)) ==
            SumSquares(s) + Square(AbsDiff(p.r, q.r)) + Square(AbsDiff(p.g, q.g)) + Square(AbsDiff(p.b, q.b)) +
            (if ignoreAlpha then 0 else Square(AbsDiff(p.a, q.a)))
  {
    var r: nat, g: nat, b: nat, a: nat := AbsDiff(p.r, q.r), AbsDiff(p.g, q.g), AbsDiff(p.b, q.b), AbsDiff(p.a, q.a);
    var d := PixelDeltas(p, q, ignoreAlpha);
    assert d == if ignoreAlpha then [r, g, b] else [r, g, b, a];
    hide Sum, SumSquares, Square, PixelDeltas, AbsDiff;
    SumSnoc(s, r);
    SumSnoc(s + [r], g);
    SumSnoc(s + [r] + [g], b);
    assert s + [r] + [g] + [b] == s + [r, g, b];
    if !ignoreAlpha {
      SumSnoc(s + [r, g, b], a);
      assert s + [r, g, b] + [a] == s + d;
    }
  }

  /** The absolute sum is the level of the greater channels less the level of the lesser ones. */
  lemma {:induction false} AbsSumIsRise(before: seq<Pixel>, after: seq<Pixel>, low: seq<Pixel>, high: seq<Pixel>, width: nat, o: Options)
    requires Envelope(before, after, low, high, o.ignoreAlpha)
    ensures Measured(before, after, width, o).absSum == Level(high, o.ignoreAlpha) - Level(low, o.ignoreAlpha)
  {
    DeltasRise(before, after, low, high, o.ignoreAlpha, |before|);
    assert low[..|low|] == low && high[..|high|] == high;
  }

  predicate NoFall(p: Pixel, q: Pixel, ignoreAlpha: bool) {
    p.r <= q.r && p.g <= q.g && p.b <= q.b && (ignoreAlpha || p.a <= q.a)
  }

  /** Where no compared channel falls, the absolute sum is the sum of all channels afterwards less
      the sum of all channels before. */
  lemma {:induction false} RisingLevel(before: seq<Pixel>, after: seq<Pixel>, width: nat, o: Options)
    requires |before| == |after| && forall i :: 0 <= i < |before| ==> NoFall(before[i], after[i], o.ignoreAlpha)
    ensures Measured(before, after, width, o).absSum == Level(after, o.ignoreAlpha) - Level(before, o.ignoreAlpha)
  {
    AbsSumIsRise(before, after, before, after, width, o);
  }

  lemma {:induction false} LevelStep(image: seq<Pixel>, ignoreAlpha: bool, n: nat)
    requires n < |image|
    ensures Level(image[..n + 1], ignoreAlpha) == Level(image[..n], ignoreAlpha) + PixelLevel(image[n], ignoreAlpha)
  {
    assert image[..n + 1][..n] == image[..n];
  }

  lemma {:induction false} DeltasStep(before: seq<Pixel>, after: seq<Pixel>, ignoreAlpha: bool, n: nat)
    requires 0 < n <= |before| == |after|
    ensures Deltas(before, after, ignoreAlpha, n) ==
            Deltas(before, after, ignoreAlpha, n - 1) + PixelDeltas(before[n - 1], after[n - 1], ignoreAlpha)
  {}

  lemma {:induction false} RiseStep(before: seq<Pixel>, after: seq<Pixel>, low: Pixel, high: Pixel, ignoreAlpha: bool, n: nat)
    requires n < |before| == |after| && Between(before[n], after[n], low, high, ignoreAlpha)
    ensures Sum(Deltas(before, after, ignoreAlpha, n + 1)) ==
            Sum(Deltas(before, after, ignoreAlpha, n)) + PixelLevel(high, ignoreAlpha) - PixelLevel(low, ignoreAlpha)
  {
    hide *;
    DeltasStep(before, after, ignoreAlpha, n + 1);
    PixelRise(before[n], after[n], low, high, ignoreAlpha, Deltas(before, after, ignoreAlpha, n));
  }

  lemma {:induction false} DeltasRise(before: seq<Pixel>, after: seq<Pixel>, low: seq<Pixel>, high: seq<Pixel>, ignoreAlpha: bool, n: nat)
    requires Envelope(before, after, low, high, ignoreAlpha) && n <= |before|
    ensures Sum(Deltas(before, after, ignoreAlpha, n)) + Level(low[..n], ignoreAlpha) == Level(high[..n], ignoreAlpha)
  {
    if n > 0 {
      assert Between(before[n - 1], after[n - 1], low[n - 1], high[n - 1], ignoreAlpha);
      hide *;
      DeltasRise(before, after, low, high, ignoreAlpha, n - 1);
      LevelStep(low, ignoreAlpha, n - 1);
      LevelStep(high, ignoreAlpha, n - 1);
      RiseStep(before, after, low[n - 1], high[n - 1], ignoreAlpha, n - 1);
    }
  }

  /** The squared differences of the first `n` pixels. */
  function SquaredError(before: seq<Pixel>, after: seq<Pixel>, ignoreAlpha: bool, n: nat): int
    requires n <= |before| == |after|
  {
    if n == 0 then 0
    else
      SquaredError(before, after, ignoreAlpha, n - 1) + PixelError(before[n - 1], after[n - 1], ignoreAlpha)
  }

  function PixelError(p: Pixel, q: Pixel, ignoreAlpha: bool): int {
    (p.r - q.r) * (p.r - q.r) + (p.g - q.g) * (p.g - q.g) + (p.b - q.b) * (p.b - q.b) +
    (if ignoreAlpha then 0 else (p.a - q.a) * (p.a - q.a))
  }

  lemma {:induction false} SquareOfDifference(x: Channel, y: Channel)
    ensures Square(AbsDiff(x, y)) == (x - y) * (x - y)
  {}

  /** The squared sum adds up the squares of all channel differences. */
  lemma {:induction false} SquareSumIsSquaredError(before: seq<Pixel>, after: seq<Pixel>, width: nat, o: Options)
    requires |before| == |after|
    ensures Measured(before, after, width, o).squareSum == SquaredError(before, after, o.ignoreAlpha, |before|)
  {
    DeltasSquared(before, after, o.ignoreAlpha, |before|);
  }

  lemma {:induction false} DeltasSquared(before: seq<Pixel>, after: seq<Pixel>, ignoreAlpha: bool, n: nat)
    requires n <= |before| == |after|
    ensures SumSquares(Deltas(before, after, ignoreAlpha, n)) == SquaredError(before, after, ignoreAlpha, n)
  {
    if n > 0 {
      var p, q := before[n - 1], after[n - 1];
      DeltasSquared(before, after, ignoreAlpha, n - 1);
      PixelDeltasAre(p, q, ignoreAlpha, Deltas(before, after, ignoreAlpha, n - 1));
      SquareOfDifference(p.r, q.r);
      SquareOfDifference(p.g, q.g);
      SquareOfDifference(p.b, q.b);
      SquareOfDifference(p.a, q.a);
      hide SumSquares, PixelDeltas, Square;
    }
  }

  lemma {:induction false} OnePixelError(before: seq<Pixel>, i: nat, q: Pixel, ignoreAlpha: bool, n: nat)
    requires i < |before| && n <= |before|
    ensures SquaredError(before, before[i := q], ignoreAlpha, n) == if i < n then PixelError(before[i], q, ignoreAlpha) else 0
  {
    if n > 0 {
      OnePixelError(before, i, q, ignoreAlpha, n - 1);
      if n - 1 != i {
        var p := before[n - 1];
        assert PixelError(p, p, ignoreAlpha) == 0;
      }
      hide PixelError;
    }
  }

  lemma {:induction false} OneChannelRise(before: seq<Pixel>, i: nat, y: Channel, width: nat, o: Options)
    requires i < |before|
    ensures var x := before[i].r;
            var m := Measured(before, before[i := before[i].(r := y)], width, o);
            (y >= x ==> m.absSum == y - x) && (x >= y ==> m.absSum == x - y)
  {
    var after := before[i := before[i].(r := y)];
    LevelMoves(before, i, y, o.ignoreAlpha);
    hide Measured, Level;
    if y >= before[i].r {
      AbsSumIsRise(before, after, before, after, width, o);
    }
    if before[i].r >= y {
      AbsSumIsRise(before, after, after, before, width, o);
    }
  }

  lemma {:induction false} RedError(p: Pixel, y: Channel, ignoreAlpha: bool)
    ensures PixelError(p, p.(r := y), ignoreAlpha) == (p.r - y) * (p.r - y)
  {}

  /** Two images that differ in one channel of one pixel: both sums are that of the one difference. */
  lemma {:induction false} OneChannelChange(before: seq<Pixel>, i: nat, y: Channel, width: nat, o: Options)
    requires i < |before|
    ensures var x := before[i].r;
            var m := Measured(before, before[i := before[i].(r := y)], width, o);
            && m.squareSum == (x - y) * (x - y)
            && (y >= x ==> m.absSum == y - x) && (x >= y ==> m.absSum == x - y)
  {
    var x, after := before[i].r, before[i := before[i].(r := y)];
    OneChannelRise(before, i, y, width, o);
    SquareSumIsSquaredError(before, after, width, o);
    OnePixelError(before, i, after[i], o.ignoreAlpha, |before|);
    RedError(before[i], y, o.ignoreAlpha);
    hide *;
  }

  lemma {:induction false} LevelMoves(image: seq<Pixel>, i: nat, y: Channel, ignoreAlpha: bool)
    requires i < |image|
    ensures Level(image[i := image[i].(r := y)], ignoreAlpha) == Level(image, ignoreAlpha) + y - image[i].r
  {
    var n := |image| - 1;
    var moved := image[i := image[i].(r := y)];
    if i < n {
      assert moved[..n] == image[..n][i := image[..n][i].(r := y)];
      LevelMoves(image[..n], i, y, ignoreAlpha);
    } else {
      assert moved[..n] == image[..n];
    }
  }

  predicate MovedBy(x: Channel, y: Channel, d: nat) {
    x == y + d || y == x + d
  }

  predicate PixelMovedBy(p: Pixel, q: Pixel, ignoreAlpha: bool, d: nat) {
    MovedBy(p.r, q.r, d) && MovedBy(p.g, q.g, d) && MovedBy(p.b, q.b, d) && (ignoreAlpha || MovedBy(p.a, q.a, d))
  }

  function Samples(n: nat, ignoreAlpha: bool): nat {
    if ignoreAlpha then 3 * n else 4 * n
  }

  lemma {:induction false} PixelUniform(p: Pixel, q: Pixel, ignoreAlpha: bool, d: nat, s: seq<nat>)
    requires PixelMovedBy(p, q, ignoreAlpha, d)
    ensures Sum(s + PixelDeltas(p, q, ignoreAlpha)) == Sum(s) + (if ignoreAlpha then 3 * d else 4 * d)
    ensures SumSquares(s + PixelDeltas(p, q, ignoreAlpha)) == SumSquares(s) + (if ignoreAlpha then 3 * Square(d) else 4 * Square(d))
  {
    PixelDeltasAre(p, q, ignoreAlpha, s);
    assert AbsDiff(p.r, q.r) == d && AbsDiff(p.g, q.g) == d && AbsDiff(p.b, q.b) == d && (ignoreAlpha || AbsDiff(p.a, q.a) == d);
    hide *;
  }

  lemma {:induction false} SamplesStep(d: nat, n: nat, ignoreAlpha: bool)
    requires n > 0
    ensures d * Samples(n, ignoreAlpha) == d * Samples(n - 1, ignoreAlpha) + (if ignoreAlpha then 3 * d else 4 * d)
  {}

  lemma {:induction false} UniformDeltas(before: seq<Pixel>, after: seq<Pixel>, ignoreAlpha: bool, d: nat, n: nat)
    requires n <= |before| == |after|
    requires forall i :: 0 <= i < n ==> PixelMovedBy(before[i], after[i], ignoreAlpha, d)
    ensures Sum(Deltas(before, after, ignoreAlpha, n)) == d * Samples(n, ignoreAlpha)
    ensures SumSquares(Deltas(before, after, ignoreAlpha, n)) == Square(d) * Samples(n, ignoreAlpha)
  {
    if n > 0 {
      hide Sum, SumSquares, PixelDeltas, Samples, Square, PixelMovedBy;
      UniformDeltas(before, after, ignoreAlpha, d, n - 1);
      PixelUniform(before[n - 1], after[n - 1], ignoreAlpha, d, Deltas(before, after, ignoreAlpha, n - 1));
      SamplesStep(d, n, ignoreAlpha);
      SamplesStep(Square(d), n, ignoreAlpha);
    }
  }

  /** Images that differ by exactly `d` on every compared channel have the mean absolute error `d`
      and the mean squared error `d * d`. */
  lemma {:induction false} UniformChange(before: seq<Pixel>, after: seq<Pixel>, width: nat, o: Options, d: nat)
    requires 0 < |before| == |after|
    requires forall i :: 0 <= i < |before| ==> PixelMovedBy(before[i], after[i], o.ignoreAlpha, d)
    ensures var m := Measured(before, after, width, o);
            m.divisor > 0 && MeanAbsoluteError(m) == d as real && MeanSquaredError(m) == (d * d) as real
  {
    UniformDeltas(before, after, o.ignoreAlpha, d, |before|);
    var m := Measured(before, after, width, o);
    assert m.divisor == Samples(|before|, o.ignoreAlpha);
    assert m.absSum == d * m.divisor && m.squareSum == Square(d) * m.divisor && Square(d) == d * d;
    hide Measured, Square, Samples;
    Quotient(d, m.divisor);
    Quotient(Square(d), m.divisor);
  }

  lemma {:induction false} Quotient(d: nat, n: nat)
    requires n > 0
    ensures (d * n) as real / n as real == d as real
  {
    RealProduct(d, n);
    QuotientTimes((d * n) as real, n as real);
    Cancel((d * n) as real / n as real, d as real, n as real);
    Cancel(d as real, (d * n) as real / n as real, n as real);
  }

  lemma {:induction false} LonePixel(mask: seq<bool>, width: nat, i: nat, n: nat)
    requires i < |mask| && n <= |mask| && width > 0
    requires forall k :: 0 <= k < |mask| ==> (mask[k] <==> k == i)
    ensures CountTrue(mask[..n]) == if i < n then 1 else 0
    ensures CoordinateSum(mask, width, n, false) == if i < n then i % width else 0
    ensures CoordinateSum(mask, width, n, true) == if i < n then i / width else 0
  {
    if n > 0 {
      LonePixel(mask, width, i, n - 1);
      CountSnoc(mask, n - 1);
    }
  }

  /** A single changed pixel is the centroid, as shares of the width and the height. */
  lemma {:induction false} LonePixelIsCentroid(before: seq<Pixel>, after: seq<Pixel>, width: nat, height: nat, o: Options, i: nat)
    requires i < |before| && width * height == |before| == |after| && width > 0 && height > 0
    requires forall k :: 0 <= k < |before| ==> (Filtered(RawMask(before, after, o), width, o.regionMinArea)[k] <==> k == i)
    ensures var m := Measured(before, after, width, o);
            && CentroidX(m, width) == (i % width) as real / width as real
            && CentroidY(m, height) == (i / width) as real / height as real
  {
    var filtered := Filtered(RawMask(before, after, o), width, o.regionMinArea);
    LonePixel(filtered, width, i, |filtered|);
    assert filtered[..|filtered|] == filtered;
    var m := Measured(before, after, width, o);
    assert m.changedPixels == 1 && m.xSum == i % width && m.ySum == i / width;
    hide Measured, Filtered, RawMask, CountTrue, CoordinateSum;
    assert m.xSum as real / 1.0 == m.xSum as real && m.ySum as real / 1.0 == m.ySum as real;
  }
}
