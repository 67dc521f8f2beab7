/** Changed-pixel regions: the flood fill that labels 4-connected components of a mask,
    the area filter built on it, and the pixel comparison that feeds both. */
module AssetRegions {
  import opened Common

  datatype Box = Box(minX: nat, minY: nat, maxX: nat, maxY: nat)

  datatype Region = Region(pixels: seq<nat>, box: Box)

  // ---- Reference definitions: adjacency, paths, components ----

  /** Pixels are row-major indices; two of them touch when they share an edge. */
  predicate Adjacent(width: nat, a: nat, b: nat) {
    width > 0 &&
    ((a / width == b / width && (a % width == b % width + 1 || b % width == a % width + 1)) ||
     (a % width == b % width && (a / width == b / width + 1 || b / width == a / width + 1)))
  }

  predicate Lit(mask: seq<bool>, i: nat) {
    i < |mask| && mask[i]
  }

  /** `path` walks over lit pixels, edge by edge. */
  ghost predicate IsPath(mask: seq<bool>, width: nat, path: seq<nat>) {
    && path != []
    && (forall k :: 0 <= k < |path| ==> Lit(mask, path[k]))
    && (forall k :: 0 < k < |path| ==> Adjacent(width, path[k - 1], path[k]))
  }

  ghost predicate Connected(mask: seq<bool>, width: nat, a: nat, b: nat) {
    exists path :: IsPath(mask, width, path) && path[0] == a && path[|path| - 1] == b
  }

  /** The lit pixels a walk from `i` can reach. */
  ghost function Component(mask: seq<bool>, width: nat, i: nat): set<nat> {
    set j: nat | j < |mask| && Connected(mask, width, i, j)
  }

  lemma {:induction false} ConnectedSelf(mask: seq<bool>, width: nat, a: nat)
    requires Lit(mask, a)
    ensures Connected(mask, width, a, a)
  {
    assert IsPath(mask, width, [a]);
  }

  lemma {:induction false} ConnectedStep(mask: seq<bool>, width: nat, a: nat, b: nat, c: nat)
    requires Connected(mask, width, a, b) && Adjacent(width, b, c) && Lit(mask, c)
    ensures Connected(mask, width, a, c)
  {
    var path :| IsPath(mask, width, path) && path[0] == a && path[|path| - 1] == b;
    assert IsPath(mask, width, path + [c]);
  }

  lemma {:induction false} ConnectedTransitive(mask: seq<bool>, width: nat, a: nat, b: nat, c: nat)
    requires Connected(mask, width, a, b) && Connected(mask, width, b, c)
    ensures Connected(mask, width, a, c)
  {
    var p :| IsPath(mask, width, p) && p[0] == a && p[|p| - 1] == b;
    var q :| IsPath(mask, width, q) && q[0] == b && q[|q| - 1] == c;
    var whole := p + q[1..];
    forall k | 0 < k < |whole| ensures Adjacent(width, whole[k - 1], whole[k]) {
      if k >= |p| { assert whole[k] == q[k - |p| + 1] && whole[k - 1] == q[k - |p|]; }
    }
    assert IsPath(mask, width, whole);
  }

  lemma {:induction false} ConnectedSymmetric(mask: seq<bool>, width: nat, a: nat, b: nat)
    requires Connected(mask, width, a, b)
    ensures Connected(mask, width, b, a)
  {
    var p :| IsPath(mask, width, p) && p[0] == a && p[|p| - 1] == b;
    var back := seq(|p|, k requires 0 <= k < |p| => p[|p| - 1 - k]);
    assert IsPath(mask, width, back);
  }

  // ---- What `collect_regions` must return ----

  ghost predicate NoDuplicates(s: seq<nat>) {
    forall i, j :: 0 <= i < j < |s| ==> s[i] != s[j]
  }

  /** The box is the smallest one holding every listed pixel. */
  ghost predicate TightBox(width: nat, pixels: seq<nat>, box: Box)
    requires width > 0
  {
    && (forall p :: p in pixels ==> box.minX <= p % width <= box.maxX && box.minY <= p / width <= box.maxY)
    && (exists p :: p in pixels && p % width == box.minX)
    && (exists p :: p in pixels && p % width == box.maxX)
    && (exists p :: p in pixels && p / width == box.minY)
    && (exists p :: p in pixels && p / width == box.maxY)
  }

  /** One region: exactly the component of its first pixel, each pixel listed once, tightly boxed.
      The first pixel is the one with the smallest index. */
  ghost predicate IsRegion(mask: seq<bool>, width: nat, r: Region)
    requires width > 0
  {
    && r.pixels != []
    && NoDuplicates(r.pixels)
    && (forall p :: p in r.pixels ==> Lit(mask, p) && Connected(mask, width, r.pixels[0], p) && r.pixels[0] <= p)
    && (forall p, q :: p in r.pixels && Lit(mask, q) && Adjacent(width, p, q) ==> q in r.pixels)
    && TightBox(width, r.pixels, r.box)
  }

  ghost predicate Disjoint(regions: seq<Region>) {
    forall k, l, p :: 0 <= k < l < |regions| && p in regions[k].pixels ==> p !in regions[l].pixels
  }

  ghost predicate Owned(regions: seq<Region>, p: nat) {
    exists k :: 0 <= k < |regions| && p in regions[k].pixels
  }

  ghost predicate AreRegions(mask: seq<bool>, width: nat, regions: seq<Region>) {
    && (regions != [] ==> width > 0)
    && (forall k :: 0 <= k < |regions| ==> IsRegion(mask, width, regions[k]))
    && Disjoint(regions)
    && (forall k, l :: 0 <= k < l < |regions| ==> regions[k].pixels[0] < regions[l].pixels[0])
    && (forall p: nat :: Lit(mask, p) <==> Owned(regions, p))
  }

  // ---- Coordinate arithmetic ----

  lemma {:induction false} Multiples(a: int, b: int, width: int)
    requires width >= 0
    ensures a >= b ==> a * width >= b * width
  {
    if a >= b { assert (a - b) * width >= 0; }
  }

  lemma {:induction false} Coordinates(width: nat, x: nat, y: nat)
    requires x < width
    ensures (y * width + x) / width == y && (y * width + x) % width == x
  {
    var n := y * width + x;
    var q := n / width;
    assert n == q * width + n % width;
    Multiples(y, q + 1, width);
    Multiples(q, y + 1, width);
    assert (q + 1) * width == q * width + width && (y + 1) * width == y * width + width;
  }

  lemma {:induction false} InGrid(width: nat, height: nat, x: nat, y: nat)
    requires x < width && y < height
    ensures y * width + x < width * height
  {
    Multiples(height, y + 1, width);
  }

  lemma {:induction false} RowInGrid(width: nat, height: nat, i: nat)
    requires i < width * height
    ensures width > 0 && 0 <= i % width < width && 0 <= i / width < height
    ensures i == (i / width) * width + i % width
    ensures i % width <= i && i / width <= i
  {
    assert width > 0;
    var q := i / width;
    assert i == q * width + i % width;
    Multiples(q, height, width);
    Multiples(-1, q, width);
    assert q >= 0;
    Multiples(width, 1, q);
  }

  /** The four neighbours tried for one pixel, in the order tried, each with its validity test. */
  function Candidates(width: nat, height: nat, x: nat, y: nat): seq<(int, int, bool)> {
    [(x - 1, y, x > 0), (x + 1, y, x + 1 < width), (x, y - 1, y > 0), (x, y + 1, y + 1 < height)]
  }

  /** Validity is exactly being an in-grid neighbour. */
  lemma {:induction false} CandidatesAreNeighbours(width: nat, height: nat, i: nat, k: nat)
    requires i < width * height && k < 4
    requires width > 0
    requires Candidates(width, height, i % width, i / width)[k].2
    ensures var c := Candidates(width, height, i % width, i / width)[k];
            c.0 >= 0 && c.1 >= 0 && 0 <= c.1 * width + c.0 < width * height && Adjacent(width, i, c.1 * width + c.0)
  {
    RowInGrid(width, height, i);
    var c := Candidates(width, height, i % width, i / width)[k];
    Coordinates(width, c.0, c.1);
    InGrid(width, height, c.0, c.1);
  }

  lemma {:induction false} NeighboursAreCandidates(width: nat, height: nat, i: nat, j: nat)
    requires i < width * height && j < width * height
    requires Adjacent(width, i, j)
    ensures exists k :: 0 <= k < 4 && (var c := Candidates(width, height, i % width, i / width)[k];
                                       c.2 && c.1 * width + c.0 == j)
  {
    RowInGrid(width, height, i);
    RowInGrid(width, height, j);
    var cs := Candidates(width, height, i % width, i / width);
    var k := if i / width == j / width then (if i % width == j % width + 1 then 0 else 1)
             else (if i / width == j / width + 1 then 2 else 3);
    assert cs[k].2 && cs[k].1 * width + cs[k].0 == j;
  }

  ghost function Elements(s: seq<nat>): (r: set<nat>)
    ensures forall p :: p in r <==> p in s
    ensures NoDuplicates(s) ==> |r| == |s|
  {
    if s == [] then {}
    else
      var rest := Elements(s[1..]);
      assert NoDuplicates(s) ==> NoDuplicates(s[1..]) && s[0] !in s[1..];
      rest + {s[0]}
  }

  lemma {:induction false} DistinctFit(s: seq<nat>, n: nat)
    requires NoDuplicates(s)
    requires forall p :: p in s ==> p < n
    ensures |s| <= n
  {
    SubsetSize(Elements(s), Below(n));
  }

  // ---- collect_regions ----

  /** Every coordinate stays within `bound`, which stands for the source's `usize::MAX`. */
  function EmptyBox(bound: nat): Box {
    Box(bound, bound, 0, 0)
  }

  function Widen(box: Box, x: nat, y: nat): Box {
    Box(if x < box.minX then x else box.minX, if y < box.minY then y else box.minY,
        if x > box.maxX then x else box.maxX, if y > box.maxY then y else box.maxY)
  }

  /** The box of the pixels taken so far. */
  ghost predicate BoxOf(width: nat, bound: nat, pixels: seq<nat>, box: Box)
    requires width > 0
  {
    if pixels == [] then box == EmptyBox(bound) else TightBox(width, pixels, box)
  }

  lemma {:induction false} WidenKeepsTight(width: nat, height: nat, pixels: seq<nat>, box: Box, p: nat)
    requires width > 0 && p < width * height && BoxOf(width, width * height, pixels, box)
    ensures 0 <= p % width && 0 <= p / width
    ensures BoxOf(width, width * height, pixels + [p], Widen(box, p % width, p / width))
  {
    RowInGrid(width, height, p);
    hide BoxOf;
    WidenBox(width, width * height, pixels, box, p);
  }

  ghost predicate SpansColumns(width: nat, pixels: seq<nat>, low: int, high: int)
    requires width > 0
  {
    && (forall p :: p in pixels ==> low <= p % width <= high)
    && (exists p :: p in pixels && p % width == low) && exists p :: p in pixels && p % width == high
  }

  ghost predicate SpansRows(width: nat, pixels: seq<nat>, low: int, high: int)
    requires width > 0
  {
    && (forall p :: p in pixels ==> low <= p / width <= high)
    && (exists p :: p in pixels && p / width == low) && exists p :: p in pixels && p / width == high
  }

  lemma {:induction false} WidenColumns(width: nat, pixels: seq<nat>, low: int, high: int, p: nat)
    requires width > 0 && SpansColumns(width, pixels, low, high)
    ensures SpansColumns(width, pixels + [p], if p % width < low then p % width else low, if p % width > high then p % width else high)
  {
    var a :| a in pixels && a % width == low;
    var b :| b in pixels && b % width == high;
    assert a in pixels + [p] && b in pixels + [p] && p in pixels + [p];
  }

  lemma {:induction false} WidenRows(width: nat, pixels: seq<nat>, low: int, high: int, p: nat)
    requires width > 0 && SpansRows(width, pixels, low, high)
    ensures SpansRows(width, pixels + [p], if p / width < low then p / width else low, if p / width > high then p / width else high)
  {
    var a :| a in pixels && a / width == low;
    var b :| b in pixels && b / width == high;
    assert a in pixels + [p] && b in pixels + [p] && p in pixels + [p];
  }

  lemma {:induction false} TightMeansSpans(width: nat, pixels: seq<nat>, box: Box)
    requires width > 0
    ensures TightBox(width, pixels, box) <==>
              SpansColumns(width, pixels, box.minX, box.maxX) && SpansRows(width, pixels, box.minY, box.maxY)
  {}

  lemma {:induction false} WidenBox(width: nat, bound: nat, pixels: seq<nat>, box: Box, p: nat)
    requires width > 0 && 0 <= p % width <= bound && 0 <= p / width <= bound && BoxOf(width, bound, pixels, box)
    ensures BoxOf(width, bound, pixels + [p], Widen(box, p % width, p / width))
  {
    if pixels == [] {
      assert p in pixels + [p];
    } else {
      hide TightBox, SpansColumns, SpansRows;
      TightMeansSpans(width, pixels, box);
      WidenColumns(width, pixels, box.minX, box.maxX, p);
      WidenRows(width, pixels, box.minY, box.maxY, p);
      TightMeansSpans(width, pixels + [p], Widen(box, p % width, p / width));
    }
  }

  /** The regions found once every pixel below `start` has been looked at. */
  ghost predicate FoundBefore(mask: seq<bool>, width: nat, regions: seq<Region>, start: nat) {
    && (regions != [] ==> width > 0)
    && (forall k :: 0 <= k < |regions| ==> IsRegion(mask, width, regions[k]) && regions[k].pixels[0] < start)
    && Disjoint(regions)
    && (forall k, l :: 0 <= k < l < |regions| ==> regions[k].pixels[0] < regions[l].pixels[0])
  }

  lemma {:induction false} OwnedSnoc(regions: seq<Region>, region: Region, p: nat)
    ensures Owned(regions + [region], p) <==> Owned(regions, p) || p in region.pixels
  {
    var all := regions + [region];
    assert all[|regions|] == region;
    if Owned(regions, p) {
      var k :| 0 <= k < |regions| && p in regions[k].pixels;
      assert all[k] == regions[k];
    }
  }

  lemma {:induction false} AppendRegion(mask: seq<bool>, width: nat, regions: seq<Region>, region: Region)
    requires width > 0 && IsRegion(mask, width, region)
    requires FoundBefore(mask, width, regions, region.pixels[0])
    requires forall p :: p in region.pixels ==> !Owned(regions, p)
    ensures FoundBefore(mask, width, regions + [region], region.pixels[0] + 1)
  {
    var all := regions + [region];
    forall k, l, p | 0 <= k < l < |all| && p in all[k].pixels ensures p !in all[l].pixels {
      if l == |regions| {
        assert Owned(regions, p);
      }
    }
    assert Disjoint(all);
  }

  method CollectRegions(mask: seq<bool>, width: nat, height: nat) returns (regions: seq<Region>)
    requires width * height == |mask|
    ensures AreRegions(mask, width, regions)
  {
    var visited := new bool[|mask|](_ => false);
    regions := [];
    for start := 0 to |mask|
      invariant FoundBefore(mask, width, regions, start)
      invariant forall p: nat :: p < |mask| ==> (visited[p] <==> Owned(regions, p))
      invariant forall p: nat :: p < start && mask[p] ==> visited[p]
    {
      if visited[start] || !mask[start] {
        continue;
      }
      RowInGrid(width, height, start);
      var region := FloodFill(mask, width, height, start, visited, regions);
      AppendRegion(mask, width, regions, region);
      forall p: nat ensures Owned(regions + [region], p) <==> Owned(regions, p) || p in region.pixels {
        OwnedSnoc(regions, region, p);
      }
      regions := regions + [region];
    }
  }

  /** Nothing outside already labelled regions touches them: they are closed and adjacency is symmetric. */
  lemma {:induction false} NeighbourNotOwned(mask: seq<bool>, width: nat, regions: seq<Region>, p: nat, q: nat)
    requires width > 0
    requires forall k :: 0 <= k < |regions| ==> IsRegion(mask, width, regions[k])
    requires Lit(mask, p) && !Owned(regions, p) && Adjacent(width, p, q)
    ensures !Owned(regions, q)
  {
    if Owned(regions, q) {
      var k :| 0 <= k < |regions| && q in regions[k].pixels;
      assert IsRegion(mask, width, regions[k]);
      assert Adjacent(width, q, p);
    }
  }

  /** The breadth-first loop of one component, starting at the first unvisited lit pixel. */
  method FloodFill(mask: seq<bool>, width: nat, height: nat, start: nat, visited: array<bool>,
                   ghost regions: seq<Region>) returns (region: Region)
    requires width > 0 && width * height == |mask| == visited.Length
    requires Lit(mask, start) && !visited[start]
    requires forall k :: 0 <= k < |regions| ==> IsRegion(mask, width, regions[k])
    requires forall p: nat :: p < |mask| ==> (visited[p] <==> Owned(regions, p))
    requires forall p: nat :: p < start && mask[p] ==> visited[p]
    modifies visited
    ensures IsRegion(mask, width, region) && region.pixels[0] == start
    ensures forall p :: p in region.pixels ==> !old(visited[p])
    ensures forall p: nat :: p < |mask| ==> (visited[p] <==> old(visited[p]) || p in region.pixels)
  {
    var component: seq<nat> := [];
    var queue: seq<nat> := [start];
    var box := EmptyBox(|mask|);
    visited[start] := true;
    StartsAlone(mask, width, start);
    hide Frontier, Explored, IsRegion, TightBox, Adjacent, Connected;
    while queue != []
      invariant forall p: nat :: p < |mask| ==> (visited[p] <==> old(visited[p]) || p in component + queue)
      invariant Frontier(mask, width, start, component + queue)
      invariant forall p :: p in component + queue ==> !old(visited[p])
      invariant Explored(mask, width, component, component + queue)
      invariant BoxOf(width, |mask|, component, box)
      decreases |mask| - |component|
    {
      ghost var before := component + queue;
      var idx := queue[0];
      assert idx in before && before == component + [idx] + queue[1..];
      DistinctFit(before, |mask|);
      WidenKeepsTight(width, height, component, box, idx);
      box := Widen(box, idx % width, idx / width);
      var added := VisitNeighbours(mask, width, height, idx, visited);
      Explore(mask, width, start, component, before, idx, added, regions);
      component := component + [idx];
      queue := queue[1..] + added;
      assert component + queue == before + added;
    }
    assert component + queue == component;
    ClosedIsRegion(mask, width, start, component, box);
    region := Region(component, box);
  }

  lemma {:induction false} StartsAlone(mask: seq<bool>, width: nat, start: nat)
    requires Lit(mask, start)
    ensures Frontier(mask, width, start, [] + [start]) && Explored(mask, width, [], [] + [start])
  {
    ConnectedSelf(mask, width, start);
    assert [] + [start] == [start];
  }

  /** Everything found has been taken: the component is complete. */
  lemma {:induction false} ClosedIsRegion(mask: seq<bool>, width: nat, start: nat, pixels: seq<nat>, box: Box)
    requires width > 0 && Frontier(mask, width, start, pixels) && Explored(mask, width, pixels, pixels)
    requires BoxOf(width, |mask|, pixels, box) && forall p :: p in pixels ==> start <= p
    ensures IsRegion(mask, width, Region(pixels, box)) && pixels[0] == start
  {
    hide TightBox, Connected, Adjacent, NoDuplicates;
  }

  /** Every lit neighbour of a pixel in `done` has been found. */
  ghost predicate Explored(mask: seq<bool>, width: nat, done: seq<nat>, found: seq<nat>) {
    forall p, q :: p in done && Lit(mask, q) && Adjacent(width, p, q) ==> q in found
  }

  lemma {:induction false} Explore(mask: seq<bool>, width: nat, start: nat, done: seq<nat>, found: seq<nat>, idx: nat,
                                   added: seq<nat>,
                                   regions: seq<Region>)
    requires width > 0
    requires forall k :: 0 <= k < |regions| ==> IsRegion(mask, width, regions[k])
    requires Frontier(mask, width, start, found) && idx in found && !Owned(regions, idx)
    requires Explored(mask, width, done, found)
    requires NoDuplicates(added)
    requires forall p :: p in added ==> Lit(mask, p) && Adjacent(width, idx, p) && p !in found
    requires forall q: nat :: Lit(mask, q) && Adjacent(width, idx, q) ==> Owned(regions, q) || q in found || q in added
    ensures Frontier(mask, width, start, found + added)
    ensures Explored(mask, width, done + [idx], found + added)
  {
    forall p | p in added ensures Connected(mask, width, start, p) {
      ConnectedStep(mask, width, start, idx, p);
    }
    var all := found + added;
    forall i, j | 0 <= i < j < |all| ensures all[i] != all[j] {
      if i < |found| <= j {
        assert all[j] == added[j - |found|] && all[i] in found && all[j] in added;
      }
    }
    forall q: nat | Lit(mask, q) && Adjacent(width, idx, q) ensures q in all {
      NeighbourNotOwned(mask, width, regions, idx, q);
    }
  }

  /** Discovered pixels: each once, lit, joined to the start, which comes first. */
  ghost predicate Frontier(mask: seq<bool>, width: nat, start: nat, found: seq<nat>) {
    && found != [] && found[0] == start
    && NoDuplicates(found)
    && forall p :: p in found ==> Lit(mask, p) && Connected(mask, width, start, p)
  }

  /** Marks the unvisited lit neighbours of `idx` and returns them in the order found. */
  method VisitNeighbours(mask: seq<bool>, width: nat, height: nat, idx: nat, visited: array<bool>)
    returns (added: seq<nat>)
    requires width > 0 && width * height == |mask| == visited.Length
    requires idx < |mask| && visited[idx]
    modifies visited
    ensures NoDuplicates(added)
    ensures forall p :: p in added ==> Lit(mask, p) && Adjacent(width, idx, p) && !old(visited[p])
    ensures forall p: nat :: p < |mask| ==> (visited[p] <==> old(visited[p]) || p in added)
    ensures forall q: nat :: Lit(mask, q) && Adjacent(width, idx, q) ==> visited[q]
  {
    added := [];
    RowInGrid(width, height, idx);
    var candidates := Candidates(width, height, idx % width, idx / width);
    for k := 0 to 4
      invariant NoDuplicates(added)
      invariant forall p :: p in added ==> Lit(mask, p) && Adjacent(width, idx, p) && !old(visited[p])
      invariant forall p: nat :: p < |mask| ==> (visited[p] <==> old(visited[p]) || p in added)
      invariant forall l :: 0 <= l < k && candidates[l].2 ==>
                  var next := candidates[l].1 * width + candidates[l].0;
                  0 <= next < |mask| && (mask[next] ==> visited[next])
    {
      var (nx, ny, valid) := candidates[k];
      if valid {
        CandidatesAreNeighbours(width, height, idx, k);
        var next := ny * width + nx;
        if !visited[next] && mask[next] {
          visited[next] := true;
          added := added + [next];
        }
      }
    }
    forall q: nat | Lit(mask, q) && Adjacent(width, idx, q) ensures visited[q] {
      NeighboursAreCandidates(width, height, idx, q);
    }
  }
}
