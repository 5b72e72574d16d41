/** Whether the caller's node storage is always enough, which the quantization of widths in
    stbrp_setup_allow_out_of_mem (Thirdparty/imgui/imstb_rectpack.h) is meant to guarantee.
    The search rounds widths up to `align`, but the splice uses the width as given; so the
    guarantee holds for widths that are multiples of `align`, and not for others. */
module PackerStorage {
  import opened Wrappers
  import opened Skyline
  import opened PackerModel
  import opened RectPack
  import opened BestFit

  /** A rectangle that would fit is turned away for want of a node. */
  ghost predicate Starved(p: Packer, w: int, h: int)
    requires 0 < p.align
  {
    p.free == 0 && exists x :: Feasible(p, w, h, x)
  }

  // ------------------------------------------------------------ multiples of `align` suffice

  /** The multiples of `d`. */
  ghost function Multiples(d: int): iset<int>
    requires 0 < d
  {
    iset x | x % d == 0
  }

  /** All knots but the sentinel start on the grid. */
  ghost predicate OnGrid(s: seq<Knot>, grid: iset<int>) {
    forall i :: 0 <= i < |s| - 1 ==> s[i].x in grid
  }

  lemma MultipleMod(q: int, d: int)
    requires 0 < d
    ensures (q * d) % d == 0
  {
    ModUnique(q * d, q, d, 0);
  }

  lemma MultiplesAdd(a: int, b: int, d: int)
    requires 0 < d && a in Multiples(d) && b in Multiples(d)
    ensures a + b in Multiples(d) && a - b in Multiples(d)
  {
    var qa, qb := a / d, b / d;
    assert a == qa * d && b == qb * d;
    assert a + b == (qa + qb) * d && a - b == (qa - qb) * d;
    MultipleMod(qa + qb, d);
    MultipleMod(qa - qb, d);
  }

  /** Distinct multiples of `d` are at least `d` apart. */
  lemma GridGap(a: int, b: int, d: int)
    requires 0 < d && a % d == 0 && b % d == 0 && a < b
    ensures a + d <= b
  {
    var qa, qb := a / d, b / d;
    assert qa * d == a && qb * d == b;
    LessFactor(qa, qb, d);
    NextMultiple(qa, qb, d);
  }

  lemma LessFactor(a: int, b: int, d: int)
    requires 0 < d && a * d < b * d
    ensures a < b
  {
    NextMultiple(b, a, d);
  }

  lemma {:induction false} GridSpread(s: seq<Knot>, d: int, i: nat)
    requires 0 < d && Increasing(s) && OnGrid(s, Multiples(d)) && i < |s| - 1 && 0 <= s[0].x
    ensures i * d <= s[i].x
  {
    if 0 < i {
      GridSpread(s, d, i - 1);
      assert s[i - 1].x in Multiples(d) && s[i].x in Multiples(d);
      GridGap(s[i - 1].x, s[i].x, d);
      Distribute(i, d);
    }
  }

  /** On a grid of pitch `align` there is always a free node left. */
  lemma GridLeavesRoom(p: Packer)
    requires SkyOk(p) && OnGrid(p.sky, Multiples(p.align)) && p.width <= p.align * p.numNodes
    ensures 0 < p.free
  {
    var i := |p.sky| - 2;
    GridSpread(p.sky, p.align, i);
    assert p.sky[i].x < p.sky[i + 1].x;
    assert i * p.align < p.numNodes * p.align;
    LessFactor(i, p.numNodes, p.align);
  }

  lemma SpliceOnGrid(s: seq<Knot>, width: int, i: nat, x: int, top: int, w: int, grid: iset<int>)
    requires OnGrid(s, grid) && Place(s, width, i, x, w) && x in grid && x + w in grid
    ensures OnGrid(Splice(s, i, x, top, w), grid)
  {
    var r := Splice(s, i, x, top, w);
    forall a | 0 <= a < |r| - 1
      ensures r[a].x in grid
    {
      SpliceAt(s, i, x, top, w, a);
    }
  }

  /** The columns in front of the right edge are on the ground. */
  ghost predicate GroundAtEdge(s: seq<Knot>) { |s| >= 2 && s[|s| - 2].y == 0 }

  /** On the grid of pitch `align`.  Best fit also measures from the right edge of the target: either that
      is on the grid too, or there is ground in front of it. */
  ghost predicate Gridded(p: Packer) {
    && 0 < p.align && OnGrid(p.sky, Multiples(p.align))
    && (p.bestFit ==> p.width in Multiples(p.align) || GroundAtEdge(p.sky))
  }

  /** A span that is right-aligned on ground, but starts inside a raised knot, is never picked: one
      column further left it would waste less. */
  lemma NeverOnEdge(p: Packer, rw: int, h: int, i: nat, x: int)
    requires SkyOk(p) && p.bestFit && 0 < rw && Picked(p, rw, h, i, x) && Rest(p, x, rw) + h <= p.height
    requires p.sky[i].x < x && x + rw == p.width
    ensures !GroundAtEdge(p.sky)
  {
    var last := |p.sky| - 2;
    HeightOfKnot(p.sky, i, x - 1);
    HeightOfKnot(p.sky, i, x);
    SpanMaxBounds(p.sky, x, x + rw, x);
    Ordered(p.sky, 0, i);
    if p.sky[last].y == 0 {
      HeightOfKnot(p.sky, last, p.width - 1);
      Shift(p.sky, x - 1, rw, p.sky[i].y, 0);
      PickedIsBest(p, rw, h, i, x, x - 1);
    }
  }

  /** The search only picks positions on the grid. */
  lemma PickedOnGrid(p: Packer, rw: int, h: int, i: nat, x: int)
    requires SkyOk(p) && 0 < rw && Picked(p, rw, h, i, x) && Rest(p, x, rw) + h <= p.height
    requires Gridded(p) && rw in Multiples(p.align)
    ensures x in Multiples(p.align)
  {
    if p.sky[i].x != x {
      var k := KnotAt(p.sky, x + rw);
      if k == |p.sky| - 1 {
        NeverOnEdge(p, rw, h, i, x);
      }
      assert x + rw in Multiples(p.align);
      MultiplesAdd(x + rw, rw, p.align);
    }
  }

  /** A splice that does not reach the right edge leaves the ground in front of it. */
  lemma SpliceKeepsEdge(s: seq<Knot>, width: int, i: nat, x: int, top: int, w: int)
    requires Place(s, width, i, x, w) && x + w < width && GroundAtEdge(s) && (s[i].x == x || 0 < s[i].y)
    ensures GroundAtEdge(Splice(s, i, x, top, w))
  {
    SpliceAt(s, i, x, top, w, |Splice(s, i, x, top, w)| - 2);
  }

  lemma SpliceGridded(s: seq<Knot>, width: int, i: nat, x: int, top: int, w: int, grid: iset<int>)
    requires Place(s, width, i, x, w) && OnGrid(s, grid) && x in grid && x + w in grid && (s[i].x == x || 0 < s[i].y)
    ensures OnGrid(Splice(s, i, x, top, w), grid)
    ensures width in grid || !GroundAtEdge(s) || GroundAtEdge(Splice(s, i, x, top, w))
  {
    SpliceOnGrid(s, width, i, x, top, w, grid);
    if width !in grid && GroundAtEdge(s) {
      SpliceKeepsEdge(s, width, i, x, top, w);
    }
  }

  lemma PlacedOnGrid(p: Packer, w: int, h: int, i: nat, x: int, y: int)
    requires Place(p.sky, p.width, i, x, w) && (p.sky[i].x == x || 0 < p.sky[i].y)
    requires Gridded(p) && x in Multiples(p.align) && w in Multiples(p.align)
    ensures Gridded(Packed(p, w, h, i, x, y))
  {
    var grid := Multiples(p.align);
    MultiplesAdd(x, w, p.align);
    SpliceGridded(p.sky, p.width, i, x, y + h, w, grid);
  }

  lemma PackedOnGrid(p: Packer, w: int, rw: int, h: int, i: nat, x: int, y: int, p': Packer)
    requires SkyOk(p) && Gridded(p) && Picked(p, rw, h, i, x) && 0 < w <= rw && p' == Packed(p, w, h, i, x, y)
    requires w in Multiples(p.align) && rw in Multiples(p.align) && Rest(p, x, rw) + h <= p.height
    ensures Gridded(p')
  {
    PickedOnGrid(p, rw, h, i, x);
    PlacedOnGrid(p, w, h, i, x, y);
  }

  lemma StepStaysOnGrid(p: Packer, w: int, h: int, p': Packer, r: Option<(int, int)>)
    requires Inv(p) && Step(p, w, h, p', r) && Gridded(p) && w in Multiples(p.align)
    ensures Gridded(p')
  {
    if r.Some? {
      var (x, y) := r.value;
      var rw := Rounded(w, p.align);
      var i: nat :| Picked(p, rw, h, i, x) && p' == Packed(p, w, h, i, x, y);
      var q := RoundedMultiple(w, p.align);
      PackedOnGrid(p, w, rw, h, i, x, y, p');
    }
  }

  ghost predicate Quantized(reqs: seq<Request>, grid: iset<int>) {
    forall i :: 0 <= i < |reqs| ==> reqs[i].w in grid
  }

  lemma {:induction false} RunStaysOnGrid(p: Packer, reqs: seq<Request>, outs: seq<Option<(int, int)>>, p': Packer)
    requires Inv(p) && Run(p, reqs, outs, p') && Gridded(p) && Quantized(reqs, Multiples(p.align))
    ensures Inv(p') && SameTarget(p, p') && Gridded(p')
    decreases |reqs|
  {
    if reqs != [] {
      var q :| Step(p, reqs[0].w, reqs[0].h, q, outs[0]) && Run(q, reqs[1..], outs[1..], p');
      StepKeepsInv(p, reqs[0].w, reqs[0].h, q, outs[0]);
      StepStaysOnGrid(p, reqs[0].w, reqs[0].h, q, outs[0]);
      RunStaysOnGrid(q, reqs[1..], outs[1..], p');
    }
  }

  /** If every width is a multiple of `align`, no run ever runs out of nodes. */
  lemma QuantizedRunHasRoom(p: Packer, reqs: seq<Request>, outs: seq<Option<(int, int)>>, p': Packer)
    requires Inv(p) && Gridded(p) && p.width <= p.align * p.numNodes
    requires Run(p, reqs, outs, p') && Quantized(reqs, Multiples(p.align))
    ensures 0 < p'.free
  {
    RunStaysOnGrid(p, reqs, outs, p');
    GridLeavesRoom(p');
  }

  /** A fresh target with a heuristic. */
  ghost function Fresh(w: int, h: int, align: int, n: int, bestFit: bool): Packer {
    Initial(w, h, align, n).(bestFit := bestFit)
  }

  lemma FreshInv(w: int, h: int, align: int, n: int, bestFit: bool)
    requires 1 <= w && 0 <= h && 1 <= align && 1 <= n
    ensures Inv(Fresh(w, h, align, n, bestFit))
  {
    InitialInv(w, h, align, n);
  }

  /** So on a fresh target of any width, with either heuristic. */
  lemma QuantizedSuffices(w: int, h: int, align: int, n: int, bestFit: bool, reqs: seq<Request>,
                          outs: seq<Option<(int, int)>>, p: Packer)
    requires 1 <= w && 0 <= h && 1 <= align && 1 <= n && w <= align * n
    requires Run(Fresh(w, h, align, n, bestFit), reqs, outs, p) && Quantized(reqs, Multiples(align))
    ensures 0 < p.free
  {
    FreshInv(w, h, align, n, bestFit);
    QuantizedRunHasRoom(Fresh(w, h, align, n, bestFit), reqs, outs, p);
  }

  // ------------------------------------------------------------ as many nodes as columns suffice

  /** Knots are at different columns. */
  lemma {:induction false} KnotIndex(s: seq<Knot>, i: nat)
    requires Increasing(s) && i < |s| && 0 <= s[0].x
    ensures i <= s[i].x
  {
    if 0 < i {
      KnotIndex(s, i - 1);
      assert s[i - 1].x < s[i].x;
    }
  }

  lemma ColumnsSuffice(p: Packer)
    requires SkyOk(p) && p.width <= p.numNodes
    ensures 0 < p.free
  {
    KnotIndex(p.sky, |p.sky| - 1);
  }

  // ------------------------------------------------------------ other widths do not

  /** The packer after `k` unit squares: they stand side by side from column 0 on. */
  ghost function Crowd(w: int, h: int, align: int, n: int, bestFit: bool, k: nat): Packer {
    Packer(w, h, align, bestFit, n, CrowdSky(w, k), n - k, CrowdBoxes(k))
  }

  function CrowdBoxes(k: nat): set<Box> {
    if k == 0 then {} else CrowdBoxes(k - 1) + {Box(k - 1, 0, 1, 1)}
  }

  function CrowdSky(w: int, k: nat): (s: seq<Knot>)
    ensures |s| == k + 2
  {
    seq(k, i => Knot(i, 1)) + [Knot(k, 0), Knot(w, SENTINEL_HEIGHT)]
  }

  lemma CrowdKnots(w: int, k: nat)
    requires k < w
    ensures var s := CrowdSky(w, k);
            && (forall i :: 0 <= i < k ==> s[i] == Knot(i, 1))
            && s[k] == Knot(k, 0) && s[k + 1] == Knot(w, SENTINEL_HEIGHT) && Increasing(s)
  {
  }

  lemma CrowdSpans(w: int, h: int, align: int, n: int, bestFit: bool, k: nat)
    requires k < w && k <= n && 1 <= h && 1 <= align && 1 <= n
    ensures SkyOk(Crowd(w, h, align, n, bestFit, k))
  {
    CrowdKnots(w, k);
  }

  /** The height of a column: one up to the last square, then zero. */
  lemma CrowdHeight(w: int, k: nat, c: int)
    requires k < w && 0 <= c < w
    ensures HeightAt(CrowdSky(w, k), c) == if c < k then 1 else 0
  {
    CrowdKnots(w, k);
    HeightOfKnot(CrowdSky(w, k), if c < k then c else k, c);
  }

  lemma CrowdRest(w: int, k: nat, x: int, rw: int)
    requires k < w && 0 <= x && 0 < rw && x + rw <= w
    ensures SpanMax(CrowdSky(w, k), x, x + rw) == if x < k then 1 else 0
  {
    var s := CrowdSky(w, k);
    CrowdHeight(w, k, x);
    SpanMaxBounds(s, x, x + rw, x);
    forall c | x <= c < x + rw
      ensures HeightAt(s, c) <= if x < k then 1 else 0
    {
      CrowdHeight(w, k, c);
    }
    SpanMaxLeast(s, x, x + rw, if x < k then 1 else 0);
  }

  lemma {:induction false} SlackNonNegative(s: seq<Knot>, x0: int, x1: int, top: int)
    requires SpanMax(s, x0, x1) <= top
    ensures 0 <= SpanSlack(s, x0, x1, top)
    decreases x1 - x0
  {
    if x0 < x1 {
      SlackNonNegative(s, x0, x1 - 1, top);
    }
  }

  lemma CrowdFittest(w: int, h: int, align: int, n: int, bestFit: bool, k: nat, hh: int)
    requires k + align <= w && k < n && 1 <= h && 1 <= align
    ensures Fittest(Crowd(w, h, align, n, bestFit, k), align, hh, k, k)
  {
    var p := Crowd(w, h, align, n, bestFit, k);
    CrowdSpans(w, h, align, n, bestFit, k);
    CrowdKnots(w, k);
    GroundArea(p, align, k, k);
    forall i: nat, x | Candidate(p, align, i, x)
      ensures NoWorse(RankOf(p, align, k), RankOf(p, align, x))
    {
      CrowdRest(w, k, x, align);
      SlackNonNegative(p.sky, x, x + align, Rest(p, x, align));
    }
  }

  lemma CrowdChoice(w: int, h: int, align: int, n: int, bestFit: bool, k: nat, hh: int)
    requires k + align <= w && k < n && 1 <= h && 1 <= align
    ensures Picked(Crowd(w, h, align, n, bestFit, k), align, hh, k, k)
  {
    var p := Crowd(w, h, align, n, bestFit, k);
    CrowdSpans(w, h, align, n, bestFit, k);
    CrowdKnots(w, k);
    CrowdRest(w, k, k, align);
    CrowdFittest(w, h, align, n, bestFit, k, hh);
    forall x | 0 <= x && x + align <= w
      ensures Rest(p, k, align) <= Rest(p, x, align)
    {
      CrowdRest(w, k, x, align);
    }
    forall j | 0 <= j < k
      ensures Rest(p, k, align) < Rest(p, p.sky[j].x, align)
    {
      CrowdRest(w, k, j, align);
    }
  }

  lemma CrowdPacked(w: int, h: int, align: int, n: int, bestFit: bool, k: nat)
    requires k + align <= w && k < n && 1 <= h && 2 <= align
    ensures Packed(Crowd(w, h, align, n, bestFit, k), 1, 1, k, k, 0) == Crowd(w, h, align, n, bestFit, k + 1)
  {
    var s := CrowdSky(w, k);
    assert SpliceStart(s, k, k) == k && SpliceEnd(s, k, k + 1) == k;
    assert Splice(s, k, k, 1, 1) == CrowdSky(w, k + 1);
  }

  lemma CrowdStep(w: int, h: int, align: int, n: int, bestFit: bool, k: nat)
    requires k + align <= w && k < n && 1 <= h && 2 <= align
    ensures Step(Crowd(w, h, align, n, bestFit, k), 1, 1, Crowd(w, h, align, n, bestFit, k + 1), Some((k, 0)))
  {
    CrowdRest(w, k, k, align);
    CrowdChoice(w, h, align, n, bestFit, k, 1);
    CrowdPacked(w, h, align, n, bestFit, k);
    RoundedOne(align);
  }

  lemma RoundedOne(align: int)
    requires 0 < align
    ensures Rounded(1, align) == align
  {
    assert Rounded(1 - align, align) == 0;
  }

  function Units(m: nat): (r: seq<Request>)
    ensures |r| == m
  {
    if m == 0 then [] else [Request(1, 1)] + Units(m - 1)
  }

  function InARow(k: nat, m: nat): (r: seq<Option<(int, int)>>)
    ensures |r| == m
    decreases m
  {
    if m == 0 then [] else [Some((k, 0))] + InARow(k + 1, m - 1)
  }

  /** A unit square that goes to column `k` takes one target to the next. */
  ghost predicate Leads(ps: seq<Packer>, k: nat) {
    k + 1 < |ps| && Step(ps[k], 1, 1, ps[k + 1], Some((k, 0)))
  }

  lemma {:induction false} LeadsOn(ps: seq<Packer>, k: nat, m: nat, p': Packer)
    requires 0 < m && Leads(ps, k) && Run(ps[k + 1], Units(m - 1), InARow(k + 1, m - 1), p')
    ensures Run(ps[k], Units(m), InARow(k, m), p')
  {
    UnitsNext(k, m);
    RunMore(ps[k], Request(1, 1), Units(m - 1), Some((k, 0)), InARow(k + 1, m - 1), ps[k + 1], p');
  }

  lemma {:induction false} UnitsNext(k: nat, m: nat)
    requires 0 < m
    ensures Units(m) == [Request(1, 1)] + Units(m - 1) && InARow(k, m) == [Some((k, 0))] + InARow(k + 1, m - 1)
  {
  }

  /** A run of unit squares along a row of targets, from number `k` on. */
  lemma {:induction false} RunThrough(ps: seq<Packer>, k: nat, m: nat, p': Packer)
    requires |ps| == k + m + 1 && (forall i :: k <= i < k + m ==> Leads(ps, i)) && p' == ps[k + m]
    ensures Run(ps[k], Units(m), InARow(k, m), p')
    decreases m
  {
    if m == 0 {
      RunNone(p', k, m);
    } else {
      RunThrough(ps, k + 1, m - 1, p');
      LeadsOn(ps, k, m, p');
    }
  }

  lemma CrowdRun(w: int, h: int, align: int, n: nat, bestFit: bool)
    requires n - 1 + align <= w && 1 <= h && 2 <= align
    ensures Run(Crowd(w, h, align, n, bestFit, 0), Units(n), InARow(0, n), Crowd(w, h, align, n, bestFit, n))
  {
    var ps := seq(n + 1, i requires 0 <= i => Crowd(w, h, align, n, bestFit, i));
    forall k | 0 <= k < n
      ensures Leads(ps, k)
    {
      CrowdStep(w, h, align, n, bestFit, k);
    }
    RunThrough(ps, 0, n, ps[n]);
  }

  lemma {:induction false} RunNone(p: Packer, k: nat, m: nat)
    requires m == 0
    ensures Run(p, Units(m), InARow(k, m), p)
  {
  }

  lemma RunMore(p: Packer, req: Request, reqs: seq<Request>, out: Option<(int, int)>, outs: seq<Option<(int, int)>>,
                q: Packer, p': Packer)
    requires Step(p, req.w, req.h, q, out) && Run(q, reqs, outs, p')
    ensures Run(p, [req] + reqs, [out] + outs, p')
  {
    assert ([req] + reqs)[1..] == reqs && ([out] + outs)[1..] == outs;
    RunCons(p, [req] + reqs, [out] + outs, q, p');
  }

  /** With fewer nodes than columns, `n` unit squares use up the storage, although a further one
      would fit: on top of them, or in a target only one high beside them. */
  lemma CrowdStarves(w: int, h: int, align: int, n: int, bestFit: bool)
    requires 1 <= n < w && 1 <= h && 2 <= align && n - 1 + align <= w && (h == 1 ==> n + align <= w)
    ensures Run(Fresh(w, h, align, n, bestFit), Units(n), InARow(0, n), Crowd(w, h, align, n, bestFit, n))
    ensures Starved(Crowd(w, h, align, n, bestFit, n), 1, 1)
  {
    CrowdRun(w, h, align, n, bestFit);
    CrowdStarts(w, h, align, n, bestFit);
    CrowdFull(w, h, align, n, bestFit);
  }

  lemma CrowdStarts(w: int, h: int, align: int, n: int, bestFit: bool)
    ensures Crowd(w, h, align, n, bestFit, 0) == Fresh(w, h, align, n, bestFit)
  {
    assert CrowdSky(w, 0) == [Knot(0, 0), Knot(w, SENTINEL_HEIGHT)];
  }

  lemma CrowdFull(w: int, h: int, align: int, n: int, bestFit: bool)
    requires 1 <= n < w && 1 <= h && 2 <= align <= w && (h == 1 ==> n + align <= w)
    ensures Starved(Crowd(w, h, align, n, bestFit, n), 1, 1)
  {
    var x := if h == 1 then n else 0;
    RoundedOne(align);
    CrowdRest(w, n, x, align);
    assert Feasible(Crowd(w, h, align, n, bestFit, n), 1, 1, x);
  }

  // ------------------------------------------------------------ a target only one high

  /** In a target one high, only the last columns may be free. */
  ghost predicate InARowOnly(p: Packer) {
    p.height == 1 && forall i :: 0 <= i < |p.sky| - 2 ==> p.sky[i].y == 1
  }

  /** So a free position is on the last knot. */
  lemma FreeIsLast(p: Packer, i: nat, x: int, rw: int)
    requires SkyOk(p) && InARowOnly(p) && Covers(p.sky, i, x) && 0 < rw && Rest(p, x, rw) == 0
    ensures i == |p.sky| - 2 && p.sky[i].y == 0
  {
    HeightOfKnot(p.sky, i, x);
    SpanMaxBounds(p.sky, x, x + rw, x);
  }

  /** And the position taken is its start. */
  lemma TakenIsFirstFree(p: Packer, w: int, rw: int, h: int, i: nat, x: int)
    requires SkyOk(p) && InARowOnly(p) && 0 < rw && 0 < h && Picked(p, rw, h, i, x) && Rest(p, x, rw) + h <= 1
    ensures i == |p.sky| - 2 && p.sky[i].x == x && Rest(p, x, rw) == 0 && h == 1
  {
    SpanMaxNonNegative(p.sky, x, x + rw);
    FreeIsLast(p, i, x, rw);
  }

  lemma StepStaysInARow(p: Packer, w: int, h: int, p': Packer, r: Option<(int, int)>)
    requires Inv(p) && Step(p, w, h, p', r) && InARowOnly(p)
    ensures InARowOnly(p')
  {
    if r.Some? {
      var (x, y) := r.value;
      var rw := Rounded(w, p.align);
      var i: nat :| Picked(p, rw, h, i, x) && p' == Packed(p, w, h, i, x, y);
      TakenIsFirstFree(p, w, rw, h, i, x);
      SpliceLast(p.sky, i, x, w);
    }
  }

  lemma SpliceLast(s: seq<Knot>, i: nat, x: int, w: int)
    requires i == |s| - 2 && s[i].x == x && 0 < w && forall j :: 0 <= j < i ==> s[j].y == 1
    ensures var r := Splice(s, i, x, 1, w); forall a :: 0 <= a < |r| - 2 ==> r[a].y == 1
  {
    var r := Splice(s, i, x, 1, w);
    forall a | 0 <= a < |r| - 2
      ensures r[a].y == 1
    {
      SpliceAt(s, i, x, 1, w, a);
    }
  }

  lemma {:induction false} RunStaysInARow(p: Packer, reqs: seq<Request>, outs: seq<Option<(int, int)>>, p': Packer)
    requires Inv(p) && Run(p, reqs, outs, p') && InARowOnly(p)
    ensures Inv(p') && SameTarget(p, p') && InARowOnly(p')
    decreases |reqs|
  {
    if reqs != [] {
      var q :| Step(p, reqs[0].w, reqs[0].h, q, outs[0]) && Run(q, reqs[1..], outs[1..], p');
      StepKeepsInv(p, reqs[0].w, reqs[0].h, q, outs[0]);
      StepStaysInARow(p, reqs[0].w, reqs[0].h, q, outs[0]);
      RunStaysInARow(q, reqs[1..], outs[1..], p');
    }
  }

  /** When the nodes are used up, as many columns are taken, and the rest is too narrow. */
  lemma RowHasRoom(p: Packer, w: int, h: int)
    requires SkyOk(p) && InARowOnly(p) && p.width < p.numNodes + p.align && 0 < w && 0 < h
    ensures !Starved(p, w, h)
  {
    var rw := Rounded(w, p.align);
    forall x | p.free == 0
      ensures !Feasible(p, w, h, x)
    {
      if Feasible(p, w, h, x) {
        var i := CoverOf(p.sky, x, |p.sky| - 1);
        SpanMaxNonNegative(p.sky, x, x + rw);
        FreeIsLast(p, i, x, rw);
        KnotIndex(p.sky, i);
        RoundedAtLeast(w, p.align);
      }
    }
  }

  lemma RoundedAtLeast(w: int, align: int)
    requires 0 < align && 0 < w
    ensures align <= Rounded(w, align)
  {
    assert 0 <= Rounded(w - align, align);
  }

  // ------------------------------------------------------------ the exact condition

  /** No run on a fresh `w` by `h` target with `n` nodes ever turns a rectangle away that fits. */
  ghost predicate NeverStarves(w: int, h: int, align: int, n: int, bestFit: bool)
    requires 0 < align
  {
    forall reqs, outs, p, rw, rh :: Run(Fresh(w, h, align, n, bestFit), reqs, outs, p) && 0 < rw && 0 < rh && 0 < p.align ==>
      !Starved(p, rw, rh)
  }

  lemma AlignBound(w: int, align: int, n: int)
    requires 1 <= n && 1 <= align && CeilingOf(align, w, n)
    ensures n < w ==> 2 <= align && n - 1 + align <= w
    ensures w <= n ==> align == 1
  {
    var a := align - 1;
    assert a * n < w;
    assert a == 0 ==> align * n == n;
    assert 1 <= a ==> a * n >= n by {
      assert 1 <= a ==> (a - 1) * n >= 0;
    }
    assert 1 <= a ==> (a - 1) * (n - 1) >= 0;
    assert (a - 1) * (n - 1) == a * n - a - n + 1;
  }

  /** The height and the sizes for which the storage is enough: a node for every column, or a target
      one high whose last columns, once the nodes are used up, are too few for any rectangle. */
  predicate Suffices(w: int, h: int, align: int, n: int) {
    w <= n || h == 0 || (h == 1 && w < n + align)
  }

  lemma SufficientRun(w: int, h: int, align: int, n: int, bestFit: bool, reqs: seq<Request>,
                      outs: seq<Option<(int, int)>>, p: Packer, rw: int, rh: int)
    requires 1 <= w && 0 <= h && 1 <= n && 1 <= align && Suffices(w, h, align, n)
    requires Run(Fresh(w, h, align, n, bestFit), reqs, outs, p) && 0 < rw && 0 < rh && 0 < p.align
    ensures !Starved(p, rw, rh)
  {
    var p0 := Fresh(w, h, align, n, bestFit);
    FreshInv(w, h, align, n, bestFit);
    RunKeepsInv(p0, reqs, outs, p);
    if w <= n {
      ColumnsSuffice(p);
    } else if h == 0 {
      forall x
        ensures !Feasible(p, rw, rh, x)
      {
        SpanMaxNonNegative(p.sky, x, x + Rounded(rw, p.align));
      }
    } else {
      RunStaysInARow(p0, reqs, outs, p);
      RowHasRoom(p, rw, rh);
    }
  }

  /** For either heuristic the storage is enough for every run exactly in these cases: rounding the
      widths does not make up for fewer nodes than columns. */
  lemma StorageExact(w: int, h: int, align: int, n: int, bestFit: bool)
    requires 1 <= w && 0 <= h && 1 <= n && 1 <= align && CeilingOf(align, w, n)
    ensures NeverStarves(w, h, align, n, bestFit) <==> Suffices(w, h, align, n)
  {
    AlignBound(w, align, n);
    if Suffices(w, h, align, n) {
      forall reqs, outs, p, rw, rh | Run(Fresh(w, h, align, n, bestFit), reqs, outs, p) && 0 < rw && 0 < rh && 0 < p.align
        ensures !Starved(p, rw, rh)
      {
        SufficientRun(w, h, align, n, bestFit, reqs, outs, p, rw, rh);
      }
    } else {
      CrowdStarves(w, h, align, n, bestFit);
    }
  }
}
