/** One packing step of Thirdparty/imgui/imstb_rectpack.h over skyline values, and what every
    run of such steps keeps. */
module PackerModel {
  import opened Wrappers
  import opened Skyline

  datatype Box = Box(x: int, y: int, w: int, h: int)

  datatype Packer = Packer(width: int, height: int, align: int, bestFit: bool, numNodes: int,
                           sky: seq<Knot>, free: int, boxes: set<Box>)

  /** The width the search uses: the least multiple of `align` that is not below `w`. */
  function Rounded(w: int, align: int): (r: int)
    requires 0 < align
    ensures w <= r && (0 < w ==> r < w + align)
    decreases w
  {
    if w <= 0 then 0 else align + Rounded(w - align, align)
  }

  predicate Inside(b: Box, width: int, height: int) {
    0 <= b.x && 0 <= b.y && 0 < b.w && 0 < b.h && b.x + b.w <= width && b.y + b.h <= height
  }

  predicate Apart(a: Box, b: Box) {
    a.x + a.w <= b.x || b.x + b.w <= a.x || a.y + a.h <= b.y || b.y + b.h <= a.y
  }

  /** The skyline is nowhere below the top of the box. */
  ghost predicate Below(b: Box, sky: seq<Knot>) {
    forall c :: b.x <= c < b.x + b.w ==> b.y + b.h <= HeightAt(sky, c)
  }

  ghost predicate BoxesOk(p: Packer) {
    && (forall b :: b in p.boxes ==> Inside(b, p.width, p.height) && Below(b, p.sky))
    && (forall a, b :: a in p.boxes && b in p.boxes && a != b ==> Apart(a, b))
  }

  ghost predicate Capped(s: seq<Knot>, cap: int) {
    forall i :: 0 <= i < |s| - 1 ==> s[i].y <= cap
  }

  ghost predicate SkyOk(p: Packer) {
    && 1 <= p.width && 0 <= p.height && 1 <= p.align && 1 <= p.numNodes
    && Spans(p.sky, p.width) && Grounded(p.sky)
    && Capped(p.sky, p.height)
    && |p.sky| + p.free == p.numNodes + 2 && 0 <= p.free
  }

  ghost predicate Inv(p: Packer) { SkyOk(p) && BoxesOk(p) }

  /** The lowest y at which a span of width `rw` can rest at `x`. */
  function Rest(p: Packer, x: int, rw: int): int { SpanMax(p.sky, x, x + rw) }

  /** A span of width `rw` and height `h` fits at column `x`. */
  predicate Fits(p: Packer, rw: int, h: int, x: int) {
    0 <= x && x + rw <= p.width && Rest(p, x, rw) + h <= p.height
  }

  /** A `w` by `h` rectangle fits at column `x`, with its width rounded as the search rounds it. */
  predicate Feasible(p: Packer, w: int, h: int, x: int)
    requires 0 < p.align
  {
    Fits(p, Rounded(w, p.align), h, x)
  }

  /** Where a span may be spliced in: at the start of a knot or, for best fit, right-aligned on a
      raised one. */
  ghost predicate Aligned(p: Packer, rw: int, i: int, x: int) {
    && Place(p.sky, p.width, i, x, rw)
    && (p.sky[i].x == x || (p.bestFit && 0 < p.sky[i].y && p.sky[i + 1].x <= x + rw))
  }

  /** No integer column at all gives a lower position. */
  ghost predicate Lowest(p: Packer, rw: int, x: int) {
    forall x' :: 0 <= x' && x' + rw <= p.width ==> Rest(p, x, rw) <= Rest(p, x', rw)
  }

  /** Every knot further left rests higher. */
  ghost predicate Leftmost(p: Packer, rw: int, i: int, x: int) {
    forall j :: 0 <= j < i < |p.sky| ==> Rest(p, x, rw) < Rest(p, p.sky[j].x, rw)
  }

  /** The place that the search promises; only the bottom-left heuristic breaks ties leftwards. */
  ghost predicate Chosen(p: Packer, rw: int, i: int, x: int) {
    Aligned(p, rw, i, x) && Lowest(p, rw, x) && (!p.bestFit ==> Leftmost(p, rw, i, x))
  }

  /** By what best fit ranks a position, the most important first. */
  datatype Rank = Rank(y: int, waste: int, x: int)

  predicate NoWorse(a: Rank, b: Rank) {
    a.y < b.y || (a.y == b.y && (a.waste < b.waste || (a.waste == b.waste && a.x <= b.x)))
  }

  /** The area between a span that rests at `x` and the skyline. */
  function Area(p: Packer, x: int, rw: int): int { SpanSlack(p.sky, x, x + rw, Rest(p, x, rw)) }

  function RankOf(p: Packer, rw: int, x: int): Rank { Rank(Rest(p, x, rw), Area(p, x, rw), x) }

  /** A knot, at or behind number `from`, is at column `c`. */
  ghost predicate OnKnot(s: seq<Knot>, c: int, from: nat := 0)
    decreases |s| - from
  {
    from < |s| && (s[from].x == c || OnKnot(s, c, from + 1))
  }

  lemma {:induction false} IsOnKnot(s: seq<Knot>, k: nat, from: nat := 0)
    requires from <= k < |s|
    ensures OnKnot(s, s[k].x, from)
    decreases k - from
  {
    if from < k {
      IsOnKnot(s, k, from + 1);
    }
  }

  lemma {:induction false} KnotAt(s: seq<Knot>, c: int, from: nat := 0) returns (k: nat)
    requires OnKnot(s, c, from)
    ensures from <= k < |s| && s[k].x == c
    decreases |s| - from
  {
    k := from;
    if s[from].x != c {
      k := KnotAt(s, c, from + 1);
    }
  }

  /** What best fit considers: spans whose left or right edge is on a knot. */
  ghost predicate Candidate(p: Packer, rw: int, i: int, x: int) {
    Covers(p.sky, i, x) && 0 <= x && x + rw <= p.width && (p.sky[i].x == x || OnKnot(p.sky, x + rw))
  }

  /** No candidate below the top of the target is ranked before this one. */
  ghost predicate Fittest(p: Packer, rw: int, h: int, i: nat, x: int) {
    && Candidate(p, rw, i, x)
    && forall i': nat, x' :: Candidate(p, rw, i', x') && Rest(p, x', rw) + h <= p.height ==>
         NoWorse(RankOf(p, rw, x), RankOf(p, rw, x'))
  }

  ghost predicate Picked(p: Packer, rw: int, h: int, i: nat, x: int) {
    Chosen(p, rw, i, x) && (p.bestFit ==> Fittest(p, rw, h, i, x))
  }

  /** The packer after the rectangle was put at `(x, y)`, spliced in at knot `i`. */
  function Packed(p: Packer, w: int, h: int, i: nat, x: int, y: int): Packer
    requires i < |p.sky| && SpliceStart(p.sky, i, x) < |p.sky|
  {
    var k := SpliceStart(p.sky, i, x);
    p.(sky := Splice(p.sky, i, x, y + h, w),
       free := p.free - 1 + SpliceEnd(p.sky, k, x + w) - k,
       boxes := p.boxes + {Box(x, y, w, h)})
  }

  /** One call of stbrp__skyline_pack_rectangle: `r` is the position, if there is one. */
  ghost predicate Step(p: Packer, w: int, h: int, p': Packer, r: Option<(int, int)>) {
    0 < p.align && 0 < w && 0 < h &&
    match r
    case None =>
      p' == p && (p.free == 0 || forall x :: !Feasible(p, w, h, x))
    case Some((x, y)) =>
      var rw := Rounded(w, p.align);
      && 0 < p.free && Feasible(p, w, h, x) && y == Rest(p, x, rw)
      && exists i: nat :: Picked(p, rw, h, i, x) && p' == Packed(p, w, h, i, x, y)
  }

  // ------------------------------------------------------------ what one step keeps

  /** What the splice relies on. */
  ghost predicate Ready(p: Packer, w: int, rw: int, h: int, i: int, x: int, y: int) {
    && SkyOk(p) && 0 < w <= rw && 0 < h && Aligned(p, rw, i, x)
    && y == Rest(p, x, rw) && 0 <= y && y + h <= p.height && 0 < p.free
  }

  lemma PackEdge(p: Packer, w: int, rw: int, h: int, i: nat, x: int, y: int)
    requires Ready(p, w, rw, h, i, x, y)
    ensures Place(p.sky, p.width, i, x, w)
    ensures x + w <= SpliceEdge(p.sky, i, x, w) <= x + rw
    ensures !p.bestFit || rw == w ==> SpliceEdge(p.sky, i, x, w) == x + w
  {
    SpliceBounds(p.sky, p.width, i, x, w);
  }

  /** Heights never fall; exactly the columns from `x` to the edge are set to the new top. */
  lemma {:induction false} PackRaises(p: Packer, w: int, rw: int, h: int, i: nat, x: int, y: int, c: int)
    requires Ready(p, w, rw, h, i, x, y) && 0 <= c < p.width
    ensures HeightAt(p.sky, c) <= HeightAt(Packed(p, w, h, i, x, y).sky, c)
    ensures HeightAt(Packed(p, w, h, i, x, y).sky, c) ==
            if x <= c < SpliceEdge(p.sky, i, x, w) then y + h else HeightAt(p.sky, c)
  {
    PackEdge(p, w, rw, h, i, x, y);
    SpliceHeights(p.sky, p.width, i, x, y + h, w, c);
    SpanCovers(p.sky, x, x + rw, c, SpliceEdge(p.sky, i, x, w));
  }

  lemma SpanCovers(s: seq<Knot>, x0: int, x1: int, c: int, e: int)
    requires e <= x1
    ensures x0 <= c < e ==> HeightAt(s, c) <= SpanMax(s, x0, x1)
  {
    if x0 <= c < e {
      SpanMaxBounds(s, x0, x1, c);
    }
  }

  lemma SpliceCapped(s: seq<Knot>, i: nat, x: int, top: int, w: int, cap: int)
    requires i < |s| && SpliceStart(s, i, x) < |s| && top <= cap && Capped(s, cap)
    ensures Capped(Splice(s, i, x, top, w), cap)
  {
    var r := Splice(s, i, x, top, w);
    forall a | 0 <= a < |r| - 1
      ensures r[a].y <= cap
    {
      SpliceAt(s, i, x, top, w, a);
    }
  }

  lemma SpliceLength(s: seq<Knot>, i: nat, x: int, top: int, w: int)
    requires i < |s| && SpliceStart(s, i, x) < |s|
    ensures var k := SpliceStart(s, i, x);
            |Splice(s, i, x, top, w)| == |s| + 1 - (SpliceEnd(s, k, x + w) - k)
  {
  }

  lemma SplicedSky(s: seq<Knot>, width: int, height: int, i: nat, x: int, top: int, w: int)
    requires Place(s, width, i, x, w) && Capped(s, height) && 0 < top <= height
    requires Grounded(s) && (s[i].x == x || 0 < s[i].y)
    ensures Spans(Splice(s, i, x, top, w), width) && Grounded(Splice(s, i, x, top, w))
    ensures Capped(Splice(s, i, x, top, w), height)
    ensures var k := SpliceStart(s, i, x); |Splice(s, i, x, top, w)| == |s| + 1 - (SpliceEnd(s, k, x + w) - k)
  {
    SpliceSpans(s, width, i, x, top, w);
    SpliceGrounded(s, i, x, top, w);
    SpliceCapped(s, i, x, top, w, height);
    SpliceLength(s, i, x, top, w);
  }

  lemma {:induction false} PackKeepsSky(p: Packer, w: int, rw: int, h: int, i: nat, x: int, y: int)
    requires Ready(p, w, rw, h, i, x, y)
    ensures SkyOk(Packed(p, w, h, i, x, y))
  {
    PackEdge(p, w, rw, h, i, x, y);
    SplicedSky(p.sky, p.width, p.height, i, x, y + h, w);
    WithSkyline(p, Packed(p, w, h, i, x, y), Splice(p.sky, i, x, y + h, w));
  }

  lemma WithSkyline(p: Packer, p': Packer, sky': seq<Knot>)
    requires SkyOk(p) && p' == p.(sky := sky', free := p'.free, boxes := p'.boxes)
    requires Spans(sky', p.width) && Grounded(sky') && Capped(sky', p.height)
    requires |sky'| + p'.free == p.numNodes + 2 && 0 <= p'.free
    ensures SkyOk(p')
  {
  }

  lemma OldBoxStaysBelow(p: Packer, w: int, rw: int, h: int, i: nat, x: int, y: int, b: Box)
    requires Ready(p, w, rw, h, i, x, y) && Inside(b, p.width, p.height) && Below(b, p.sky)
    ensures Below(b, Packed(p, w, h, i, x, y).sky)
  {
    forall c | b.x <= c < b.x + b.w
      ensures b.y + b.h <= HeightAt(Packed(p, w, h, i, x, y).sky, c)
    {
      PackRaises(p, w, rw, h, i, x, y, c);
    }
  }

  lemma NewBoxIsBelow(p: Packer, w: int, rw: int, h: int, i: nat, x: int, y: int)
    requires Ready(p, w, rw, h, i, x, y)
    ensures Below(Box(x, y, w, h), Packed(p, w, h, i, x, y).sky)
  {
    PackEdge(p, w, rw, h, i, x, y);
    forall c | x <= c < x + w
      ensures y + h <= HeightAt(Packed(p, w, h, i, x, y).sky, c)
    {
      PackRaises(p, w, rw, h, i, x, y, c);
    }
  }

  /** A new box rests on the skyline, so it stays clear of every box that lies under it. */
  lemma NewBoxIsApart(p: Packer, w: int, rw: int, h: int, x: int, b: Box)
    requires 0 < w <= rw && 0 < b.w && Below(b, p.sky)
    ensures Apart(b, Box(x, Rest(p, x, rw), w, h))
  {
    var c := Max(b.x, x);
    if c < b.x + b.w && c < x + w {
      SpanMaxBounds(p.sky, x, x + rw, c);
      assert b.y + b.h <= HeightAt(p.sky, c);
    }
  }

  lemma {:induction false} PackKeepsBoxes(p: Packer, w: int, rw: int, h: int, i: nat, x: int, y: int)
    requires Ready(p, w, rw, h, i, x, y) && BoxesOk(p)
    ensures BoxesOk(Packed(p, w, h, i, x, y))
    ensures Inside(Box(x, y, w, h), p.width, p.height)
    ensures forall b :: b in p.boxes ==> Apart(b, Box(x, y, w, h))
  {
    var p' := Packed(p, w, h, i, x, y);
    forall b | b in p.boxes
      ensures Below(b, p'.sky) && Apart(b, Box(x, y, w, h))
    {
      OldBoxStaysBelow(p, w, rw, h, i, x, y, b);
      NewBoxIsApart(p, w, rw, h, x, b);
    }
    NewBoxIsBelow(p, w, rw, h, i, x, y);
  }

  lemma {:induction false} PackKeepsInv(p: Packer, w: int, rw: int, h: int, i: nat, x: int, y: int)
    requires Inv(p) && 0 < w <= rw && 0 < h && Aligned(p, rw, i, x)
    requires y == Rest(p, x, rw) && y + h <= p.height && 0 < p.free
    ensures Inv(Packed(p, w, h, i, x, y)) && Packed(p, w, h, i, x, y).boxes != p.boxes
    ensures Inside(Box(x, y, w, h), p.width, p.height)
    ensures forall b :: b in p.boxes ==> Apart(b, Box(x, y, w, h))
  {
    SpanMaxNonNegative(p.sky, x, x + rw);
    PackKeepsSky(p, w, rw, h, i, x, y);
    PackKeepsBoxes(p, w, rw, h, i, x, y);
    var b := Box(x, y, w, h);
    assert b in Packed(p, w, h, i, x, y).boxes;
    assert !Apart(b, b);
  }

  /** The two packers have the same target and settings. */
  predicate SameTarget(p: Packer, q: Packer) {
    && q.width == p.width && q.height == p.height && q.align == p.align
    && q.bestFit == p.bestFit && q.numNodes == p.numNodes
  }

  /** Every step keeps the skyline well formed, conserves the nodes, and keeps all boxes inside
      the target and pairwise apart. */
  lemma {:induction false} StepKeepsInv(p: Packer, w: int, h: int, p': Packer, r: Option<(int, int)>)
    requires Inv(p) && 0 < w && 0 < h && Step(p, w, h, p', r)
    ensures Inv(p') && SameTarget(p, p')
    ensures r.None? <==> p'.boxes == p.boxes
    ensures r.Some? ==> var b := Box(r.value.0, r.value.1, w, h);
                        && p'.boxes == p.boxes + {b} && Inside(b, p.width, p.height)
                        && forall a :: a in p.boxes ==> Apart(a, b)
  {
    if r.Some? {
      var (x, y) := r.value;
      var i: nat :| Picked(p, Rounded(w, p.align), h, i, x) && p' == Packed(p, w, h, i, x, y);
      PackKeepsInv(p, w, Rounded(w, p.align), h, i, x, y);
    }
  }

  // ------------------------------------------------------------ what the search may rely on

  /** A lower bound over the knot positions is a lower bound over every integer column. */
  lemma KnotsSuffice(p: Packer, rw: int, best: int, x: int)
    requires SkyOk(p) && 0 < rw && 0 <= x && x + rw <= p.width
    requires forall j :: 0 <= j < |p.sky| && p.sky[j].x + rw <= p.width ==> best <= Rest(p, p.sky[j].x, rw)
    ensures best <= Rest(p, x, rw)
  {
    var i := CoverOf(p.sky, x, |p.sky| - 1);
    SlideLeft(p.sky, x, rw, i);
  }

  // ------------------------------------------------------------ runs

  datatype Request = Request(w: int, h: int)

  ghost predicate Run(p: Packer, reqs: seq<Request>, outs: seq<Option<(int, int)>>, p': Packer)
    decreases |reqs|
  {
    && |outs| == |reqs|
    && if reqs == [] then p' == p
       else exists q :: Step(p, reqs[0].w, reqs[0].h, q, outs[0]) && Run(q, reqs[1..], outs[1..], p')
  }

  lemma {:induction false} RunCons(p: Packer, reqs: seq<Request>, outs: seq<Option<(int, int)>>, m: Packer, p': Packer)
    requires reqs != [] && |outs| == |reqs|
    requires Step(p, reqs[0].w, reqs[0].h, m, outs[0]) && Run(m, reqs[1..], outs[1..], p')
    ensures Run(p, reqs, outs, p')
  {
  }

  /** A run may be extended by one more step. */
  lemma {:induction false} RunAppend(p: Packer, reqs: seq<Request>, outs: seq<Option<(int, int)>>, q: Packer,
                                     w: int, h: int, q': Packer, r: Option<(int, int)>)
    requires Run(p, reqs, outs, q) && Step(q, w, h, q', r)
    ensures Run(p, reqs + [Request(w, h)], outs + [r], q')
    decreases |reqs|
  {
    var reqs', outs' := reqs + [Request(w, h)], outs + [r];
    if reqs == [] {
      assert reqs'[1..] == [] && outs'[1..] == [];
      RunCons(p, reqs', outs', q', q');
    } else {
      var m :| Step(p, reqs[0].w, reqs[0].h, m, outs[0]) && Run(m, reqs[1..], outs[1..], q);
      assert reqs'[1..] == reqs[1..] + [Request(w, h)] && outs'[1..] == outs[1..] + [r];
      RunAppend(m, reqs[1..], outs[1..], q, w, h, q', r);
      RunCons(p, reqs', outs', m, q');
    }
  }

  ghost predicate Accepted(reqs: seq<Request>, outs: seq<Option<(int, int)>>, i: int) {
    |outs| == |reqs| && 0 <= i < |reqs| && outs[i].Some?
  }

  /** The box that request `i` was given. */
  ghost function Given(reqs: seq<Request>, outs: seq<Option<(int, int)>>, i: int): Box
    requires Accepted(reqs, outs, i)
  {
    Box(outs[i].value.0, outs[i].value.1, reqs[i].w, reqs[i].h)
  }

  /** The packer after the first request of a run. */
  lemma {:induction false} RunFirst(p: Packer, reqs: seq<Request>, outs: seq<Option<(int, int)>>, p': Packer) returns (q: Packer)
    requires Inv(p) && Run(p, reqs, outs, p') && reqs != []
    ensures Inv(q) && SameTarget(p, q) && p.boxes <= q.boxes
    ensures Run(q, reqs[1..], outs[1..], p')
    ensures Accepted(reqs, outs, 0) ==> var b := Given(reqs, outs, 0);
                                        && b in q.boxes && Inside(b, p.width, p.height)
                                        && forall a :: a in p.boxes ==> Apart(a, b)
  {
    q :| Step(p, reqs[0].w, reqs[0].h, q, outs[0]) && Run(q, reqs[1..], outs[1..], p');
    StepKeepsInv(p, reqs[0].w, reqs[0].h, q, outs[0]);
  }

  lemma {:induction false} RunKeepsInv(p: Packer, reqs: seq<Request>, outs: seq<Option<(int, int)>>, p': Packer)
    requires Inv(p) && Run(p, reqs, outs, p')
    ensures Inv(p') && SameTarget(p, p') && p.boxes <= p'.boxes
    decreases |reqs|
  {
    if reqs != [] {
      var q := RunFirst(p, reqs, outs, p');
      RunKeepsInv(q, reqs[1..], outs[1..], p');
    }
  }

  lemma GivenNext(reqs: seq<Request>, outs: seq<Option<(int, int)>>, i: int)
    requires Accepted(reqs, outs, i) && 0 < i
    ensures Accepted(reqs[1..], outs[1..], i - 1) && Given(reqs[1..], outs[1..], i - 1) == Given(reqs, outs, i)
  {
  }

  lemma {:induction false} RunGives(p: Packer, reqs: seq<Request>, outs: seq<Option<(int, int)>>, p': Packer, i: int)
    requires Inv(p) && Run(p, reqs, outs, p') && Accepted(reqs, outs, i)
    ensures Inside(Given(reqs, outs, i), p.width, p.height)
    ensures Given(reqs, outs, i) in p'.boxes
    ensures forall a :: a in p.boxes ==> Apart(a, Given(reqs, outs, i))
    decreases |reqs|
  {
    var q := RunFirst(p, reqs, outs, p');
    if 0 < i {
      GivenNext(reqs, outs, i);
      RunGives(q, reqs[1..], outs[1..], p', i - 1);
    } else {
      RunKeepsInv(q, reqs[1..], outs[1..], p');
    }
  }

  lemma {:induction false} RunApart(p: Packer, reqs: seq<Request>, outs: seq<Option<(int, int)>>, p': Packer,
                                    i: int, j: int)
    requires Inv(p) && Run(p, reqs, outs, p') && Accepted(reqs, outs, i) && Accepted(reqs, outs, j) && i < j
    ensures Apart(Given(reqs, outs, i), Given(reqs, outs, j))
    decreases |reqs|
  {
    var q := RunFirst(p, reqs, outs, p');
    GivenNext(reqs, outs, j);
    if 0 < i {
      GivenNext(reqs, outs, i);
      RunApart(q, reqs[1..], outs[1..], p', i - 1, j - 1);
    } else {
      RunGives(q, reqs[1..], outs[1..], p', j - 1);
    }
  }

  /** Over any run, every accepted rectangle is inside the target, and no two of them overlap,
      nor does any overlap a box that was there before. */
  lemma RunSafe(p: Packer, reqs: seq<Request>, outs: seq<Option<(int, int)>>, p': Packer)
    requires Inv(p) && Run(p, reqs, outs, p')
    ensures Inv(p')
    ensures forall i :: Accepted(reqs, outs, i) ==>
              && Inside(Given(reqs, outs, i), p.width, p.height)
              && forall a :: a in p.boxes ==> Apart(a, Given(reqs, outs, i))
    ensures forall i, j :: Accepted(reqs, outs, i) && Accepted(reqs, outs, j) && i != j ==>
              Apart(Given(reqs, outs, i), Given(reqs, outs, j))
  {
    RunKeepsInv(p, reqs, outs, p');
    forall i | Accepted(reqs, outs, i)
      ensures Inside(Given(reqs, outs, i), p.width, p.height)
      ensures forall a :: a in p.boxes ==> Apart(a, Given(reqs, outs, i))
    {
      RunGives(p, reqs, outs, p', i);
    }
    forall i, j | Accepted(reqs, outs, i) && Accepted(reqs, outs, j) && i != j
      ensures Apart(Given(reqs, outs, i), Given(reqs, outs, j))
    {
      RunApart(p, reqs, outs, p', if i < j then i else j, if i < j then j else i);
    }
  }
}
