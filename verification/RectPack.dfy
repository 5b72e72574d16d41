/** The skyline packer of Thirdparty/imgui/imstb_rectpack.h on its linked nodes: every method is
    proved against the value model of `PackerModel`. */
module RectPack {
  import opened Wrappers
  import opened Skyline
  import opened WasteScan
  import opened PackerModel

  const SENTINEL_HEIGHT := 0x4000_0000
  const MAXVAL := 0x7fff_ffff

  class Node {
    var x: int
    var y: int
    var next: Node?
    /** The height of the node in the free list, counted from its end; IN_USE on the active list. */
    ghost var depth: int

    constructor (x: int, y: int, next: Node?)
      ensures this.x == x && this.y == y && this.next == next && depth == IN_USE
    {
      this.x, this.y, this.next, depth := x, y, next, IN_USE;
    }
  }

  const IN_USE := -1
  const MOVING := -2

  /** A `stbrp_node **`: where the link to a node is stored. */
  datatype Link = Nowhere | ActiveHead | NextOf(node: Node)

  /** A position under consideration. */
  datatype Spot = Spot(link: Link, x: int, y: int, waste: int)

  function RankIn(s: Spot): Rank { Rank(s.y, s.waste, s.x) }

  ghost function At(ns: seq<Node>, i: int): Node? { if 0 <= i < |ns| then ns[i] else null }

  /** Each node points to its successor, the last one to nothing. */
  ghost predicate Chained(ns: seq<Node>)
    reads ns
  {
    forall i {:trigger ns[i].next} :: 0 <= i < |ns| ==> ns[i].next == At(ns, i + 1)
  }

  ghost predicate Linked(ns: seq<Node>, head: Node?)
    reads ns
  {
    head == At(ns, 0) && Chained(ns)
  }

  ghost predicate Distinct(ns: seq<Node>) {
    forall i, j :: 0 <= i < j < |ns| ==> ns[i] != ns[j]
  }

  ghost predicate Separate(ms: seq<Node>, ns: seq<Node>) {
    forall i, j :: 0 <= i < |ms| && 0 <= j < |ns| ==> ms[i] != ns[j]
  }

  ghost predicate Among(ns: seq<Node>, all: set<Node>) {
    forall i :: 0 <= i < |ns| ==> ns[i] in all
  }

  ghost predicate InUse(ns: seq<Node>)
    reads ns
  {
    forall i :: 0 <= i < |ns| ==> ns[i].depth == IN_USE
  }

  /** A free list: each node knows how many follow it, so none occurs twice. */
  ghost predicate Stacked(ns: seq<Node>)
    reads ns
  {
    forall i :: 0 <= i < |ns| ==> ns[i].depth == |ns| - 1 - i
  }

  /** The nodes carry the coordinates of the knots. */
  ghost predicate Carries(ns: seq<Node>, sky: seq<Knot>)
    reads ns
  {
    |ns| == |sky| && forall i :: 0 <= i < |ns| ==> ns[i].x == sky[i].x && ns[i].y == sky[i].y
  }

  /** One round of the loop below. */
  method VisitNode(x: int, y: int, next: int, x0: int, w: int, t: Tally) returns (t': Tally)
    ensures t' == Visit(t, x, y, next, x0, w)
  {
    var Tally(minY, waste, visited) := t;
    if y > minY {
      waste := waste + visited * (y - minY);
      minY := y;
      if x < x0 {
        visited := visited + next - x0;
      } else {
        visited := visited + next - x;
      }
    } else {
      var under := next - x;
      if under + visited > w {
        under := w - visited;
      }
      waste := waste + under * (minY - y);
      visited := visited + under;
    }
    t' := Tally(minY, waste, visited);
  }

  /** stbrp__skyline_find_min_y: the highest column under the span, and the area wasted below it. */
  method FindMinY(first: Node, x0: int, w: int, ghost ns: seq<Node>, ghost sky: seq<Knot>, ghost k: nat)
    returns (minY: int, waste: int)
    requires Increasing(sky) && Grounded(sky) && Carries(ns, sky) && Chained(ns)
    requires forall i :: 0 <= i < |sky| - 1 ==> 0 <= sky[i].y
    requires Covers(sky, k, x0) && first == ns[k] && 0 < w && x0 + w <= sky[|sky| - 1].x
    ensures minY == SpanMax(sky, x0, x0 + w) && waste == SpanSlack(sky, x0, x0 + w, minY)
  {
    var node := first;
    ghost var j: nat := k;
    var t := Tally(0, 0, 0);
    while node.x < x0 + w
      invariant k <= j < |ns| && node == ns[j]
      invariant Scan(sky, j, x0, w, t) == Scan(sky, k, x0, w, Tally(0, 0, 0))
      decreases |ns| - j
    {
      t := VisitNode(node.x, node.y, node.next.x, x0, w, t);
      node := node.next;
      j := j + 1;
    }
    ScanMeasures(sky, k, x0, w);
    WasteIsArea(sky, k, x0, w);
    minY, waste := t.minY, t.waste;
  }

  /** A span of width `rw` may start at knot `j`. */
  ghost predicate Starts(p: Packer, rw: int, j: int) {
    0 <= j < |p.sky| && p.sky[j].x + rw <= p.width
  }

  /** The rest `bestY` is no worse than that of knot `j`. */
  ghost predicate Beats(p: Packer, rw: int, h: int, bestY: int, j: int) {
    Starts(p, rw, j) ==>
      bestY <= Rest(p, p.sky[j].x, rw) || (p.bestFit && p.height < Rest(p, p.sky[j].x, rw) + h)
  }

  /** The first `n` knots were compared; if one was taken it is knot `i`. */
  ghost predicate Compared(p: Packer, rw: int, h: int, n: int, taken: bool, bestY: int, i: int) {
    && (forall j :: 0 <= j < n ==> Beats(p, rw, h, bestY, j))
    && (if taken
        then && Starts(p, rw, i) && i < n && bestY == Rest(p, p.sky[i].x, rw)
             && (p.bestFit ==> bestY + h <= p.height)
             && (!p.bestFit ==> Leftmost(p, rw, i, p.sky[i].x))
        else bestY == SENTINEL_HEIGHT)
  }

  lemma CompareTakes(p: Packer, rw: int, h: int, j: nat, taken: bool, bestY: int, i: int)
    requires SkyOk(p) && Compared(p, rw, h, j, taken, bestY, i) && Starts(p, rw, j)
    requires var y := Rest(p, p.sky[j].x, rw);
             if p.bestFit then y + h <= p.height && y <= bestY else y < bestY
    ensures Compared(p, rw, h, j + 1, true, Rest(p, p.sky[j].x, rw), j)
  {
    var y := Rest(p, p.sky[j].x, rw);
    forall k | 0 <= k < j
      ensures Beats(p, rw, h, y, k) && (!p.bestFit ==> y < Rest(p, p.sky[k].x, rw))
    {
      assert Beats(p, rw, h, bestY, k);
      Ordered(p.sky, k, j);
    }
  }

  lemma CompareSkips(p: Packer, rw: int, h: int, j: nat, taken: bool, bestY: int, i: int)
    requires Compared(p, rw, h, j, taken, bestY, i) && Beats(p, rw, h, bestY, j)
    ensures Compared(p, rw, h, j + 1, taken, bestY, i)
  {
  }

  /** Once a knot is too far right for a start, so are all later ones. */
  lemma CompareEnds(p: Packer, rw: int, h: int, j: nat, taken: bool, bestY: int, i: int)
    requires SkyOk(p) && Compared(p, rw, h, j, taken, bestY, i) && j < |p.sky| && p.width < p.sky[j].x + rw
    ensures Compared(p, rw, h, |p.sky|, taken, bestY, i)
  {
    forall k | 0 <= k < |p.sky|
      ensures Beats(p, rw, h, bestY, k)
    {
      Ordered(p.sky, j, k);
    }
  }

  lemma NoRoom(p: Packer, rw: int, h: int)
    requires p.width < rw || p.height < h
    ensures forall x :: !Fits(p, rw, h, x)
  {
    forall x
      ensures !Fits(p, rw, h, x)
    {
      SpanMaxNonNegative(p.sky, x, x + rw);
    }
  }

  lemma TakenIsChosen(p: Packer, rw: int, h: int, bestY: int, i: int)
    requires SkyOk(p) && 0 < rw && Compared(p, rw, h, |p.sky|, true, bestY, i)
    ensures Chosen(p, rw, i, p.sky[i].x)
  {
    forall j | 0 <= j < |p.sky| && p.sky[j].x + rw <= p.width
      ensures bestY <= Rest(p, p.sky[j].x, rw)
    {
      assert Beats(p, rw, h, bestY, j);
    }
    forall x | 0 <= x && x + rw <= p.width
      ensures bestY <= Rest(p, x, rw)
    {
      KnotsSuffice(p, rw, bestY, x);
    }
    Ordered(p.sky, 0, i);
  }

  /** If no knot was taken, the rectangle is too high at every knot, hence at every column. */
  lemma NothingTaken(p: Packer, rw: int, h: int, i: int)
    requires SkyOk(p) && 0 < rw && 0 < h && p.height <= SENTINEL_HEIGHT
    requires Compared(p, rw, h, |p.sky|, false, SENTINEL_HEIGHT, i)
    ensures forall x :: !Fits(p, rw, h, x)
  {
    forall j | 0 <= j < |p.sky| && p.sky[j].x + rw <= p.width
      ensures p.height - h + 1 <= Rest(p, p.sky[j].x, rw)
    {
      assert Beats(p, rw, h, SENTINEL_HEIGHT, j);
    }
    forall x
      ensures !Fits(p, rw, h, x)
    {
      if 0 <= x && x + rw <= p.width {
        KnotsSuffice(p, rw, p.height - h + 1, x);
      }
    }
  }

  /** A right-aligned position that rests no higher than the lowest one is lowest as well. */
  lemma RightIsChosen(p: Packer, rw: int, h: int, taken: bool, bestY: int, i: int, i': int, x: int)
    requires SkyOk(p) && p.bestFit && 0 < rw && 0 < h && p.height <= SENTINEL_HEIGHT
    requires Compared(p, rw, h, |p.sky|, taken, bestY, i)
    requires Aligned(p, rw, i', x) && Rest(p, x, rw) <= bestY && Rest(p, x, rw) + h <= p.height
    ensures Chosen(p, rw, i', x)
  {
    if taken {
      TakenIsChosen(p, rw, h, bestY, i);
      assert Lowest(p, rw, p.sky[i].x);
    } else {
      NothingTaken(p, rw, h, i);
      assert Fits(p, rw, h, x);
    }
  }

  // ------------------------------------------------------------ best fit

  /** The span at `x` is not ranked before `r`, or is too high. */
  ghost predicate Outranked(p: Packer, rw: int, h: int, x: int, r: Rank) {
    Rest(p, x, rw) + h <= p.height ==> NoWorse(r, RankOf(p, rw, x))
  }

  ghost predicate StartOutranked(p: Packer, rw: int, h: int, j: nat, r: Rank) {
    Starts(p, rw, j) ==> Outranked(p, rw, h, p.sky[j].x, r)
  }

  /** No span that starts on one of the first `n` knots is ranked before `r`. */
  ghost predicate LeftRanked(p: Packer, rw: int, h: int, n: nat, r: Rank) {
    n == 0 || (LeftRanked(p, rw, h, n - 1, r) && StartOutranked(p, rw, h, n - 1, r))
  }

  lemma {:induction false} LeftRankedAt(p: Packer, rw: int, h: int, n: nat, r: Rank, j: nat)
    requires LeftRanked(p, rw, h, n, r) && j < n
    ensures StartOutranked(p, rw, h, j, r)
  {
    if j < n - 1 {
      LeftRankedAt(p, rw, h, n - 1, r, j);
    }
  }

  /** The span that ends on knot `k` starts on the columns of knot `j`. */
  ghost predicate Ends(p: Packer, rw: int, k: nat, j: nat) {
    k < |p.sky| && Covers(p.sky, j, p.sky[k].x - rw)
  }

  /** Knot `j` does not start behind the span that ends on knot `k`. */
  ghost predicate Behind(p: Packer, rw: int, j: nat, k: nat) {
    j < |p.sky| && k < |p.sky| && p.sky[j].x <= p.sky[k].x - rw
  }

  lemma BehindEnds(p: Packer, rw: int, j: nat, k: nat)
    requires SkyOk(p) && 0 < rw && Behind(p, rw, j, k)
    ensures p.sky[j].x <= p.sky[k].x - rw < p.width
  {
    Ordered(p.sky, k, |p.sky| - 1);
  }

  lemma EndsBehind(p: Packer, rw: int, j: nat, k: nat)
    requires SkyOk(p) && k < |p.sky| && Covers(p.sky, j, p.sky[k].x - rw)
    ensures Ends(p, rw, k, j) && (k + 1 < |p.sky| ==> Behind(p, rw, j, k + 1))
  {
    Ordered(p.sky, k, k + 1);
  }

  ghost predicate EndOutranked(p: Packer, rw: int, h: int, k: nat, r: Rank) {
    k < |p.sky| && rw <= p.sky[k].x ==> Outranked(p, rw, h, p.sky[k].x - rw, r)
  }

  /** No span that ends on one of the first `n` knots is ranked before `r`. */
  ghost predicate RightRanked(p: Packer, rw: int, h: int, n: nat, r: Rank) {
    n == 0 || (RightRanked(p, rw, h, n - 1, r) && EndOutranked(p, rw, h, n - 1, r))
  }

  lemma {:induction false} RightRankedAt(p: Packer, rw: int, h: int, n: nat, r: Rank, k: nat)
    requires RightRanked(p, rw, h, n, r) && k < n
    ensures EndOutranked(p, rw, h, k, r)
  {
    if k < n - 1 {
      RightRankedAt(p, rw, h, n - 1, r, k);
    }
  }

  /** A rank that comes before the best one so far takes its place. */
  lemma {:induction false} LeftBefore(p: Packer, rw: int, h: int, n: nat, r: Rank, r': Rank)
    requires NoWorse(r', r) && LeftRanked(p, rw, h, n, r)
    ensures LeftRanked(p, rw, h, n, r')
  {
    if 0 < n {
      LeftBefore(p, rw, h, n - 1, r, r');
    }
  }

  lemma {:induction false} RightBefore(p: Packer, rw: int, h: int, n: nat, r: Rank, r': Rank)
    requires NoWorse(r', r) && RightRanked(p, rw, h, n, r)
    ensures RightRanked(p, rw, h, n, r')
  {
    if 0 < n {
      RightBefore(p, rw, h, n - 1, r, r');
    }
  }

  /** What the first loop knows about the ranks: nothing unless it looks for the best fit. */
  ghost predicate Sifted(p: Packer, rw: int, h: int, n: nat, taken: bool, bestY: int, bestWaste: int, i: nat) {
    p.bestFit ==>
      && (taken ==> i < |p.sky| && Rank(bestY, bestWaste, p.sky[i].x) == RankOf(p, rw, p.sky[i].x))
      && LeftRanked(p, rw, h, n, Rank(bestY, bestWaste, if taken && i < |p.sky| then p.sky[i].x else 0))
  }

  lemma SiftTakes(p: Packer, rw: int, h: int, j: nat, taken: bool, bestY: int, bestWaste: int, i: nat)
    requires Sifted(p, rw, h, j, taken, bestY, bestWaste, i) && j < |p.sky|
    requires var y := Rest(p, p.sky[j].x, rw);
             p.bestFit ==> y < bestY || (y == bestY && Area(p, p.sky[j].x, rw) < bestWaste)
    ensures Sifted(p, rw, h, j + 1, true, Rest(p, p.sky[j].x, rw), Area(p, p.sky[j].x, rw), j)
  {
    var r := Rank(bestY, bestWaste, if taken && i < |p.sky| then p.sky[i].x else 0);
    if p.bestFit {
      LeftBefore(p, rw, h, j, r, RankOf(p, rw, p.sky[j].x));
    }
  }

  lemma SiftSkips(p: Packer, rw: int, h: int, j: nat, taken: bool, bestY: int, bestWaste: int, i: nat)
    requires SkyOk(p) && Sifted(p, rw, h, j, taken, bestY, bestWaste, i) && j < |p.sky| && (taken ==> i < j)
    requires !taken ==> p.height < bestY + h
    requires var y := Rest(p, p.sky[j].x, rw);
             p.bestFit && y + h <= p.height ==>
               bestY < y || (bestY == y && bestWaste <= Area(p, p.sky[j].x, rw))
    ensures Sifted(p, rw, h, j + 1, taken, bestY, bestWaste, i)
  {
    Ordered(p.sky, i, j);
  }

  lemma {:induction false} LeftRankedEnds(p: Packer, rw: int, h: int, j: nat, n: nat, r: Rank)
    requires SkyOk(p) && LeftRanked(p, rw, h, j, r) && j <= n <= |p.sky| && j < |p.sky| && p.width < p.sky[j].x + rw
    ensures LeftRanked(p, rw, h, n, r)
    decreases n
  {
    if j < n {
      LeftRankedEnds(p, rw, h, j, n - 1, r);
      Ordered(p.sky, j, n - 1);
    }
  }

  lemma SiftEnds(p: Packer, rw: int, h: int, j: nat, taken: bool, bestY: int, bestWaste: int, i: nat)
    requires SkyOk(p) && Sifted(p, rw, h, j, taken, bestY, bestWaste, i) && j < |p.sky| && p.width < p.sky[j].x + rw
    ensures Sifted(p, rw, h, |p.sky|, taken, bestY, bestWaste, i)
  {
    if p.bestFit {
      LeftRankedEnds(p, rw, h, j, |p.sky|, Rank(bestY, bestWaste, if taken && i < |p.sky| then p.sky[i].x else 0));
    }
  }

  /** What the first loop knows. */
  ghost predicate Judged(p: Packer, rw: int, h: int, n: nat, taken: bool, bestY: int, bestWaste: int, i: nat) {
    Compared(p, rw, h, n, taken, bestY, i) && Sifted(p, rw, h, n, taken, bestY, bestWaste, i)
  }

  /** The comparison of the first loop. */
  predicate Improves(p: Packer, h: int, y: int, waste: int, bestY: int, bestWaste: int) {
    if !p.bestFit then y < bestY else y + h <= p.height && (y < bestY || (y == bestY && waste < bestWaste))
  }

  lemma JudgeTakes(p: Packer, rw: int, h: int, j: nat, taken: bool, bestY: int, bestWaste: int, i: nat)
    requires SkyOk(p) && Judged(p, rw, h, j, taken, bestY, bestWaste, i) && Starts(p, rw, j)
    requires Improves(p, h, Rest(p, p.sky[j].x, rw), Area(p, p.sky[j].x, rw), bestY, bestWaste)
    ensures var waste := if p.bestFit then Area(p, p.sky[j].x, rw) else bestWaste;
            Judged(p, rw, h, j + 1, true, Rest(p, p.sky[j].x, rw), waste, j)
  {
    CompareTakes(p, rw, h, j, taken, bestY, i);
    SiftTakes(p, rw, h, j, taken, bestY, bestWaste, i);
  }

  lemma JudgeSkips(p: Packer, rw: int, h: int, j: nat, taken: bool, bestY: int, bestWaste: int, i: nat)
    requires SkyOk(p) && 0 < h && p.height <= SENTINEL_HEIGHT
    requires Judged(p, rw, h, j, taken, bestY, bestWaste, i) && Starts(p, rw, j)
    requires !Improves(p, h, Rest(p, p.sky[j].x, rw), Area(p, p.sky[j].x, rw), bestY, bestWaste)
    ensures Judged(p, rw, h, j + 1, taken, bestY, bestWaste, i)
  {
    CompareSkips(p, rw, h, j, taken, bestY, i);
    SiftSkips(p, rw, h, j, taken, bestY, bestWaste, i);
  }

  lemma JudgeEnds(p: Packer, rw: int, h: int, j: nat, taken: bool, bestY: int, bestWaste: int, i: nat)
    requires SkyOk(p) && Judged(p, rw, h, j, taken, bestY, bestWaste, i) && j < |p.sky| && p.width < p.sky[j].x + rw
    ensures Judged(p, rw, h, |p.sky|, taken, bestY, bestWaste, i)
  {
    CompareEnds(p, rw, h, j, taken, bestY, i);
    SiftEnds(p, rw, h, j, taken, bestY, bestWaste, i);
  }

  /** All spans whose left edge is on a knot are ranked behind `r`, and those whose right edge is
      on one of the first `k` knots. */
  ghost predicate Ranked(p: Packer, rw: int, h: int, k: nat, r: Rank) {
    LeftRanked(p, rw, h, |p.sky|, r) && RightRanked(p, rw, h, k, r)
  }

  /** One more right edge: whichever rank comes first is first among all. */
  lemma RankNext(p: Packer, rw: int, h: int, k: nat, r: Rank, r': Rank)
    requires Ranked(p, rw, h, k, r) && k < |p.sky|
    requires NoWorse(r', r) && Outranked(p, rw, h, p.sky[k].x - rw, r')
    ensures Ranked(p, rw, h, k + 1, r')
  {
    LeftBefore(p, rw, h, |p.sky|, r, r');
    RightBefore(p, rw, h, k, r, r');
  }

  lemma RankedIsFittest(p: Packer, rw: int, h: int, i: nat, x: int)
    requires Candidate(p, rw, i, x) && Ranked(p, rw, h, |p.sky|, RankOf(p, rw, x))
    ensures Fittest(p, rw, h, i, x)
  {
    forall i': nat, x' | Candidate(p, rw, i', x') && Rest(p, x', rw) + h <= p.height
      ensures NoWorse(RankOf(p, rw, x), RankOf(p, rw, x'))
    {
      if p.sky[i'].x == x' {
        LeftRankedAt(p, rw, h, |p.sky|, RankOf(p, rw, x), i');
      } else {
        var k := KnotAt(p.sky, x' + rw);
        RightRankedAt(p, rw, h, |p.sky|, RankOf(p, rw, x), k);
      }
    }
  }

  lemma EndIsCandidate(p: Packer, rw: int, k: nat, j: nat)
    requires SkyOk(p) && 0 < rw && Ends(p, rw, k, j)
    ensures Candidate(p, rw, j, p.sky[k].x - rw)
  {
    Ordered(p.sky, 0, j);
    Ordered(p.sky, k, |p.sky| - 1);
    IsOnKnot(p.sky, k);
  }

  /** No span ends on a knot that is nearer to the left edge than its width. */
  lemma {:induction false} NoEndsBefore(p: Packer, rw: int, h: int, n: nat, r: Rank)
    requires n <= |p.sky| && forall l :: 0 <= l < n ==> p.sky[l].x < rw
    ensures RightRanked(p, rw, h, n, r)
  {
    if 0 < n {
      NoEndsBefore(p, rw, h, n - 1, r);
    }
  }

  /** Bottom-left: the result of the first loop is the result. */
  lemma LeftIsPicked(p: Packer, rw: int, h: int, taken: bool, bestY: int, bestWaste: int, i: nat)
    requires SkyOk(p) && 0 < rw && 0 < h && p.height <= SENTINEL_HEIGHT && !p.bestFit
    requires Judged(p, rw, h, |p.sky|, taken, bestY, bestWaste, i)
    ensures if taken then Starts(p, rw, i) && Picked(p, rw, h, i, p.sky[i].x) else forall x :: !Fits(p, rw, h, x)
  {
    if taken {
      TakenIsChosen(p, rw, h, bestY, i);
    } else {
      NothingTaken(p, rw, h, i);
    }
  }

  /** Best fit: the result of the first loop is where the second one starts. */
  lemma LeftIsCandidate(p: Packer, rw: int, h: int, taken: bool, bestY: int, bestWaste: int, i: nat)
    requires SkyOk(p) && 0 < rw && p.bestFit && Judged(p, rw, h, |p.sky|, taken, bestY, bestWaste, i)
    ensures taken ==> Starts(p, rw, i) && Candidate(p, rw, i, p.sky[i].x)
  {
    if taken {
      TakenIsChosen(p, rw, h, bestY, i);
    }
  }

  lemma FitIsPicked(p: Packer, rw: int, h: int, taken: bool, bestY: int, bestWaste: int, i: nat,
                    found: bool, r: Rank, i': nat)
    requires SkyOk(p) && 0 < rw && 0 < h && p.height <= SENTINEL_HEIGHT && p.bestFit
    requires Judged(p, rw, h, |p.sky|, taken, bestY, bestWaste, i) && Ranked(p, rw, h, |p.sky|, r)
    requires if found then Candidate(p, rw, i', r.x) && RankOf(p, rw, r.x) == r && r.y + h <= p.height
             else r.y == SENTINEL_HEIGHT
    ensures if found then Picked(p, rw, h, i', r.x) && r.y == Rest(p, r.x, rw) else forall x :: !Fits(p, rw, h, x)
  {
    if taken {
      LeftRankedAt(p, rw, h, |p.sky|, r, i);
    }
    if found {
      RankedIsFittest(p, rw, h, i', r.x);
      FittestAligned(p, rw, h, i', r.x);
      RightIsChosen(p, rw, h, taken, bestY, i, i', r.x);
    } else {
      NothingTaken(p, rw, h, i);
    }
  }

  /** On ground a span wastes nothing, wherever it starts. */
  lemma GroundArea(p: Packer, rw: int, i: nat, x: int)
    requires SkyOk(p) && 0 < rw && Covers(p.sky, i, x) && x + rw <= p.sky[i + 1].x && p.sky[i].y == 0
    ensures Rest(p, x, rw) == 0 == Area(p, x, rw)
  {
    SpanMaxExtend(p.sky, x, x, x + rw, i);
    SlackExtend(p.sky, x, x, x + rw, i, 0);
  }

  /** Best fit leaves no ground in front of a span: it would have moved to the start of the ground. */
  lemma FittestAligned(p: Packer, rw: int, h: int, i: nat, x: int)
    requires SkyOk(p) && 0 < rw && p.bestFit && Fittest(p, rw, h, i, x) && Rest(p, x, rw) + h <= p.height
    ensures Aligned(p, rw, i, x)
  {
    if p.sky[i].x != x {
      var k := KnotAt(p.sky, x + rw);
      Ordered(p.sky, k, i);
      Ordered(p.sky, i + 1, k);
      if p.sky[i].y == 0 {
        GroundArea(p, rw, i, x);
        GroundArea(p, rw, i, p.sky[i].x);
        assert Candidate(p, rw, i, p.sky[i].x);
      }
    }
  }

  /** The list that results from the splice. */
  ghost function Stitched(act: seq<Node>, k: nat, node: Node, m: nat): seq<Node>
    requires k <= m < |act|
  {
    act[..k] + [node] + act[m..]
  }

  lemma StitchedAt(act: seq<Node>, k: nat, node: Node, m: nat, i: int)
    requires k <= m < |act|
    ensures At(Stitched(act, k, node, m), i) ==
            if i < k then At(act, i) else if i == k then node else At(act, i + m - k - 1)
  {
  }

  lemma NodesDiffer(ns: seq<Node>, sky: seq<Knot>, m: nat)
    requires Carries(ns, sky) && Increasing(sky) && m < |ns|
    ensures forall j :: 0 <= j < |ns| && j != m ==> ns[j] != ns[m]
  {
    forall j | 0 <= j < |ns| && j != m
      ensures ns[j] != ns[m]
    {
      assert sky[j].x != sky[m].x;
    }
  }

  /** The links after the traversal: `act[..k]` leads to the new node, `act[m..]` is still intact. */
  ghost predicate Pending(act: seq<Node>, k: nat, node: Node, m: nat)
    reads act
  {
    && k <= m < |act|
    && (forall j {:trigger act[j].next} :: 0 <= j < k ==> act[j].next == if j == k - 1 then node else act[j + 1])
    && (forall j {:trigger act[j].next} :: m <= j < |act| ==> act[j].next == At(act, j + 1))
  }

  lemma StitchedChain(act: seq<Node>, k: nat, node: Node, m: nat)
    requires Pending(act, k, node, m) && node.next == act[m]
    ensures Chained(Stitched(act, k, node, m))
  {
    var ns := Stitched(act, k, node, m);
    forall i | 0 <= i < |ns|
      ensures ns[i].next == At(ns, i + 1)
    {
      StitchedAt(act, k, node, m, i);
      StitchedAt(act, k, node, m, i + 1);
    }
  }

  /** The nodes carry the knots, except that node `m` starts at `edge` now. */
  ghost predicate Moved(act: seq<Node>, sky: seq<Knot>, m: nat, edge: int)
    requires m < |sky|
    reads act
  {
    Carries(act, sky[m := sky[m].(x := edge)])
  }

  lemma StitchedCarries(act: seq<Node>, k: nat, node: Node, m: nat, sky: seq<Knot>, i: nat, x: int, top: int, w: int)
    requires |act| == |sky| && i < |sky| && k == SpliceStart(sky, i, x) < |sky| && m == SpliceEnd(sky, k, x + w)
    requires node.x == x && node.y == top
    requires Moved(act, sky, m, Max(sky[m].x, x + w))
    ensures Carries(Stitched(act, k, node, m), Splice(sky, i, x, top, w))
  {
    var ns := Stitched(act, k, node, m);
    SpliceLength(sky, i, x, top, w);
    forall a | 0 <= a < |ns|
      ensures Knot(ns[a].x, ns[a].y) == Splice(sky, i, x, top, w)[a]
    {
      SpliceAt(sky, i, x, top, w, a);
      StitchedAt(act, k, node, m, a);
    }
  }

  lemma StitchedInUse(act: seq<Node>, k: nat, node: Node, m: nat, all: set<Node>)
    requires k <= m < |act| && node.depth == IN_USE && InUse(act[..k]) && InUse(act[m..])
    requires Among(act, all) && node in all
    ensures InUse(Stitched(act, k, node, m)) && Among(Stitched(act, k, node, m), all)
  {
    var ns := Stitched(act, k, node, m);
    forall a | 0 <= a < |ns|
      ensures ns[a].depth == IN_USE && ns[a] in all
    {
      StitchedAt(act, k, node, m, a);
      assert a < k ==> act[..k][a] == ns[a];
      assert k < a ==> act[m..][a - k - 1] == ns[a];
    }
  }

  lemma StitchedList(act: seq<Node>, k: nat, node: Node, m: nat, all: set<Node>)
    requires Pending(act, k, node, m) && node.next == act[m] && node.depth == IN_USE
    requires InUse(act[..k]) && InUse(act[m..]) && Among(act, all) && node in all
    ensures var ns := Stitched(act, k, node, m);
            Linked(ns, if k == 0 then node else act[0]) && InUse(ns) && Among(ns, all)
  {
    StitchedChain(act, k, node, m);
    StitchedInUse(act, k, node, m, all);
    StitchedAt(act, k, node, m, 0);
  }

  /** `l` is where the link to node `i` of the active list is stored. */
  ghost predicate LinkIn(act: seq<Node>, l: Link, i: int) {
    0 <= i < |act| && l == if i == 0 then ActiveHead else NextOf(act[i - 1])
  }

  /** The best position so far, if there is one. */
  ghost predicate Found(p: Packer, act: seq<Node>, rw: int, h: int, best: Spot, i: nat) {
    if best.link.Nowhere? then best.y == SENTINEL_HEIGHT
    else && LinkIn(act, best.link, i) && Candidate(p, rw, i, best.x) && RankOf(p, rw, best.x) == RankIn(best)
         && best.y + h <= p.height
  }

  /** Where the second loop stands: `node`, the knot `j`, does not start behind the span that ends on knot `k`. */
  ghost predicate Walking(p: Packer, act: seq<Node>, rw: int, prev: Link, node: Node, j: nat, k: nat) {
    LinkIn(act, prev, j) && node == act[j] && (k < |act| ==> Behind(p, rw, j, k))
  }

  class Context {
    var width: int
    var height: int
    var align: int
    var bestFit: bool
    var numNodes: int
    var activeHead: Node?
    var freeHead: Node?

    ghost var nodes: set<Node>
    ghost var active: seq<Node>
    ghost var free: seq<Node>
    ghost var model: Packer

    ghost predicate Fields()
      reads this
    {
      && width == model.width && height == model.height && align == model.align
      && bestFit == model.bestFit && numNodes == model.numNodes
      && width <= MAXVAL && height <= SENTINEL_HEIGHT
    }

    /** The active list as the searches see it. */
    ghost predicate ListOk()
      reads this, active
    {
      Fields() && Linked(active, activeHead) && Carries(active, model.sky) && SkyOk(model)
    }

    /** The free list. */
    ghost predicate FreeOk()
      reads this, nodes
    {
      Among(free, nodes) && Stacked(free) && Linked(free, freeHead)
    }

    /** The lists hold what the model says. */
    ghost predicate Shaped()
      reads this, nodes
    {
      && Among(active, nodes) && InUse(active) && FreeOk() && |free| == model.free
      && Fields() && Linked(active, activeHead) && Carries(active, model.sky)
    }

    ghost predicate Valid()
      reads this, nodes
    {
      Shaped() && Inv(model)
    }

    /** Active and free list are acyclic, share no node, and hold num_nodes + 2 nodes together. */
    lemma ListsPartition()
      requires Valid()
      ensures Distinct(active) && Distinct(free) && Separate(active, free)
      ensures |active| + |free| == numNodes + 2
    {
      forall i, j | 0 <= i < j < |active|
        ensures active[i] != active[j]
      {
        assert model.sky[i].x < model.sky[j].x;
      }
    }

    /** `l` is where the link to the active node `i` is stored. */
    ghost predicate Links(l: Link, i: int)
      reads this
    {
      LinkIn(active, l, i)
    }

    /** The first loop of stbrp__skyline_find_best_pos, over left-aligned positions. */
    method SearchLeft(rw: int, h: int) returns (best: Link, bestY: int, bestWaste: int, ghost i: nat)
      requires ListOk() && 0 < rw <= width && 0 < h <= height
      ensures !best.Nowhere? ==> Links(best, i)
      ensures Judged(model, rw, h, |model.sky|, !best.Nowhere?, bestY, bestWaste, i)
    {
      best, bestY, bestWaste, i := Nowhere, SENTINEL_HEIGHT, SENTINEL_HEIGHT, 0;
      var node := activeHead;
      var prev := ActiveHead;
      ghost var j := 0;
      while node.x + rw <= width
        invariant 0 <= j < |active| && node == active[j] && Links(prev, j)
        invariant !best.Nowhere? ==> Links(best, i)
        invariant Judged(model, rw, h, j, !best.Nowhere?, bestY, bestWaste, i)
        decreases |active| - j
      {
        var y, waste := FindMinY(node, node.x, rw, active, model.sky, j);
        if if !bestFit then y < bestY else y + h <= height && (y < bestY || (y == bestY && waste < bestWaste)) {
          JudgeTakes(model, rw, h, j, !best.Nowhere?, bestY, bestWaste, i);
          bestY, bestWaste, best, i := y, if bestFit then waste else bestWaste, prev, j;
        } else {
          JudgeSkips(model, rw, h, j, !best.Nowhere?, bestY, bestWaste, i);
        }
        prev := NextOf(node);
        node := node.next;
        j := j + 1;
      }
      JudgeEnds(model, rw, h, j, !best.Nowhere?, bestY, bestWaste, i);
    }

    /** The node before which a right-aligned span starts, searching on from `node0`. */
    method Advance(prev0: Link, node0: Node, xpos: int, ghost j0: nat)
      returns (prev: Link, node: Node, ghost j: nat)
      requires ListOk() && Links(prev0, j0) && node0 == active[j0]
      requires model.sky[j0].x <= xpos < width
      ensures Links(prev, j) && node == active[j] && Covers(model.sky, j, xpos)
    {
      prev, node, j := prev0, node0, j0;
      while node.next.x <= xpos
        invariant Links(prev, j) && node == active[j] && j < |active| - 1 && model.sky[j].x <= xpos
        decreases |active| - j
      {
        prev := NextOf(node);
        node := node.next;
        j := j + 1;
      }
    }

    /** The first node far enough right for the right edge of a span. */
    method FirstTail(rw: int) returns (tail: Node, ghost k: nat)
      requires ListOk() && 0 < rw <= width
      ensures k < |active| && tail == active[k] && rw <= model.sky[k].x
      ensures forall l :: 0 <= l < k ==> model.sky[l].x < rw
    {
      tail, k := activeHead, 0;
      while tail.x < rw
        invariant 0 <= k < |active| && tail == active[k]
        invariant forall l :: 0 <= l < k ==> model.sky[l].x < rw
        decreases |active| - k
      {
        tail := tail.next;
        k := k + 1;
      }
    }

    /** One round of the second loop: the span that ends on `tail` and starts on `node`. */
    method TryRight(rw: int, h: int, best: Spot, prev: Link, node: Node, tail: Node, ghost i: nat, ghost j: nat, ghost k: nat)
      returns (best': Spot, ghost i': nat)
      requires ListOk() && 0 < rw && 0 < h && Links(prev, j) && node == active[j]
      requires k < |active| && tail == active[k] && Ends(model, rw, k, j)
      requires Found(model, active, rw, h, best, i) && Ranked(model, rw, h, k, RankIn(best))
      ensures Found(model, active, rw, h, best', i') && Ranked(model, rw, h, k + 1, RankIn(best'))
    {
      best', i' := best, i;
      var xpos := tail.x - rw;
      var y, waste := FindMinY(node, xpos, rw, active, model.sky, j);
      if y + h <= height && y <= best.y &&
         (y < best.y || waste < best.waste || (waste == best.waste && xpos < best.x))
      {
        best', i' := Spot(prev, xpos, y, waste), j;
        EndIsCandidate(model, rw, k, j);
      }
      RankNext(model, rw, h, k, RankIn(best), RankIn(best'));
    }

    /** One round of the second loop. */
    method NextRight(rw: int, h: int, best: Spot, prev: Link, node: Node, tail: Node, ghost i: nat, ghost j: nat, ghost k: nat,
                     ghost p: Packer, ghost act: seq<Node>)
      returns (best': Spot, prev': Link, node': Node, tail': Node?, ghost i': nat, ghost j': nat)
      requires ListOk() && p == model && act == active && 0 < rw && 0 < h
      requires Walking(p, act, rw, prev, node, j, k) && k < |act| && tail == act[k]
      requires Found(p, act, rw, h, best, i) && Ranked(p, rw, h, k, RankIn(best))
      ensures Walking(p, act, rw, prev', node', j', k + 1) && tail' == At(act, k + 1)
      ensures Found(p, act, rw, h, best', i') && Ranked(p, rw, h, k + 1, RankIn(best'))
    {
      BehindEnds(model, rw, j, k);
      prev', node', j' := Advance(prev, node, tail.x - rw, j);
      EndsBehind(model, rw, j', k);
      best', i' := TryRight(rw, h, best, prev', node', tail, i, j', k);
      tail' := tail.next;
    }

    /** The second loop of stbrp__skyline_find_best_pos, over right-aligned positions. */
    method SearchRight(rw: int, h: int, best0: Spot, ghost i0: nat) returns (best: Spot, ghost i: nat)
      requires ListOk() && 0 < rw <= width && 0 < h
      requires Found(model, active, rw, h, best0, i0) && LeftRanked(model, rw, h, |model.sky|, RankIn(best0))
      ensures Found(model, active, rw, h, best, i) && Ranked(model, rw, h, |model.sky|, RankIn(best))
    {
      var tail, k := FirstTail(rw);
      NoEndsBefore(model, rw, h, k, RankIn(best0));
      best, i := SearchTails(rw, h, best0, activeHead, tail, i0, k, model, active);
    }

    /** The loop itself, from the first admissible tail on. */
    method SearchTails(rw: int, h: int, best0: Spot, node0: Node, tail0: Node, ghost i0: nat, ghost k0: nat,
                       ghost p: Packer, ghost act: seq<Node>)
      returns (best: Spot, ghost i: nat)
      requires ListOk() && p == model && act == active && 0 < rw && 0 < h
      requires Walking(p, act, rw, ActiveHead, node0, 0, k0) && tail0 == At(act, k0)
      requires Found(p, act, rw, h, best0, i0) && Ranked(p, rw, h, k0, RankIn(best0))
      ensures Found(p, act, rw, h, best, i) && Ranked(p, rw, h, |act|, RankIn(best))
    {
      best, i := best0, i0;
      var prev, node, tail: Node? := ActiveHead, node0, tail0;
      ghost var j: nat, k := 0, k0;
      while tail != null
        invariant k <= |act| && tail == At(act, k) && Walking(p, act, rw, prev, node, j, k)
        invariant Found(p, act, rw, h, best, i) && Ranked(p, rw, h, k, RankIn(best))
        decreases |act| - k
      {
        best, prev, node, tail, i, j := NextRight(rw, h, best, prev, node, tail, i, j, k, p, act);
        k := k + 1;
      }
    }

    /** The search of stbrp__skyline_find_best_pos once the width is rounded. */
    method FindSpan(rw: int, h: int) returns (best: Link, x: int, y: int, ghost i: nat)
      requires ListOk() && 0 < rw <= width && 0 < h <= height
      ensures best.Nowhere? ==> forall x' :: !Fits(model, rw, h, x')
      ensures !best.Nowhere? ==> Links(best, i) && Picked(model, rw, h, i, x) && y == Rest(model, x, rw)
    {
      var waste;
      best, y, waste, i := SearchLeft(rw, h);
      x := LinkedX(best, i);
      if !bestFit {
        LeftIsPicked(model, rw, h, !best.Nowhere?, y, waste, i);
      } else {
        ghost var taken, y0, i0 := !best.Nowhere?, y, i;
        LeftIsCandidate(model, rw, h, taken, y, waste, i);
        var spot;
        spot, i := SearchRight(rw, h, Spot(best, x, y, waste), i);
        best, x, y := spot.link, spot.x, spot.y;
        FitIsPicked(model, rw, h, taken, y0, waste, i0, !best.Nowhere?, RankIn(spot), i);
      }
    }

    /** The x of the node behind a link, 0 if there is none. */
    method LinkedX(l: Link, ghost i: int) returns (x: int)
      requires ListOk() && (!l.Nowhere? ==> Links(l, i))
      ensures x == if l.Nowhere? then 0 else model.sky[i].x
    {
      match l {
        case Nowhere => x := 0;
        case ActiveHead => x := activeHead.x;
        case NextOf(node) => x := node.next.x;
      }
    }

    /** stbrp__skyline_find_best_pos: a position that no integer column undercuts, or none if the
        rectangle fits nowhere. */
    method FindBestPos(w: int, h: int) returns (best: Link, x: int, y: int, ghost i: nat)
      requires ListOk() && 0 < w && 0 < h
      ensures best.Nowhere? ==> forall x' :: !Feasible(model, w, h, x')
      ensures !best.Nowhere? ==> Links(best, i) && Picked(model, Rounded(w, align), h, i, x)
                                 && y == Rest(model, x, Rounded(w, align))
    {
      var rw := RoundUp(w, align);
      if rw > width || h > height {
        best, x, y, i := Nowhere, 0, 0, 0;
        NoRoom(model, rw, h);
      } else {
        best, x, y, i := FindSpan(rw, h);
      }
    }

    /** Put a node on the free list. */
    method PushFree(n: Node)
      requires FreeOk() && n in nodes && n.depth < 0
      modifies this`free, this`freeHead, n`next, n`depth
      ensures FreeOk() && |free| == old(|free|) + 1 && n.depth == old(|free|)
    {
      n.next := freeHead;
      freeHead := n;
      n.depth := |free|;
      free := [n] + free;
    }

    /** Take the first node off the free list. */
    method PopFree() returns (n: Node)
      requires FreeOk() && freeHead != null
      modifies this`free, this`freeHead, freeHead`depth
      ensures FreeOk() && |free| == old(|free|) - 1 && n == old(freeHead) && n in nodes && n.depth == MOVING
      ensures old(n.depth) == old(|free|) - 1
    {
      n := freeHead;
      freeHead := n.next;
      n.depth := MOVING;
      free := free[1..];
    }

    /** During the traversal of the splice: nodes `act[k]` up to `act[m]` are on the free list. */
    ghost predicate Releasing(act: seq<Node>, k: nat, node: Node, m: nat)
      reads this, nodes, act, node
    {
      && Pending(act, k, node, m) && FreeOk() && node.depth == MOVING
      && forall j :: 0 <= j < k || m <= j < |act| ==> act[j].depth == IN_USE
    }

    /** Move one node to the free list. */
    method ReleaseOne(cur: Node, ghost act: seq<Node>, ghost sky: seq<Knot>, ghost k: nat, ghost node: Node, ghost m: nat)
      returns (next: Node)
      requires Among(act, nodes) && Carries(act, sky) && Increasing(sky)
      requires Releasing(act, k, node, m) && cur == act[m] && cur.next != null
      modifies this`free, this`freeHead, cur`next, cur`depth
      ensures Releasing(act, k, node, m + 1) && next == act[m + 1] && |free| == old(|free|) + 1
      ensures node.next == old(node.next)
    {
      next := cur.next;
      NodesDiffer(act, sky, m);
      PushFree(cur);
    }

    /** The traversal of the splice: nodes from `act[k]` on go to the free list, up to the node
        that is last or reaches beyond `limit`. */
    method Release(cur0: Node, limit: int, ghost act: seq<Node>, ghost sky: seq<Knot>, ghost k: nat, ghost node: Node)
      returns (cur: Node, ghost m: nat)
      requires Among(act, nodes) && InUse(act) && Carries(act, sky) && Increasing(sky) && FreeOk()
      requires Pending(act, k, node, k) && cur0 == act[k] && node in nodes && node.depth == MOVING
      modifies this`free, this`freeHead, nodes`next, nodes`depth
      ensures k <= m < |sky| && m == SpliceEnd(sky, k, limit) && Pending(act, k, node, m)
      ensures cur == act[m] && |free| == old(|free|) + m - k && InUse(act[..k]) && InUse(act[m..])
      ensures FreeOk() && node.depth == MOVING && node.next == old(node.next)
    {
      cur, m := cur0, k;
      while cur.next != null && cur.next.x <= limit
        invariant Releasing(act, k, node, m) && cur == act[m] && node.next == old(node.next)
        invariant SpliceEnd(sky, m, limit) == SpliceEnd(sky, k, limit) && |free| == old(|free|) + m - k
        decreases |act| - m
      {
        SpliceEndNext(sky, m, limit);
        cur := ReleaseOne(cur, act, sky, k, node, m);
        m := m + 1;
      }
    }

    /** Hang `node` into the active list in front of the first node the splice may drop. */
    method Attach(link: Link, node: Node, x: int, ghost i: nat) returns (cur: Node)
      requires Linked(active, activeHead) && Carries(active, model.sky) && Increasing(model.sky)
      requires Among(active, nodes) && InUse(active)
      requires Links(link, i) && Covers(model.sky, i, x) && node.depth == MOVING
      modifies this`activeHead, active`next
      ensures var k := SpliceStart(model.sky, i, x);
              && cur == active[k] && activeHead == (if k == 0 then node else old(activeHead))
              && (forall j {:trigger active[j].next} :: 0 <= j < |active| ==>
                    active[j].next == if j == k - 1 then node else At(active, j + 1))
    {
      match link {
        case ActiveHead => cur := activeHead;
        case NextOf(p) => cur := p.next;
      }
      if cur.x < x {
        var next := cur.next;
        cur.next := node;
        cur := next;
      } else {
        match link {
          case ActiveHead => activeHead := node;
          case NextOf(p) => p.next := node;
        }
      }
    }

    /** Take a node off the free list, give it the new position and hang it into the active list. */
    method Begin(link: Link, x: int, top: int, ghost i: nat) returns (node: Node, cur: Node, ghost k: nat)
      requires Linked(active, activeHead) && Carries(active, model.sky) && Increasing(model.sky)
      requires Among(active, nodes) && InUse(active) && FreeOk() && freeHead != null
      requires Links(link, i) && Covers(model.sky, i, x)
      modifies this`activeHead, this`free, this`freeHead, nodes
      ensures node in nodes && node.depth == MOVING && node.x == x && node.y == top
      ensures FreeOk() && |free| == old(|free|) - 1 && InUse(active) && Carries(active, model.sky)
      ensures k == SpliceStart(model.sky, i, x) && Pending(active, k, node, k) && cur == active[k]
      ensures activeHead == if k == 0 then node else active[0]
    {
      k := SpliceStart(model.sky, i, x);
      node := PopFree();
      assert forall j :: 0 <= j < |active| ==> active[j] != node;
      node.x, node.y := x, top;
      cur := Attach(link, node, x, i);
    }

    /** Stitch the rest of the list, from `cur` on, behind the new node. */
    method Finish(node: Node, cur: Node, limit: int, ghost k: nat, ghost m: nat)
      requires Pending(active, k, node, m) && cur == active[m] && InUse(active[..k]) && InUse(active[m..])
      requires activeHead == if k == 0 then node else active[0]
      requires Among(active, nodes) && node in nodes && FreeOk() && node.depth == MOVING
      modifies this`active, node`next, node`depth, cur`x
      ensures Among(active, nodes) && InUse(active) && FreeOk() && Linked(active, activeHead)
      ensures active == Stitched(old(active), k, node, m) && cur.x == Max(old(cur.x), limit)
    {
      assert active[m..][0] == active[m];
      assert forall j :: 0 <= j < k ==> active[..k][j] == active[j];
      assert forall j :: m <= j < |active| ==> active[m..][j - m] == active[j];
      node.next := cur;
      node.depth := IN_USE;
      if cur.x < limit {
        cur.x := limit;
      }
      StitchedList(active, k, node, m, nodes);
      active := Stitched(active, k, node, m);
    }

    /** Release the covered nodes and stitch the list back in. */
    method Close(node: Node, cur0: Node, limit: int, ghost act: seq<Node>, ghost sky: seq<Knot>, ghost k: nat) returns (ghost m: nat)
      requires act == active
      requires Among(active, nodes) && InUse(active) && Carries(active, sky) && Increasing(sky) && FreeOk()
      requires Pending(active, k, node, k) && cur0 == active[k] && node in nodes && node.depth == MOVING
      requires activeHead == if k == 0 then node else active[0]
      modifies this`active, this`free, this`freeHead, nodes
      ensures k <= m < |sky| && m == SpliceEnd(sky, k, limit) && |free| == old(|free|) + m - k
      ensures Among(active, nodes) && InUse(active) && FreeOk() && Linked(active, activeHead)
      ensures |act| == |sky| && active == Stitched(act, k, node, m)
      ensures node.x == old(node.x) && node.y == old(node.y)
      ensures Moved(act, sky, m, Max(sky[m].x, limit))
    {
      var cur;
      cur, m := Release(cur0, limit, active, sky, k, node);
      Finish(node, cur, limit, k, m);
    }

    /** The splice from the new node on. */
    method Complete(node: Node, cur: Node, x: int, top: int, w: int, ghost act: seq<Node>, ghost sky: seq<Knot>, ghost i: nat,
                    ghost k: nat)
      requires act == active && Among(active, nodes) && InUse(active) && Carries(active, sky) && Increasing(sky) && FreeOk()
      requires i < |sky| && k == SpliceStart(sky, i, x) && node.x == x && node.y == top
      requires Pending(active, k, node, k) && cur == active[k] && node in nodes && node.depth == MOVING
      requires activeHead == if k == 0 then node else active[0]
      modifies this`active, this`free, this`freeHead, nodes
      ensures Among(active, nodes) && InUse(active) && FreeOk() && Linked(active, activeHead)
      ensures k < |sky| && Carries(active, Splice(sky, i, x, top, w))
      ensures |free| == old(|free|) + SpliceEnd(sky, k, x + w) - k
    {
      ghost var m := Close(node, cur, x + w, act, sky, k);
      StitchedCarries(act, k, node, m, sky, i, x, top, w);
    }

    /** The splice of stbrp__skyline_pack_rectangle. */
    method Insert(link: Link, x: int, top: int, w: int, ghost i: nat)
      requires Shaped() && Increasing(model.sky) && freeHead != null && Links(link, i) && Covers(model.sky, i, x)
      modifies this`active, this`activeHead, this`free, this`freeHead, nodes
      ensures Among(active, nodes) && InUse(active) && FreeOk() && Linked(active, activeHead)
      ensures Carries(active, Splice(model.sky, i, x, top, w))
      ensures var k := SpliceStart(model.sky, i, x);
              |free| == old(|free|) - 1 + SpliceEnd(model.sky, k, x + w) - k
    {
      var node, cur, k := Begin(link, x, top, i);
      Complete(node, cur, x, top, w, active, model.sky, i, k);
    }

    /** Splice a rectangle in at the position found, and record it in the model. */
    method Commit(link: Link, x: int, y: int, w: int, h: int, ghost i: nat)
      requires Shaped() && Increasing(model.sky) && freeHead != null && Links(link, i) && Covers(model.sky, i, x)
      modifies this`active, this`activeHead, this`free, this`freeHead, this`model, nodes
      ensures Shaped() && model == Packed(old(model), w, h, i, x, y)
    {
      Insert(link, x, y + h, w, i);
      Record(Packed(model, w, h, i, x, y));
    }

    ghost method Record(q: Packer)
      requires Among(active, nodes) && InUse(active) && FreeOk() && |free| == q.free && Fields()
      requires Linked(active, activeHead) && Carries(active, q.sky)
      requires SameTarget(model, q)
      modifies this`model
      ensures Shaped() && model == q
    {
      model := q;
    }

    /** stbrp__skyline_pack_rectangle: one step of the model. */
    method PackRectangle(w: int, h: int) returns (r: Option<(int, int)>)
      requires Valid() && 0 < w && 0 < h
      modifies this`active, this`activeHead, this`free, this`freeHead, this`model, nodes
      ensures Valid() && Step(old(model), w, h, model, r)
    {
      var link, x, y, i := FindBestPos(w, h);
      if link.Nowhere? || y + h > height || freeHead == null {
        r := None;
        if !link.Nowhere? && y + h > height {
          TooHigh(model, w, h, x);
        }
      } else {
        ghost var p' := StepTaken(model, w, h, i, x, y);
        Commit(link, x, y, w, h, i);
        r := Some((x, y));
      }
    }

    /** stbrp_setup_allow_out_of_mem */
    method SetupAllowOutOfMem(allow: bool)
      requires Valid()
      modifies this`align, this`model
      ensures Valid() && model == old(model).(align := align)
      ensures allow ==> align == 1
      ensures !allow ==> CeilingOf(align, width, numNodes)
    {
      if allow {
        align := 1;
      } else {
        align := CeilDiv(width, numNodes);
      }
      model := model.(align := align);
    }

    /** stbrp_setup_heuristic */
    method SetupHeuristic(bestFit': bool)
      requires Valid()
      modifies this`bestFit, this`model
      ensures Valid() && model == old(model).(bestFit := bestFit')
    {
      bestFit := bestFit';
      model := model.(bestFit := bestFit');
    }

    /** stbrp_init_target: `storage` is the caller's node memory. */
    constructor (w: int, h: int, storage: seq<Node>)
      requires 1 <= w <= MAXVAL && 0 <= h <= SENTINEL_HEIGHT && |storage| >= 1
      requires Distinct(storage)
      modifies storage
      ensures Valid() && |active| == 2 && fresh(active[0]) && fresh(active[1])
      ensures nodes == {active[0], active[1]} + Elements(storage)
      ensures model == Initial(w, h, align, |storage|) && CeilingOf(align, w, |storage|)
      ensures width == w && height == h && numNodes == |storage| == |free| && !bestFit
    {
      LinkStorage(storage);
      var extra1 := new Node(w, SENTINEL_HEIGHT, null);
      var extra0 := new Node(0, 0, extra1);
      var a := CeilDiv(w, |storage|);
      width, height, align, numNodes, bestFit := w, h, a, |storage|, false;
      activeHead, freeHead := extra0, storage[0];
      active, free := [extra0, extra1], storage;
      nodes := {extra0, extra1} + Elements(storage);
      model := Initial(w, h, a, |storage|);
      InitialInv(w, h, a, |storage|);
    }
  }

  ghost function Elements(ns: seq<Node>): (r: set<Node>)
    ensures Among(ns, r) && forall n :: n in r ==> n in ns
  {
    set n | n in ns
  }

  /** The packer of a fresh target: one knot over the full width, all storage free. */
  function Initial(w: int, h: int, align: int, n: int): Packer {
    Packer(w, h, align, false, n, [Knot(0, 0), Knot(w, SENTINEL_HEIGHT)], n, {})
  }

  /** A fresh target is empty: the size asked for, no boxes, all storage free, and ground everywhere. */
  lemma InitialIsEmpty(w: int, h: int, align: int, n: int, c: int)
    requires 0 <= c < w
    ensures var p := Initial(w, h, align, n);
            && p.width == w && p.height == h && p.numNodes == n == p.free && p.boxes == {} && !p.bestFit
            && HeightAt(p.sky, c) == 0
  {
  }

  lemma InitialInv(w: int, h: int, align: int, n: int)
    requires 1 <= w && 0 <= h && 1 <= align && 1 <= n
    ensures Inv(Initial(w, h, align, n))
  {
  }

  /** The loop of stbrp_init_target that chains the storage. */
  method LinkStorage(storage: seq<Node>)
    requires Distinct(storage)
    modifies storage
    ensures Chained(storage) && Stacked(storage)
  {
    for k := 0 to |storage|
      invariant forall i {:trigger storage[i].next} :: 0 <= i < k ==> storage[i].next == At(storage, i + 1)
      invariant forall i :: 0 <= i < k ==> storage[i].depth == |storage| - 1 - i
    {
      storage[k].next := if k + 1 < |storage| then storage[k + 1] else null;
      storage[k].depth := |storage| - 1 - k;
    }
  }

  /** `a` is the least number with `w <= a * n`. */
  ghost predicate CeilingOf(a: int, w: int, n: int) { (a - 1) * n < w <= a * n }

  method CeilDiv(w: int, n: int) returns (a: int)
    requires 1 <= w && 1 <= n
    ensures 1 <= a && CeilingOf(a, w, n)
  {
    a := (w + n - 1) / n;
    assert a * n + (w + n - 1) % n == w + n - 1;
    assert a * n == (a - 1) * n + n;
    assert a <= 0 ==> a * n <= 0;
  }

  /** The remainder is determined by any decomposition. */
  lemma ModUnique(x: int, q: int, d: int, r: int)
    requires 0 < d && 0 <= r < d && x == q * d + r
    ensures x % d == r
  {
    var e := x / d - q;
    assert x == x / d * d + x % d;
    assert e * d == r - x % d;
    assert e <= -1 ==> e * d <= -d;
    assert e >= 1 ==> e * d >= d;
  }

  lemma {:induction false} RoundedMultiple(w: int, align: int) returns (q: nat)
    requires 0 < align
    ensures Rounded(w, align) == q * align && Rounded(w, align) % align == 0
    decreases w
  {
    if w <= 0 {
      q := 0;
    } else {
      var q0 := RoundedMultiple(w - align, align);
      q := q0 + 1;
      assert q * align == q0 * align + align;
    }
    ModUnique(Rounded(w, align), q, align, 0);
  }

  lemma {:induction false} NextMultiple(a: int, b: int, d: int)
    requires 0 < d
    ensures a < b ==> a * d + d <= b * d
    decreases b - a
  {
    if a < b {
      Distribute(b, d);
      NextMultiple(a, b - 1, d);
    }
  }

  lemma SameMultiple(a: int, b: int, d: int, w: int)
    requires 0 < d && w <= a * d < w + d && w <= b * d < w + d
    ensures a == b
  {
    NextMultiple(a, b, d);
    NextMultiple(b, a, d);
  }

  /** The arithmetic of the code yields the least multiple of `align` that is not below the width. */
  lemma RoundedIs(w: int, align: int)
    requires 0 < align && 0 < w
    ensures Rounded(w, align) == w + align - 1 - (w + align - 1) % align
    ensures Rounded(w, align) % align == 0 && w <= Rounded(w, align) < w + align
  {
    var q := RoundedMultiple(w, align);
    var v := w + align - 1;
    assert v == v / align * align + v % align;
    SameMultiple(q, v / align, align, w);
  }

  /** The first statements of stbrp__skyline_find_best_pos. */
  method RoundUp(w: int, align: int) returns (rw: int)
    requires 0 < align && 0 < w
    ensures rw == Rounded(w, align)
  {
    rw := w + align - 1;
    rw := rw - rw % align;
    RoundedIs(w, align);
  }

  lemma StepTaken(p: Packer, w: int, h: int, i: nat, x: int, y: int) returns (p': Packer)
    requires Inv(p) && 0 < w && 0 < h && 0 < p.free && Picked(p, Rounded(w, p.align), h, i, x)
    requires y == Rest(p, x, Rounded(w, p.align)) && y + h <= p.height
    ensures p' == Packed(p, w, h, i, x, y) && Step(p, w, h, p', Some((x, y))) && Inv(p')
  {
    p' := Packed(p, w, h, i, x, y);
    PackKeepsInv(p, w, Rounded(w, p.align), h, i, x, y);
  }

  lemma TooHigh(p: Packer, w: int, h: int, x: int)
    requires SkyOk(p) && Lowest(p, Rounded(w, p.align), x) && p.height < Rest(p, x, Rounded(w, p.align)) + h
    ensures forall x' :: !Feasible(p, w, h, x')
  {
  }
}
