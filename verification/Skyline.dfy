/** The skyline of Thirdparty/imgui/imstb_rectpack.h as a value.

    The active list of the packer is a sequence of knots; knot `i` says that every column from
    its own x up to the x of knot `i + 1` is filled up to its y.  The last knot is the sentinel
    at the target width.  Everything here is stated through the height of single columns, which
    does not mention knots at all. */
module Skyline {

  datatype Knot = Knot(x: int, y: int)

  function Max(a: int, b: int): int { if a < b then b else a }

  function Min(a: int, b: int): int { if a < b then a else b }

  ghost predicate Increasing(s: seq<Knot>) {
    forall i, j :: 0 <= i < j < |s| ==> s[i].x < s[j].x
  }

  /** The list starts at column 0, ends in a sentinel at `width`, and no height is negative. */
  ghost predicate Spans(s: seq<Knot>, width: int) {
    && |s| >= 2
    && s[0].x == 0
    && s[|s| - 1].x == width
    && Increasing(s)
    && forall i :: 0 <= i < |s| - 1 ==> 0 <= s[i].y
  }

  /** Only the last knot before the sentinel may be on the ground. */
  ghost predicate Grounded(s: seq<Knot>) {
    forall i :: 0 <= i < |s| - 2 ==> 0 < s[i].y
  }

  /** Column `c` belongs to knot `i`. */
  ghost predicate Covers(s: seq<Knot>, i: int, c: int) {
    0 <= i < |s| - 1 && s[i].x <= c < s[i + 1].x
  }

  /** The height of column `c`: the y of the knot it belongs to. */
  function HeightAt(s: seq<Knot>, c: int, from: nat := 0): int
    decreases |s| - from
  {
    if |s| <= from + 1 then 0
    else if s[from].x <= c < s[from + 1].x then s[from].y
    else HeightAt(s, c, from + 1)
  }

  lemma {:induction false} HeightOfKnot(s: seq<Knot>, i: int, c: int, from: nat := 0)
    requires Increasing(s) && Covers(s, i, c) && from <= i
    ensures HeightAt(s, c, from) == s[i].y
    decreases i - from
  {
    if from < i {
      Ordered(s, from + 1, i);
      HeightOfKnot(s, i, c, from + 1);
    }
  }

  lemma Ordered(s: seq<Knot>, i: int, j: int)
    requires Increasing(s)
    ensures 0 <= i <= j < |s| ==> s[i].x <= s[j].x
  {
  }

  /** Every column between the first knot and the sentinel belongs to a knot. */
  lemma {:induction false} CoverOf(s: seq<Knot>, c: int, n: nat) returns (i: nat)
    requires n < |s| && s[0].x <= c < s[n].x
    ensures i < n && Covers(s, i, c)
  {
    if s[n - 1].x <= c {
      i := n - 1;
    } else {
      i := CoverOf(s, c, n - 1);
    }
  }

  /** The highest column of `[x0, x1)`; zero for an empty span. */
  function SpanMax(s: seq<Knot>, x0: int, x1: int): int
    decreases x1 - x0
  {
    if x1 <= x0 then 0 else Max(SpanMax(s, x0, x1 - 1), HeightAt(s, x1 - 1))
  }

  /** The area between the skyline and height `top` over `[x0, x1)`. */
  function SpanSlack(s: seq<Knot>, x0: int, x1: int, top: int): int
    decreases x1 - x0
  {
    if x1 <= x0 then 0 else SpanSlack(s, x0, x1 - 1, top) + (top - HeightAt(s, x1 - 1))
  }

  lemma {:induction false} SpanMaxBounds(s: seq<Knot>, x0: int, x1: int, c: int)
    requires x0 <= c < x1
    ensures HeightAt(s, c) <= SpanMax(s, x0, x1)
    decreases x1 - x0
  {
    if c < x1 - 1 {
      SpanMaxBounds(s, x0, x1 - 1, c);
    }
  }

  lemma {:induction false} SpanMaxNonNegative(s: seq<Knot>, x0: int, x1: int)
    ensures 0 <= SpanMax(s, x0, x1)
    decreases x1 - x0
  {
    if x0 < x1 {
      SpanMaxNonNegative(s, x0, x1 - 1);
    }
  }

  lemma {:induction false} SpanMaxLeast(s: seq<Knot>, x0: int, x1: int, m: int)
    requires 0 <= m && forall c :: x0 <= c < x1 ==> HeightAt(s, c) <= m
    ensures 0 <= SpanMax(s, x0, x1) <= m
    decreases x1 - x0
  {
    if x0 < x1 {
      SpanMaxLeast(s, x0, x1 - 1, m);
    }
  }

  /** Appending columns that all belong to knot `i`. */
  lemma {:induction false} SpanMaxExtend(s: seq<Knot>, x0: int, e: int, e': int, i: int)
    requires Increasing(s) && 0 <= i < |s| - 1
    requires x0 <= e < e' && s[i].x <= e && e' <= s[i + 1].x
    ensures SpanMax(s, x0, e') == Max(SpanMax(s, x0, e), s[i].y)
    decreases e' - e
  {
    HeightOfKnot(s, i, e' - 1);
    if e < e' - 1 {
      SpanMaxExtend(s, x0, e, e' - 1, i);
    }
  }

  lemma {:induction false} SlackExtend(s: seq<Knot>, x0: int, e: int, e': int, i: int, top: int)
    requires Increasing(s) && 0 <= i < |s| - 1
    requires x0 <= e <= e' && s[i].x <= e && e' <= s[i + 1].x
    ensures SpanSlack(s, x0, e', top) == SpanSlack(s, x0, e, top) + (e' - e) * (top - s[i].y)
    decreases e' - e
  {
    if e < e' {
      HeightOfKnot(s, i, e' - 1);
      SlackExtend(s, x0, e, e' - 1, i, top);
      Distribute(e' - e, top - s[i].y);
    }
  }

  lemma Distribute(n: int, d: int)
    ensures (n - 1) * d + d == n * d
  {
  }

  lemma {:induction false} SlackRaise(s: seq<Knot>, x0: int, x1: int, top: int, top': int)
    requires x0 <= x1
    ensures SpanSlack(s, x0, x1, top') == SpanSlack(s, x0, x1, top) + (x1 - x0) * (top' - top)
    decreases x1 - x0
  {
    if x0 < x1 {
      SlackRaise(s, x0, x1 - 1, top, top');
      Distribute(x1 - x0, top' - top);
    }
  }

  lemma SlideColumn(s: seq<Knot>, x: int, w: int, i: int, c: int)
    requires Increasing(s) && 0 < w && Covers(s, i, x) && s[i].x <= c < s[i].x + w
    ensures HeightAt(s, c) <= SpanMax(s, x, x + w)
  {
    if c < x {
      HeightOfKnot(s, i, c);
      HeightOfKnot(s, i, x);
      SpanMaxBounds(s, x, x + w, x);
    } else {
      SpanMaxBounds(s, x, x + w, c);
    }
  }

  /** Sliding a span left to the start of the knot it begins on never raises it: this is why a
      search over knot positions alone misses no lower position. */
  lemma SlideLeft(s: seq<Knot>, x: int, w: int, i: int)
    requires Increasing(s) && 0 < w && Covers(s, i, x) && 0 <= s[i].y
    ensures SpanMax(s, s[i].x, s[i].x + w) <= SpanMax(s, x, x + w)
  {
    var m := SpanMax(s, x, x + w);
    assert 0 <= m by {
      HeightOfKnot(s, i, x);
      SpanMaxBounds(s, x, x + w, x);
    }
    forall c | s[i].x <= c < s[i].x + w
      ensures HeightAt(s, c) <= m
    {
      SlideColumn(s, x, w, i, c);
    }
    SpanMaxLeast(s, s[i].x, s[i].x + w, m);
  }

  // ---------------------------------------------------------------- splicing

  /** The knot at which the traversal of the splice stops: the first one, from `k` on, that is
      the sentinel or reaches beyond column `limit`. */
  function SpliceEnd(s: seq<Knot>, k: nat, limit: int): (m: nat)
    requires k < |s|
    ensures k <= m < |s|
    ensures m == |s| - 1 || limit < s[m + 1].x
    ensures forall j :: k < j <= m ==> s[j].x <= limit
    decreases |s| - k
  {
    if k + 1 < |s| && s[k + 1].x <= limit then SpliceEnd(s, k + 1, limit) else k
  }

  lemma SpliceEndNext(s: seq<Knot>, k: nat, limit: int)
    requires k + 1 < |s| && s[k + 1].x <= limit
    ensures SpliceEnd(s, k, limit) == SpliceEnd(s, k + 1, limit)
  {
  }

  /** The first knot that the splice may drop. */
  function SpliceStart(s: seq<Knot>, i: nat, x: int): (k: nat)
    requires i < |s|
  {
    if s[i].x < x then i + 1 else i
  }

  /** The skyline after a knot `(x, top)` of width `w` was spliced in at knot `i`. */
  function Splice(s: seq<Knot>, i: nat, x: int, top: int, w: int): (r: seq<Knot>)
    requires i < |s| && SpliceStart(s, i, x) < |s|
  {
    var k := SpliceStart(s, i, x);
    var m := SpliceEnd(s, k, x + w);
    s[..k] + [Knot(x, top), Knot(Max(s[m].x, x + w), s[m].y)] + s[m + 1..]
  }

  /** The column up to which the new knot reaches. */
  function SpliceEdge(s: seq<Knot>, i: nat, x: int, w: int): int
    requires i < |s| && SpliceStart(s, i, x) < |s|
  {
    Max(s[SpliceEnd(s, SpliceStart(s, i, x), x + w)].x, x + w)
  }

  /** What the caller of the splice knows about the chosen place. */
  ghost predicate Place(s: seq<Knot>, width: int, i: int, x: int, w: int) {
    Spans(s, width) && Covers(s, i, x) && 0 <= x && 0 < w && x + w <= width
  }

  lemma SpliceBounds(s: seq<Knot>, width: int, i: nat, x: int, w: int)
    requires Place(s, width, i, x, w)
    ensures x + w <= SpliceEdge(s, i, x, w) <= width
    ensures SpliceEdge(s, i, x, w) <= Max(x + w, s[i + 1].x)
    ensures s[i].x == x ==> SpliceEdge(s, i, x, w) == x + w
  {
    var m := SpliceEnd(s, SpliceStart(s, i, x), x + w);
    Ordered(s, m, |s| - 1);
  }

  /** Where each knot of the spliced skyline comes from. */
  lemma SpliceAt(s: seq<Knot>, i: nat, x: int, top: int, w: int, a: nat)
    requires i < |s| && SpliceStart(s, i, x) < |s|
    ensures var k := SpliceStart(s, i, x); var m := SpliceEnd(s, k, x + w); var r := Splice(s, i, x, top, w);
            && |r| == |s| + k + 1 - m
            && (a < |r| ==> r[a] == if a < k then s[a]
                                    else if a == k then Knot(x, top)
                                    else if a == k + 1 then Knot(SpliceEdge(s, i, x, w), s[m].y)
                                    else s[a + m - k - 1])
  {
  }

  lemma SpliceOrder(s: seq<Knot>, width: int, i: nat, x: int, top: int, w: int, a: nat, b: nat)
    requires Place(s, width, i, x, w) && a < b < |Splice(s, i, x, top, w)|
    ensures Splice(s, i, x, top, w)[a].x < Splice(s, i, x, top, w)[b].x
  {
    var k := SpliceStart(s, i, x);
    var m := SpliceEnd(s, k, x + w);
    SpliceAt(s, i, x, top, w, a);
    SpliceAt(s, i, x, top, w, b);
    SpliceBounds(s, width, i, x, w);
    Ordered(s, a, i);
    Ordered(s, m + 1, b + m - k - 1);
    Ordered(s, m, m + 1);
  }

  lemma SpliceSpans(s: seq<Knot>, width: int, i: nat, x: int, top: int, w: int)
    requires Place(s, width, i, x, w) && 0 <= top
    ensures Spans(Splice(s, i, x, top, w), width)
  {
    var r := Splice(s, i, x, top, w);
    SpliceBounds(s, width, i, x, w);
    forall a, b | 0 <= a < b < |r|
      ensures r[a].x < r[b].x
    {
      SpliceOrder(s, width, i, x, top, w, a, b);
    }
    SpliceAt(s, i, x, top, w, 0);
    SpliceAt(s, i, x, top, w, |r| - 1);
    forall a | 0 <= a < |r| - 1
      ensures 0 <= r[a].y
    {
      SpliceAt(s, i, x, top, w, a);
    }
  }

  /** A splice that starts on a knot, or on a raised one, leaves no ground behind. */
  lemma SpliceGrounded(s: seq<Knot>, i: nat, x: int, top: int, w: int)
    requires Grounded(s) && Covers(s, i, x) && 0 < top && (s[i].x == x || 0 < s[i].y)
    ensures Grounded(Splice(s, i, x, top, w))
  {
    var r := Splice(s, i, x, top, w);
    forall a | 0 <= a < |r| - 2
      ensures 0 < r[a].y
    {
      SpliceAt(s, i, x, top, w, a);
    }
  }

  lemma SplicedKnotBounds(s: seq<Knot>, width: int, i: nat, x: int, w: int, c: int, g: nat)
    requires Place(s, width, i, x, w) && Covers(s, g, c)
    ensures c < x ==> g < SpliceStart(s, i, x)
    ensures SpliceEdge(s, i, x, w) <= c ==> SpliceEnd(s, SpliceStart(s, i, x), x + w) <= g
  {
    Ordered(s, i + 1, g);
    Ordered(s, g + 1, SpliceEnd(s, SpliceStart(s, i, x), x + w));
  }

  lemma {:induction false} CoverBefore(s: seq<Knot>, width: int, i: nat, x: int, top: int, w: int, c: int, g: nat)
    requires Place(s, width, i, x, w) && Covers(s, g, c) && c < x
    ensures Covers(Splice(s, i, x, top, w), g, c) && Splice(s, i, x, top, w)[g] == s[g]
  {
    SplicedKnotBounds(s, width, i, x, w, c, g);
    SpliceAt(s, i, x, top, w, g);
    SpliceAt(s, i, x, top, w, g + 1);
  }

  lemma {:induction false} CoverUnder(s: seq<Knot>, width: int, i: nat, x: int, top: int, w: int, c: int)
    requires Place(s, width, i, x, w) && x <= c < SpliceEdge(s, i, x, w)
    ensures var k := SpliceStart(s, i, x); var r := Splice(s, i, x, top, w); Covers(r, k, c) && r[k].y == top
  {
    var k := SpliceStart(s, i, x);
    SpliceAt(s, i, x, top, w, k);
    SpliceAt(s, i, x, top, w, k + 1);
  }

  lemma {:induction false} CoverBehind(s: seq<Knot>, width: int, i: nat, x: int, top: int, w: int, c: int, g: nat) returns (g': nat)
    requires Place(s, width, i, x, w) && Covers(s, g, c) && SpliceEdge(s, i, x, w) <= c
    ensures Covers(Splice(s, i, x, top, w), g', c) && Splice(s, i, x, top, w)[g'].y == s[g].y
  {
    var k := SpliceStart(s, i, x);
    SplicedKnotBounds(s, width, i, x, w, c, g);
    g' := g - SpliceEnd(s, k, x + w) + k + 1;
    SpliceAt(s, i, x, top, w, g');
    SpliceAt(s, i, x, top, w, g' + 1);
  }

  /** The height of the column that knot `g` of the spliced skyline covers. */
  lemma {:induction false} SplicedHeight(r: seq<Knot>, g: nat, c: int, y: int)
    requires Increasing(r) && Covers(r, g, c) && r[g].y == y
    ensures HeightAt(r, c) == y
  {
    HeightOfKnot(r, g, c);
  }

  /** What splicing does to the columns: exactly `[x, edge)` is set to `top`. */
  lemma {:induction false} SpliceHeights(s: seq<Knot>, width: int, i: nat, x: int, top: int, w: int, c: int)
    requires Place(s, width, i, x, w) && 0 <= top && 0 <= c < width
    ensures HeightAt(Splice(s, i, x, top, w), c) ==
            if x <= c < SpliceEdge(s, i, x, w) then top else HeightAt(s, c)
  {
    var r := Splice(s, i, x, top, w);
    assert Increasing(r) by {
      SpliceSpans(s, width, i, x, top, w);
    }
    var g := CoverOf(s, c, |s| - 1);
    if c < x {
      CoverBefore(s, width, i, x, top, w, c, g);
      SplicedHeight(r, g, c, s[g].y);
    } else if c < SpliceEdge(s, i, x, w) {
      CoverUnder(s, width, i, x, top, w, c);
      SplicedHeight(r, SpliceStart(s, i, x), c, top);
    } else {
      var g' := CoverBehind(s, width, i, x, top, w, c, g);
      SplicedHeight(r, g', c, s[g].y);
    }
    HeightOfKnot(s, g, c);
  }
}
