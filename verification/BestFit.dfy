/** What best fit of Thirdparty/imgui/imstb_rectpack.h promises: it looks at few positions, but at no
    integer column at all does a rectangle rest lower, or as low over less wasted area. */
module BestFit {
  import opened Wrappers
  import opened Skyline
  import opened PackerModel

  /** Lower, or as low over no more wasted area. */
  ghost predicate Better(p: Packer, rw: int, x: int, x': int) {
    Rest(p, x, rw) < Rest(p, x', rw) || (Rest(p, x, rw) == Rest(p, x', rw) && Area(p, x, rw) <= Area(p, x', rw))
  }

  // ------------------------------------------------------------ sliding a span by one column

  lemma {:induction false} FrontMax(s: seq<Knot>, x0: int, x1: int)
    requires x0 < x1
    ensures SpanMax(s, x0, x1) == Max(Max(0, HeightAt(s, x0)), SpanMax(s, x0 + 1, x1))
    decreases x1 - x0
  {
    if x0 + 1 < x1 {
      FrontMax(s, x0, x1 - 1);
    }
  }

  lemma {:induction false} FrontSlack(s: seq<Knot>, x0: int, x1: int, top: int)
    requires x0 < x1
    ensures SpanSlack(s, x0, x1, top) == top - HeightAt(s, x0) + SpanSlack(s, x0 + 1, x1, top)
    decreases x1 - x0
  {
    if x0 + 1 < x1 {
      FrontSlack(s, x0, x1 - 1, top);
    }
  }

  /** Two spans one column apart: `a` is the column that only the left one has, `b` the other. */
  lemma Shift(s: seq<Knot>, x: int, w: int, a: int, b: int)
    requires 0 < w && a == HeightAt(s, x) && b == HeightAt(s, x + w) && 0 <= a && 0 <= b
    ensures var l, r := SpanMax(s, x, x + w), SpanMax(s, x + 1, x + 1 + w);
            && (b <= l ==> r <= l) && (a <= r ==> l <= r)
            && (l == r ==> SpanSlack(s, x + 1, x + 1 + w, r) == SpanSlack(s, x, x + w, l) + a - b)
  {
    FrontMax(s, x, x + w);
    FrontSlack(s, x, x + w, SpanMax(s, x, x + w));
  }

  /** From knot `i`, which is no lower than knot `j` under the right edge, a span may slide left until
      an edge meets a knot. */
  lemma {:induction false} SlideToLeft(p: Packer, rw: int, x: int, i: nat, j: nat) returns (c: int)
    requires SkyOk(p) && 0 < rw && x + rw <= p.width && Covers(p.sky, i, x) && Covers(p.sky, j, x + rw - 1)
    requires p.sky[j].y <= p.sky[i].y
    ensures Candidate(p, rw, i, c) && Better(p, rw, c, x)
    decreases x - p.sky[i].x
  {
    Ordered(p.sky, 0, i);
    c := x;
    if p.sky[i].x < x {
      HeightOfKnot(p.sky, i, x);
      HeightOfKnot(p.sky, i, x - 1);
      HeightOfKnot(p.sky, j, x + rw - 1);
      SpanMaxBounds(p.sky, x, x + rw, x);
      Shift(p.sky, x - 1, rw, p.sky[i].y, p.sky[j].y);
      if x + rw - 1 == p.sky[j].x {
        c := x - 1;
        IsOnKnot(p.sky, j);
      } else {
        c := SlideToLeft(p, rw, x - 1, i, j);
      }
    }
  }

  /** From a knot that is lower it may slide right. */
  lemma {:induction false} SlideToRight(p: Packer, rw: int, x: int, i: nat, j: nat) returns (k: nat, c: int)
    requires SkyOk(p) && 0 < rw && x + rw <= p.width && Covers(p.sky, i, x) && Covers(p.sky, j, x + rw - 1)
    requires p.sky[i].y < p.sky[j].y
    ensures Candidate(p, rw, k, c) && Better(p, rw, c, x)
    decreases p.sky[i + 1].x - x
  {
    Ordered(p.sky, 0, i);
    k, c := i, x;
    if x + rw == p.sky[j + 1].x {
      IsOnKnot(p.sky, j + 1);
    } else {
      Ordered(p.sky, j + 1, |p.sky| - 1);
      HeightOfKnot(p.sky, i, x);
      HeightOfKnot(p.sky, j, x + rw - 1);
      HeightOfKnot(p.sky, j, x + rw);
      SpanMaxBounds(p.sky, x, x + rw, x + rw - 1);
      Shift(p.sky, x, rw, p.sky[i].y, p.sky[j].y);
      if x + 1 == p.sky[i + 1].x {
        k, c := i + 1, x + 1;
      } else {
        k, c := SlideToRight(p, rw, x + 1, i, j);
      }
    }
  }

  /** For every column there is a candidate that is no worse. */
  lemma CandidatesSuffice(p: Packer, rw: int, x: int) returns (k: nat, c: int)
    requires SkyOk(p) && 0 < rw && 0 <= x && x + rw <= p.width
    ensures Candidate(p, rw, k, c) && Better(p, rw, c, x)
  {
    var i := CoverOf(p.sky, x, |p.sky| - 1);
    var j := CoverOf(p.sky, x + rw - 1, |p.sky| - 1);
    if p.sky[j].y <= p.sky[i].y {
      k := i;
      c := SlideToLeft(p, rw, x, i, j);
    } else {
      k, c := SlideToRight(p, rw, x, i, j);
    }
  }

  // ------------------------------------------------------------ the position that is picked

  /** No integer column is better than the one that best fit picks. */
  lemma PickedIsBest(p: Packer, rw: int, h: int, i: nat, x: int, x': int)
    requires SkyOk(p) && p.bestFit && 0 < rw && Picked(p, rw, h, i, x) && Rest(p, x, rw) + h <= p.height
    requires 0 <= x' && x' + rw <= p.width
    ensures Better(p, rw, x, x')
  {
    var k, c := CandidatesSuffice(p, rw, x');
    if Rest(p, c, rw) + h <= p.height {
      assert NoWorse(RankOf(p, rw, x), RankOf(p, rw, c));
    }
  }

  /** Of the positions looked at that are as low and waste as little, it is the leftmost. */
  lemma PickedIsLeftmost(p: Packer, rw: int, h: int, i: nat, x: int, k: nat, c: int)
    requires p.bestFit && Picked(p, rw, h, i, x) && Candidate(p, rw, k, c) && Rest(p, c, rw) + h <= p.height
    requires Rest(p, c, rw) == Rest(p, x, rw) && Area(p, c, rw) == Area(p, x, rw)
    ensures x <= c
  {
    assert NoWorse(RankOf(p, rw, x), RankOf(p, rw, c));
  }

  /** The same of a step: the rectangle, with its width rounded, rests as low as anywhere in the target,
      and where it does so, over the least wasted area. */
  lemma StepIsBest(p: Packer, w: int, h: int, p': Packer, x: int, y: int)
    requires Inv(p) && p.bestFit && Step(p, w, h, p', Some((x, y)))
    ensures forall x' :: 0 <= x' && x' + Rounded(w, p.align) <= p.width ==> Better(p, Rounded(w, p.align), x, x')
  {
    var rw := Rounded(w, p.align);
    var i: nat :| Picked(p, rw, h, i, x) && p' == Packed(p, w, h, i, x, y);
    forall x' | 0 <= x' && x' + rw <= p.width
      ensures Better(p, rw, x, x')
    {
      PickedIsBest(p, rw, h, i, x, x');
    }
  }

  // ------------------------------------------------------------ what area means

  /** The cells of column `c` between the skyline and height `top`. */
  function ColumnCells(c: int, from: int, top: int): (r: set<(int, int)>)
    ensures forall d, y :: (d, y) in r <==> d == c && from <= y < top
    ensures from <= top ==> |r| == top - from
    decreases top - from
  {
    if top <= from then {} else ColumnCells(c, from, top - 1) + {(c, top - 1)}
  }

  /** The cells between the skyline and height `top` over `[x0, x1)`. */
  function Cells(s: seq<Knot>, x0: int, x1: int, top: int): (r: set<(int, int)>)
    ensures forall c, y :: (c, y) in r <==> x0 <= c < x1 && HeightAt(s, c) <= y < top
    decreases x1 - x0
  {
    if x1 <= x0 then {} else Cells(s, x0, x1 - 1, top) + ColumnCells(x1 - 1, HeightAt(s, x1 - 1), top)
  }

  lemma DisjointUnion<T>(a: set<T>, b: set<T>)
    requires a * b == {}
    ensures |a + b| == |a| + |b|
  {
  }

  /** The area is the number of cells that stay free under the span. */
  lemma {:induction false} SlackCountsCells(s: seq<Knot>, x0: int, x1: int, top: int)
    requires SpanMax(s, x0, x1) <= top
    ensures SpanSlack(s, x0, x1, top) == |Cells(s, x0, x1, top)|
    decreases x1 - x0
  {
    if x0 < x1 {
      SlackCountsCells(s, x0, x1 - 1, top);
      var a, b := Cells(s, x0, x1 - 1, top), ColumnCells(x1 - 1, HeightAt(s, x1 - 1), top);
      forall p | p in a
        ensures p !in b
      {
        assert p == (p.0, p.1);
      }
      DisjointUnion(a, b);
    }
  }
}
