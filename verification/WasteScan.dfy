/** stbrp__skyline_find_min_y of Thirdparty/imgui/imstb_rectpack.h as a fold over the knots, and
    how the area it adds up relates to the area really wasted. */
module WasteScan {
  import opened Skyline

  datatype Tally = Tally(minY: int, waste: int, visited: int)

  /** One round, for the knot at `(x, y)` whose successor starts at `next`. */
  function Visit(t: Tally, x: int, y: int, next: int, x0: int, w: int): Tally {
    if y > t.minY then
      Tally(y, t.waste + t.visited * (y - t.minY), t.visited + next - Max(x, x0))
    else
      var under := Min(next - x, w - t.visited);
      Tally(t.minY, t.waste + under * (t.minY - y), t.visited + under)
  }

  function Scan(sky: seq<Knot>, j: nat, x0: int, w: int, t: Tally): Tally
    decreases |sky| - j
  {
    if |sky| <= j + 1 || x0 + w <= sky[j].x then t
    else Scan(sky, j + 1, x0, w, Visit(t, sky[j].x, sky[j].y, sky[j + 1].x, x0, w))
  }

  /** The waste reported for a span of width `w` at `x0`, which belongs to knot `k`. */
  function Waste(sky: seq<Knot>, k: nat, x0: int, w: int): int { Scan(sky, k, x0, w, Tally(0, 0, 0)).waste }

  /** What the tally knows once the span up to column `e` is accounted for. */
  ghost predicate Scanned(sky: seq<Knot>, x0: int, e: int, exact: bool, minY: int, waste: int) {
    minY == SpanMax(sky, x0, e) && (exact ==> waste == SpanSlack(sky, x0, e, minY))
  }

  lemma ScanRaises(sky: seq<Knot>, x0: int, j: int, e: int, e': int, exact: bool, minY: int, waste: int)
    requires Increasing(sky) && 0 <= j < |sky| - 1 && x0 <= e < e' && sky[j].x <= e && e' <= sky[j + 1].x
    requires Scanned(sky, x0, e, exact, minY, waste) && minY < sky[j].y
    ensures Scanned(sky, x0, e', exact, sky[j].y, waste + (e - x0) * (sky[j].y - minY))
  {
    SpanMaxExtend(sky, x0, e, e', j);
    SlackRaise(sky, x0, e, minY, sky[j].y);
    SlackExtend(sky, x0, e, e', j, sky[j].y);
  }

  lemma ScanFills(sky: seq<Knot>, x0: int, j: int, e: int, e': int, exact: bool, minY: int, waste: int)
    requires Increasing(sky) && 0 <= j < |sky| - 1 && x0 <= e < e' && sky[j].x <= e && e' <= sky[j + 1].x
    requires Scanned(sky, x0, e, exact, minY, waste) && sky[j].y <= minY
    ensures Scanned(sky, x0, e', exact, minY, waste + (e' - e) * (minY - sky[j].y))
  {
    SpanMaxExtend(sky, x0, e, e', j);
    SlackExtend(sky, x0, e, e', j, minY);
  }

  /** One round accounts for one more knot. */
  lemma VisitScans(sky: seq<Knot>, j: int, x0: int, w: int, t: Tally, e: int, exact: bool)
    requires Increasing(sky) && 0 <= j < |sky| - 1
    requires x0 <= e < x0 + w && e == Max(sky[j].x, x0) && e < sky[j + 1].x
    requires Scanned(sky, x0, e, exact, t.minY, t.waste)
    requires exact ==> t.visited == e - x0
    requires exact && sky[j].x < x0 ==> t.minY < sky[j].y
    ensures var t' := Visit(t, sky[j].x, sky[j].y, sky[j + 1].x, x0, w);
            && Scanned(sky, x0, Min(sky[j + 1].x, x0 + w), exact, t'.minY, t'.waste)
            && (exact && sky[j + 1].x < x0 + w ==> t'.visited == sky[j + 1].x - x0)
  {
    var e' := Min(sky[j + 1].x, x0 + w);
    if sky[j].y > t.minY {
      ScanRaises(sky, x0, j, e, e', exact, t.minY, t.waste);
    } else {
      ScanFills(sky, x0, j, e, e', exact, t.minY, t.waste);
      assert exact ==> Min(sky[j + 1].x - sky[j].x, w - t.visited) == e' - e;
    }
  }

  /** From knot `j` on, with everything before it accounted for. */
  lemma {:induction false} ScanCompletes(sky: seq<Knot>, j: nat, x0: int, w: int, t: Tally, exact: bool)
    requires Increasing(sky) && j < |sky| && 0 < w && x0 <= sky[j].x && x0 + w <= sky[|sky| - 1].x
    requires Scanned(sky, x0, Min(sky[j].x, x0 + w), exact, t.minY, t.waste)
    requires exact && sky[j].x < x0 + w ==> t.visited == sky[j].x - x0
    ensures Scanned(sky, x0, x0 + w, exact, Scan(sky, j, x0, w, t).minY, Scan(sky, j, x0, w, t).waste)
    decreases |sky| - j
  {
    if sky[j].x < x0 + w {
      VisitScans(sky, j, x0, w, t, sky[j].x, exact);
      ScanCompletes(sky, j + 1, x0, w, Visit(t, sky[j].x, sky[j].y, sky[j + 1].x, x0, w), exact);
    }
  }

  /** The y is always the highest column under the span.  The waste is the area between the span
      and the skyline when the span starts on a knot or on a raised one. */
  lemma ScanMeasures(sky: seq<Knot>, k: nat, x0: int, w: int)
    requires Increasing(sky) && Covers(sky, k, x0) && 0 < w && x0 + w <= sky[|sky| - 1].x
    ensures Scan(sky, k, x0, w, Tally(0, 0, 0)).minY == SpanMax(sky, x0, x0 + w)
    ensures sky[k].x == x0 || 0 < sky[k].y ==>
              Waste(sky, k, x0, w) == SpanSlack(sky, x0, x0 + w, SpanMax(sky, x0, x0 + w))
  {
    var exact := sky[k].x == x0 || 0 < sky[k].y;
    var t := Tally(0, 0, 0);
    VisitScans(sky, k, x0, w, t, x0, exact);
    ScanCompletes(sky, k + 1, x0, w, Visit(t, sky[k].x, sky[k].y, sky[k + 1].x, x0, w), exact);
  }

  // ------------------------------------------------------------ other starts

  /** The knot is higher than everything under the span before it. */
  predicate Raises(sky: seq<Knot>, x0: int, j: nat)
    requires j < |sky|
  {
    SpanMax(sky, x0, sky[j].x) < sky[j].y
  }

  /** Columns in front of a span on flat ground that the scan takes for columns of the span. */
  function Lead(sky: seq<Knot>, k: nat, x0: int, w: int): int
    requires k + 1 < |sky|
  {
    Min(sky[k + 1].x - sky[k].x, w) - (Min(sky[k + 1].x, x0 + w) - x0)
  }

  /** Knot `j` does not bring to light that the count of columns is `lead` too high: it is not the
      last one if it raises the span, and on the ground if it does not but the count is cut there. */
  predicate Harmless(sky: seq<Knot>, x0: int, x1: int, lead: int, j: nat)
    requires j + 1 < |sky|
  {
    if Raises(sky, x0, j) then sky[j + 1].x < x1
    else x1 - lead < Min(sky[j + 1].x, x1) ==> sky[j].y == 0
  }

  /** All knots under the span, from number `from` on, are harmless. */
  predicate HarmlessFrom(sky: seq<Knot>, x0: int, x1: int, lead: int, from: nat)
    decreases |sky| - from
  {
    |sky| <= from + 1 || x1 <= sky[from].x ||
    (Harmless(sky, x0, x1, lead, from) && HarmlessFrom(sky, x0, x1, lead, from + 1))
  }

  lemma {:induction false} HarmlessEach(sky: seq<Knot>, x0: int, x1: int, lead: int, from: nat, j: nat)
    requires Increasing(sky) && HarmlessFrom(sky, x0, x1, lead, from)
    requires from <= j && j + 1 < |sky| && sky[j].x < x1
    ensures Harmless(sky, x0, x1, lead, j)
    decreases |sky| - from
  {
    Ordered(sky, from, j);
    if from < j {
      HarmlessEach(sky, x0, x1, lead, from + 1, j);
    }
  }

  /** The reported waste is the true area exactly in these cases. */
  predicate Measured(sky: seq<Knot>, k: nat, x0: int, w: int)
    requires k + 1 < |sky|
  {
    sky[k].x == x0 || 0 < sky[k].y || HarmlessFrom(sky, x0, x0 + w, Lead(sky, k, x0, w), k + 1)
  }

  lemma Spread(a: int, c: int, y: int, m: int)
    ensures (a + c) * (y - m) == a * (y - m) + c * y - c * m
  {
  }

  lemma SpreadCut(a: int, c: int, y: int, m: int)
    ensures (a - c) * (m - y) == a * (m - y) - c * m + c * y
  {
  }

  lemma Positive(c: int, y: int)
    requires 0 <= c && 0 <= y
    ensures 0 <= c * y && (c * y == 0 <==> c == 0 || y == 0)
  {
  }

  /** The count at knot `j` is `c` too high, and the waste by `c` times the height so far, and `base`. */
  ghost predicate Ahead(sky: seq<Knot>, x0: int, j: nat, t: Tally, c: int, base: int)
    requires j < |sky|
  {
    && t.minY == SpanMax(sky, x0, sky[j].x) && t.visited == sky[j].x - x0 + c
    && t.waste == SpanSlack(sky, x0, sky[j].x, t.minY) + c * t.minY + base
  }

  lemma AheadRaises(sky: seq<Knot>, x0: int, w: int, j: nat, e': int, t: Tally, c: int, base: int)
    requires Increasing(sky) && j + 1 < |sky| && x0 <= sky[j].x && Ahead(sky, x0, j, t, c, base)
    requires Raises(sky, x0, j) && sky[j].x < e' <= sky[j + 1].x
    ensures var t' := Visit(t, sky[j].x, sky[j].y, sky[j + 1].x, x0, w);
            && t'.minY == SpanMax(sky, x0, e') == sky[j].y && t'.visited == sky[j + 1].x - x0 + c
            && t'.waste == SpanSlack(sky, x0, e', t'.minY) + c * t'.minY + base
  {
    var y, m, e := sky[j].y, t.minY, sky[j].x;
    SpanMaxExtend(sky, x0, e, e', j);
    SlackRaise(sky, x0, e, m, y);
    SlackExtend(sky, x0, e, e', j, y);
    Spread(e - x0, c, y, m);
  }

  lemma AheadFills(sky: seq<Knot>, x0: int, w: int, j: nat, e': int, t: Tally, c: int, base: int, c': int)
    requires Increasing(sky) && j + 1 < |sky| && x0 <= sky[j].x < x0 + w && Ahead(sky, x0, j, t, c, base)
    requires !Raises(sky, x0, j) && e' == Min(sky[j + 1].x, x0 + w) && 0 <= c && c' == Min(c, x0 + w - e')
    ensures var t' := Visit(t, sky[j].x, sky[j].y, sky[j + 1].x, x0, w);
            && t'.minY == SpanMax(sky, x0, e') && t'.visited == e' - x0 + c'
            && t'.waste == SpanSlack(sky, x0, e', t'.minY) + c' * t'.minY + (base + (c - c') * sky[j].y)
  {
    var y, m, e := sky[j].y, t.minY, sky[j].x;
    SpanMaxExtend(sky, x0, e, e', j);
    SlackExtend(sky, x0, e, e', j, m);
    assert Min(sky[j + 1].x - e, w - t.visited) == e' - e - (c - c');
    SpreadCut(e' - e, c - c', y, m);
    assert (c - c') * m == c * m - c' * m;
  }

  /** How far knot `j` brings the count and the waste from the truth. */
  lemma AheadStep(sky: seq<Knot>, j: nat, x0: int, w: int, t: Tally, lead: int, c: int, base: int)
    returns (t': Tally, c': int, base': int)
    requires Increasing(sky) && j + 1 < |sky| && x0 < sky[j].x < x0 + w && 0 <= sky[j].y
    requires Ahead(sky, x0, j, t, c, base) && 0 < c <= lead && (c == lead || x0 + w - sky[j].x <= c)
    ensures var e' := Min(sky[j + 1].x, x0 + w);
            && t' == Visit(t, sky[j].x, sky[j].y, sky[j + 1].x, x0, w) && t'.minY == SpanMax(sky, x0, e')
            && t'.waste == SpanSlack(sky, x0, e', t'.minY) + c' * t'.minY + base'
    ensures sky[j + 1].x < x0 + w ==>
              && t'.visited == sky[j + 1].x - x0 + c'
              && 0 < c' <= lead && (c' == lead || x0 + w - sky[j + 1].x <= c')
              && base <= base' && (base == base' <==> Harmless(sky, x0, x0 + w, lead, j))
    ensures x0 + w <= sky[j + 1].x ==>
              base <= c' * t'.minY + base' && (base == c' * t'.minY + base' <==> Harmless(sky, x0, x0 + w, lead, j))
  {
    var e' := Min(sky[j + 1].x, x0 + w);
    t' := Visit(t, sky[j].x, sky[j].y, sky[j + 1].x, x0, w);
    if Raises(sky, x0, j) {
      c', base' := c, base;
      AheadRaises(sky, x0, w, j, e', t, c, base);
      SpanMaxNonNegative(sky, x0, sky[j].x);
      Positive(c, sky[j].y);
    } else {
      c' := Min(c, x0 + w - e');
      base' := base + (c - c') * sky[j].y;
      AheadFills(sky, x0, w, j, e', t, c, base, c');
      Positive(c - c', sky[j].y);
      assert c' == 0 ==> c' * t'.minY == 0;
    }
  }

  /** The waste that the rest of the scan adds too much: none exactly if all knots are harmless. */
  lemma {:induction false} AheadEnds(sky: seq<Knot>, j: nat, x0: int, w: int, t: Tally, lead: int, c: int, base: int)
    requires Increasing(sky) && j + 1 < |sky| && x0 < sky[j].x < x0 + w <= sky[|sky| - 1].x
    requires forall i :: 0 <= i < |sky| - 1 ==> 0 <= sky[i].y
    requires Ahead(sky, x0, j, t, c, base) && 0 < c <= lead && (c == lead || x0 + w - sky[j].x <= c)
    ensures var r := Scan(sky, j, x0, w, t); var area := SpanSlack(sky, x0, x0 + w, r.minY);
            && area + base <= r.waste
            && (area + base == r.waste <==> HarmlessFrom(sky, x0, x0 + w, lead, j))
    decreases |sky| - j
  {
    var t', c', base' := AheadStep(sky, j, x0, w, t, lead, c, base);
    if sky[j + 1].x < x0 + w {
      AheadEnds(sky, j + 1, x0, w, t', lead, c', base');
    }
  }

  /** A span that starts inside flat ground: its first knot is counted with the columns before the span. */
  lemma FlatStart(sky: seq<Knot>, k: nat, x0: int, w: int)
    requires Increasing(sky) && Covers(sky, k, x0) && 0 < w && x0 + w <= sky[|sky| - 1].x
    requires sky[k].x < x0 && sky[k].y == 0
    ensures var e := Min(sky[k + 1].x, x0 + w); var t := Visit(Tally(0, 0, 0), sky[k].x, 0, sky[k + 1].x, x0, w);
            && t == Tally(0, 0, e - x0 + Lead(sky, k, x0, w))
            && (sky[k + 1].x < x0 + w ==> 0 < Lead(sky, k, x0, w))
            && SpanMax(sky, x0, e) == 0 && SpanSlack(sky, x0, e, 0) == 0
  {
    var e := Min(sky[k + 1].x, x0 + w);
    SpanMaxExtend(sky, x0, x0, e, k);
    SlackExtend(sky, x0, x0, e, k, 0);
  }

  /** The waste that find_min_y reports is never below the true area, and equal to it exactly if the
      span is measured: a condition on the heights under the span alone. */
  lemma WasteExactly(sky: seq<Knot>, k: nat, x0: int, w: int)
    requires Increasing(sky) && Covers(sky, k, x0) && 0 < w && x0 + w <= sky[|sky| - 1].x
    requires forall i :: 0 <= i < |sky| - 1 ==> 0 <= sky[i].y
    ensures var area := SpanSlack(sky, x0, x0 + w, SpanMax(sky, x0, x0 + w));
            area <= Waste(sky, k, x0, w) && (area == Waste(sky, k, x0, w) <==> Measured(sky, k, x0, w))
  {
    ScanMeasures(sky, k, x0, w);
    if sky[k].x < x0 && sky[k].y == 0 {
      FlatStart(sky, k, x0, w);
      if sky[k + 1].x < x0 + w {
        var lead := Lead(sky, k, x0, w);
        AheadEnds(sky, k + 1, x0, w, Tally(0, 0, sky[k + 1].x - x0 + lead), lead, lead, 0);
      }
    }
  }

  /** On a skyline as the packer builds them it always is the true area. */
  lemma WasteIsArea(sky: seq<Knot>, k: nat, x0: int, w: int)
    requires Increasing(sky) && Grounded(sky) && Covers(sky, k, x0) && 0 < w && x0 + w <= sky[|sky| - 1].x
    requires forall i :: 0 <= i < |sky| - 1 ==> 0 <= sky[i].y
    ensures Waste(sky, k, x0, w) == SpanSlack(sky, x0, x0 + w, SpanMax(sky, x0, x0 + w))
  {
    WasteExactly(sky, k, x0, w);
  }
}
