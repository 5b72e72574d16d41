/** Meta/Scripts/FlagConv.py: the side of the flag atlas, and where each flag goes. */
module FlagAtlas {
  import opened Wrappers
  import opened Sizes

  function Pow2(k: nat): (p: nat)
    ensures p >= 1
  {
    if k == 0 then 1 else 2 * Pow2(k - 1)
  }

  /** int.bit_length of Python */
  function BitLength(n: nat): nat { if n == 0 then 0 else 1 + BitLength(n / 2) }

  lemma {:induction false} BitLengthBounds(n: nat)
    ensures n < Pow2(BitLength(n)) && (0 < n ==> Pow2(BitLength(n) - 1) <= n)
  {
    if 0 < n {
      BitLengthBounds(n / 2);
    }
  }

  lemma {:induction false} Pow2Monotone(j: nat, k: nat)
    requires j <= k
    ensures Pow2(j) <= Pow2(k)
    decreases k
  {
    if j < k {
      Pow2Monotone(j, k - 1);
    }
  }

  /** A square of this side has room for `n` images of `w` by `h`. */
  predicate Holds(side: nat, n: nat, w: nat, h: nat)
    requires 0 < w && 0 < h
  {
    side / w * (side / h) >= n
  }

  lemma NoneInside(side: nat, d: nat)
    requires side < d
    ensures side / d == 0
  {
  }

  /** Below the larger of the two sizes a square holds nothing. */
  lemma TooSmall(side: nat, n: nat, w: nat, h: nat)
    requires 0 < w && 0 < h && 0 < n && (side < w || side < h)
    ensures !Holds(side, n, w, h)
  {
    if side < w {
      NoneInside(side, w);
    } else {
      NoneInside(side, h);
    }
    TimesNone(side / w, side / h);
  }

  lemma TimesNone(a: nat, b: nat)
    ensures a == 0 || b == 0 ==> a * b == 0
  {
  }

  /** None of the powers of two below number `k` holds the images. */
  ghost predicate NoneBelow(k: nat, n: nat, w: nat, h: nat)
    requires 0 < w && 0 < h
  {
    k == 0 || (!Holds(Pow2(k - 1), n, w, h) && NoneBelow(k - 1, n, w, h))
  }

  lemma {:induction false} NoneBelowAt(k: nat, n: nat, w: nat, h: nat, j: nat)
    requires 0 < w && 0 < h && NoneBelow(k, n, w, h) && j < k
    ensures !Holds(Pow2(j), n, w, h)
    decreases k
  {
    if j < k - 1 {
      NoneBelowAt(k - 1, n, w, h, j);
    }
  }

  /** Powers of two below the larger size are too small. */
  lemma SmallPower(n: nat, w: nat, h: nat, larger: nat, j: nat)
    requires 0 < w && 0 < h && 0 < n && larger == (if w < h then h else w) && j < BitLength(larger - 1)
    ensures !Holds(Pow2(j), n, w, h)
  {
    BitLengthBounds(larger - 1);
    Pow2Monotone(j, BitLength(larger - 1) - 1);
    TooSmall(Pow2(j), n, w, h);
  }

  lemma {:induction false} NoneBelowLarger(n: nat, w: nat, h: nat, larger: nat, k: nat)
    requires 0 < w && 0 < h && 0 < n && larger == (if w < h then h else w) && k <= BitLength(larger - 1)
    ensures NoneBelow(k, n, w, h)
    decreases k
  {
    if 0 < k {
      NoneBelowLarger(n, w, h, larger, k - 1);
      SmallPower(n, w, h, larger, k - 1);
    }
  }

  lemma NoneUpTo(k: nat, n: nat, w: nat, h: nat, cap: nat, j: nat)
    requires 0 < w && 0 < h && NoneBelow(k, n, w, h) && cap < Pow2(k) && Pow2(j) <= cap
    ensures !Holds(Pow2(j), n, w, h)
  {
    if k <= j {
      Pow2Monotone(k, j);
    } else {
      NoneBelowAt(k, n, w, h, j);
    }
  }

  /** No power of two up to the cap holds the images. */
  ghost predicate NoneFits(cap: nat, n: nat, w: nat, h: nat)
    requires 0 < w && 0 < h
  {
    forall j: nat :: Pow2(j) <= cap ==> !Holds(Pow2(j), n, w, h)
  }

  lemma NothingFits(k: nat, n: nat, w: nat, h: nat, cap: nat)
    requires 0 < w && 0 < h && NoneBelow(k, n, w, h) && cap < Pow2(k)
    ensures NoneFits(cap, n, w, h)
  {
    forall j: nat | Pow2(j) <= cap
      ensures !Holds(Pow2(j), n, w, h)
    {
      NoneUpTo(k, n, w, h, cap, j);
    }
  }

  /** `side` is the least power of two that holds the images. */
  ghost predicate LeastSide(side: nat, n: nat, w: nat, h: nat)
    requires 0 < w && 0 < h
  {
    Holds(side, n, w, h) && exists k: nat :: side == Pow2(k) && NoneBelow(k, n, w, h)
  }

  /** What find_min_power2_side answers: the least side with its columns and rows, or nothing up to the cap. */
  ghost predicate Sized(r: Option<(nat, nat, nat)>, n: nat, w: nat, h: nat, cap: nat)
    requires 0 < w && 0 < h
  {
    match r
    case None => NoneFits(cap, n, w, h)
    case Some((side, cols, rows)) =>
      side <= cap && LeastSide(side, n, w, h) && cols == side / w && rows == side / h
  }

  /** The loop of find_min_power2_side, starting with the power of two number `k0`. */
  method SearchSide(n: nat, w: nat, h: nat, cap: nat, start: nat, ghost k0: nat) returns (r: Option<(nat, nat, nat)>)
    requires 0 < w && 0 < h && start == Pow2(k0) && NoneBelow(k0, n, w, h)
    ensures Sized(r, n, w, h, cap)
  {
    ghost var k := k0;
    var side := start;
    while side <= cap
      invariant side == Pow2(k) && NoneBelow(k, n, w, h)
      decreases cap - side
    {
      if Holds(side, n, w, h) {
        return Some((side, side / w, side / h));
      }
      side := 2 * side;
      k := k + 1;
    }
    NothingFits(k, n, w, h, cap);
    r := None;
  }

  /** find_min_power2_side: the least power of two that holds the images, or none up to the cap. */
  method FindMinPower2Side(n: nat, w: nat, h: nat, cap: nat) returns (r: Option<(nat, nat, nat)>)
    requires 0 < w && 0 < h && 0 < n
    ensures Sized(r, n, w, h, cap)
  {
    var larger := if w < h then h else w;
    NoneBelowLarger(n, w, h, larger, BitLength(larger - 1));
    r := SearchSide(n, w, h, cap, Pow2(BitLength(larger - 1)), BitLength(larger - 1));
  }

  // ------------------------------------------------------------ placement

  datatype Cell = Cell(x: nat, y: nat)

  /** The cell of image `i`. */
  function CellOf(i: nat, cols: nat, w: nat, h: nat): Cell
    requires 0 < cols
  {
    Cell(i % cols * w, i / cols * h)
  }

  lemma Quotient(i: nat, q: nat, r: nat, n: nat)
    requires r < n && i == q * n + r
    ensures i / n == q && i % n == r
  {
    if i / n != q || i % n != r {
      DigitsDiffer(i / n, i % n, q, r, n);
    }
  }

  /** The images follow each other from left to right and row by row, starting in the corner. */
  lemma NextCell(i: nat, cols: nat, w: nat, h: nat)
    requires 0 < cols
    ensures CellOf(0, cols, w, h) == Cell(0, 0)
    ensures var c, d := CellOf(i, cols, w, h), CellOf(i + 1, cols, w, h);
            d == if i % cols + 1 < cols then Cell(c.x + w, c.y) else Cell(0, c.y + h)
  {
    var q, r := i / cols, i % cols;
    assert i == q * cols + r;
    if r + 1 < cols {
      Quotient(i + 1, q, r + 1, cols);
      Times(r, w);
    } else {
      Times(q, cols);
      Quotient(i + 1, q + 1, 0, cols);
      Times(q, h);
    }
  }

  lemma Times(a: nat, d: nat)
    ensures (a + 1) * d == a * d + d && 0 * d == 0
  {
  }

  predicate InAtlas(c: Cell, w: nat, h: nat, side: nat) { c.x + w <= side && c.y + h <= side }

  predicate Apart(a: Cell, b: Cell, w: nat, h: nat) {
    a.x + w <= b.x || b.x + w <= a.x || a.y + h <= b.y || b.y + h <= a.y
  }

  lemma {:induction false} StepApart(a: nat, b: nat, d: nat)
    requires a < b
    ensures a * d + d <= b * d
    decreases b
  {
    assert b * d == (b - 1) * d + d;
    if a < b - 1 {
      StepApart(a, b - 1, d);
    }
  }

  lemma MulMonotone(a: nat, b: nat, d: nat)
    ensures a <= b ==> a * d <= b * d
  {
    if a < b {
      StepApart(a, b, d);
    }
  }

  lemma Fits(a: nat, side: nat, d: nat)
    requires 0 < d && a < side / d
    ensures a * d + d <= side
  {
    StepApart(a, side / d, d);
    assert side / d * d <= side;
  }

  lemma RowInGrid(i: nat, cols: nat, rows: nat)
    requires 0 < cols && i < cols * rows
    ensures i / cols < rows
  {
    assert i / cols * cols <= i;
    MulMonotone(rows, i / cols, cols);
  }

  lemma CellFits(i: nat, cols: nat, rows: nat, w: nat, h: nat, side: nat)
    requires 0 < w && 0 < h && cols == side / w && rows == side / h && i < cols * rows
    ensures 0 < cols && i / cols < rows && InAtlas(CellOf(i, cols, w, h), w, h, side)
  {
    assert cols == 0 ==> cols * rows == 0;
    RowInGrid(i, cols, rows);
    Fits(i % cols, side, w);
    Fits(i / cols, side, h);
  }

  lemma GridApart(r1: nat, c1: nat, r2: nat, c2: nat, w: nat, h: nat)
    requires r1 != r2 || c1 != c2
    ensures Apart(Cell(c1 * w, r1 * h), Cell(c2 * w, r2 * h), w, h)
  {
    if r1 < r2 {
      StepApart(r1, r2, h);
    } else if r2 < r1 {
      StepApart(r2, r1, h);
    } else if c1 < c2 {
      StepApart(c1, c2, w);
    } else {
      StepApart(c2, c1, w);
    }
  }

  lemma SameCell(i: nat, j: nat, cols: nat)
    requires 0 < cols && i / cols == j / cols && i % cols == j % cols
    ensures i == j
  {
    assert i == i / cols * cols + i % cols && j == j / cols * cols + j % cols;
  }

  lemma CellsApart(i: nat, j: nat, cols: nat, w: nat, h: nat)
    requires 0 < cols && i != j
    ensures Apart(CellOf(i, cols, w, h), CellOf(j, cols, w, h), w, h)
  {
    if i / cols == j / cols && i % cols == j % cols {
      SameCell(i, j, cols);
    } else {
      GridApart(i / cols, i % cols, j / cols, j % cols, w, h);
    }
  }

  /** Everything lies in the atlas, and no two images overlap. */
  ghost predicate Laid(mapping: seq<Cell>, w: nat, h: nat, side: nat) {
    && (forall i :: 0 <= i < |mapping| ==> InAtlas(mapping[i], w, h, side))
    && (forall i, j :: 0 <= i < j < |mapping| ==> Apart(mapping[i], mapping[j], w, h))
  }

  // ------------------------------------------------------------ no other layout holds more

  /** The cell of the grid in which the top left corner of an image lies. */
  function Slot(c: Cell, cols: nat, w: nat, h: nat): nat
    requires 0 < w && 0 < h
  {
    c.y / h * cols + c.x / w
  }

  lemma WholeBefore(x: nat, d: nat, side: nat)
    requires 0 < d && x + d <= side
    ensures x / d < side / d
  {
    assert x / d * d <= x;
    MulMonotone(side / d, x / d, d);
    assert side < side / d * d + d;
  }

  lemma SlotBelow(c: Cell, w: nat, h: nat, side: nat, cols: nat, rows: nat)
    requires 0 < w && 0 < h && InAtlas(c, w, h, side) && cols == side / w && rows == side / h
    ensures c.x / w < cols && 0 <= Slot(c, cols, w, h) < cols * rows
  {
    WholeBefore(c.x, w, side);
    WholeBefore(c.y, h, side);
    StepApart(c.y / h, rows, cols);
  }

  lemma DigitsDiffer(a: nat, b: nat, c: nat, d: nat, n: nat)
    requires (a != c || b != d) && b < n && d < n
    ensures a * n + b != c * n + d
  {
    if a < c {
      StepApart(a, c, n);
    } else if c < a {
      StepApart(c, a, n);
    }
  }

  lemma SameWhole(x: nat, y: nat, d: nat)
    requires 0 < d && x / d == y / d
    ensures x < y + d
  {
    assert x < x / d * d + d;
    assert y / d * d <= y;
  }

  /** Images whose corners are in the same cell overlap. */
  lemma SameCellOverlaps(a: Cell, b: Cell, w: nat, h: nat)
    requires 0 < w && 0 < h && a.x / w == b.x / w && a.y / h == b.y / h
    ensures !Apart(a, b, w, h)
  {
    SameWhole(a.x, b.x, w);
    SameWhole(b.x, a.x, w);
    SameWhole(a.y, b.y, h);
    SameWhole(b.y, a.y, h);
  }

  lemma SlotsDiffer(a: Cell, b: Cell, w: nat, h: nat, cols: nat)
    requires 0 < w && 0 < h && a.x / w < cols && b.x / w < cols && Apart(a, b, w, h)
    ensures Slot(a, cols, w, h) != Slot(b, cols, w, h)
  {
    if a.x / w == b.x / w && a.y / h == b.y / h {
      SameCellOverlaps(a, b, w, h);
    } else {
      DigitsDiffer(a.y / h, a.x / w, b.y / h, b.x / w, cols);
    }
  }

  /** The cells that the first `n` images use: one each. */
  lemma {:induction false} SlotsOf(mapping: seq<Cell>, w: nat, h: nat, side: nat, cols: nat, rows: nat, n: nat) returns (s: set<int>)
    requires 0 < w && 0 < h && cols == side / w && rows == side / h && n <= |mapping| && Laid(mapping, w, h, side)
    ensures |s| == n && s <= Below(cols * rows)
    ensures forall k :: k in s ==> exists i :: 0 <= i < n && k == Slot(mapping[i], cols, w, h)
  {
    if n == 0 {
      s := {};
    } else {
      var s0 := SlotsOf(mapping, w, h, side, cols, rows, n - 1);
      var k := Slot(mapping[n - 1], cols, w, h);
      SlotBelow(mapping[n - 1], w, h, side, cols, rows);
      if k in s0 {
        var i :| 0 <= i < n - 1 && k == Slot(mapping[i], cols, w, h);
        SlotBelow(mapping[i], w, h, side, cols, rows);
        SlotsDiffer(mapping[i], mapping[n - 1], w, h, cols);
      }
      s := s0 + {k};
    }
  }

  /** However images of one size are laid out in a square, they are no more than the grid has cells. */
  lemma LaidAtMost(mapping: seq<Cell>, w: nat, h: nat, side: nat)
    requires 0 < w && 0 < h && Laid(mapping, w, h, side)
    ensures Holds(side, |mapping|, w, h)
  {
    var n := side / w * (side / h);
    var s := SlotsOf(mapping, w, h, side, side / w, side / h, |mapping|);
    SubsetSize(s, Below(n));
  }

  lemma GridIsLaid(n: nat, w: nat, h: nat, side: nat) returns (mapping: seq<Cell>)
    requires 0 < w && 0 < h && 0 < n && Holds(side, n, w, h)
    ensures |mapping| == n && Laid(mapping, w, h, side)
  {
    var cols, rows := side / w, side / h;
    CellFits(0, cols, rows, w, h, side);
    mapping := seq(n, i requires 0 <= i < n => CellOf(i, cols, w, h));
    forall i | 0 <= i < n
      ensures InAtlas(mapping[i], w, h, side)
    {
      CellFits(i, cols, rows, w, h, side);
    }
    forall i, j | 0 <= i < j < n
      ensures Apart(mapping[i], mapping[j], w, h)
    {
      CellsApart(i, j, cols, w, h);
    }
  }

  /** The comparison of find_min_power2_side asks exactly whether the images can be laid out at all. */
  lemma HoldsExactly(side: nat, n: nat, w: nat, h: nat)
    requires 0 < w && 0 < h && 0 < n
    ensures Holds(side, n, w, h) <==> exists mapping :: |mapping| == n && Laid(mapping, w, h, side)
  {
    if Holds(side, n, w, h) {
      var mapping := GridIsLaid(n, w, h, side);
    }
    if mapping :| |mapping| == n && Laid(mapping, w, h, side) {
      LaidAtMost(mapping, w, h, side);
    }
  }

  /** The placement loop of main; CellFits shows that its row error is never reached. */
  method PlaceImages(n: nat, w: nat, h: nat, side: nat, cols: nat, rows: nat) returns (mapping: seq<Cell>)
    requires 0 < w && 0 < h && cols == side / w && rows == side / h && n <= cols * rows && 0 < n
    ensures |mapping| == n && Laid(mapping, w, h, side)
    ensures 0 < cols && forall k :: 0 <= k < n ==> mapping[k] == CellOf(k, cols, w, h)
  {
    CellFits(0, cols, rows, w, h, side);
    mapping := [];
    for i := 0 to n
      invariant |mapping| == i && Laid(mapping, w, h, side)
      invariant forall k :: 0 <= k < i ==> mapping[k] == CellOf(k, cols, w, h)
    {
      var col, row := i % cols, i / cols;
      CellFits(i, cols, rows, w, h, side);
      forall k | 0 <= k < i
        ensures Apart(mapping[k], CellOf(i, cols, w, h), w, h)
      {
        CellsApart(k, i, cols, w, h);
      }
      mapping := mapping + [Cell(col * w, row * h)];
    }
  }

  /** Sizing and placement together, with the cap of the script. */
  method BuildAtlas(n: nat, w: nat, h: nat) returns (r: Option<(nat, seq<Cell>)>)
    requires 0 < w && 0 < h && 0 < n
    ensures r.Some? ==> && r.value.0 <= 16384 && LeastSide(r.value.0, n, w, h)
                        && |r.value.1| == n && Laid(r.value.1, w, h, r.value.0)
    ensures r.None? ==> NoneFits(16384, n, w, h)
  {
    var found := FindMinPower2Side(n, w, h, 16384);
    match found {
      case None => r := None;
      case Some((side, cols, rows)) =>
        var placed := PlaceImages(n, w, h, side, cols, rows);
        r := Some((side, placed));
    }
  }
}
