/** stbrp_pack_rects of Thirdparty/imgui/imstb_rectpack.h: sort, pack, restore the order. */
module RectBatch {
  import opened Wrappers
  import opened PackerModel
  import opened RectPack

  datatype Rect = Rect(id: int, w: int, h: int, x: int, y: int, wasPacked: int)

  // ------------------------------------------------------------ sorting

  /** rect_height_compare */
  function HeightCompare(p: Rect, q: Rect): int {
    if p.h > q.h then -1 else if p.h < q.h then 1
    else if p.w > q.w then -1 else if p.w < q.w then 1 else 0
  }

  /** rect_original_order */
  function OriginalOrder(p: Rect, q: Rect): int {
    if p.wasPacked < q.wasPacked then -1 else if p.wasPacked > q.wasPacked then 1 else 0
  }

  function Compare(byHeight: bool, p: Rect, q: Rect): int {
    if byHeight then HeightCompare(p, q) else OriginalOrder(p, q)
  }

  /** `perm` lists every index below `n` exactly once. */
  ghost predicate Permutes(perm: seq<int>, n: int) {
    && |perm| == n
    && (forall i :: 0 <= i < n ==> 0 <= perm[i] < n)
    && (forall i, j :: 0 <= i < j < n ==> perm[i] != perm[j])
  }

  /** Read through `perm`, the rectangles are in order. */
  ghost predicate Ordered(s: seq<Rect>, perm: seq<int>, byHeight: bool) {
    && (forall i :: 0 <= i < |perm| ==> 0 <= perm[i] < |s|)
    && forall i, j :: 0 <= i < j < |perm| ==> Compare(byHeight, s[perm[i]], s[perm[j]]) <= 0
  }

  /** `t` is `s` read through `perm`. */
  ghost predicate Reordered(s: seq<Rect>, t: seq<Rect>, perm: seq<int>) {
    Permutes(perm, |s|) && |t| == |s| && forall i :: 0 <= i < |s| ==> t[i] == s[perm[i]]
  }

  lemma InsertPermutes(perm: seq<int>, k: nat, pos: nat)
    requires Permutes(perm, k) && pos <= k
    ensures Permutes(perm[..pos] + [k] + perm[pos..], k + 1)
  {
  }

  lemma InsertOrdered(s: seq<Rect>, perm: seq<int>, k: nat, pos: nat, byHeight: bool)
    requires Ordered(s, perm, byHeight) && k < |s| && pos <= |perm|
    requires forall i :: 0 <= i < pos ==> Compare(byHeight, s[perm[i]], s[k]) <= 0
    requires pos < |perm| ==> Compare(byHeight, s[perm[pos]], s[k]) > 0
    ensures Ordered(s, perm[..pos] + [k] + perm[pos..], byHeight)
  {
    var r := perm[..pos] + [k] + perm[pos..];
    forall i, j | 0 <= i < j < |r|
      ensures Compare(byHeight, s[r[i]], s[r[j]]) <= 0
    {
      if i == pos {
        assert r[j] == perm[j - 1];
        assert pos < j - 1 ==> Compare(byHeight, s[perm[pos]], s[perm[j - 1]]) <= 0;
      }
    }
  }

  method InsertPosition(s: seq<Rect>, perm: seq<int>, k: nat, byHeight: bool) returns (pos: nat)
    requires Ordered(s, perm, byHeight) && k < |s|
    ensures pos <= |perm|
    ensures forall i :: 0 <= i < pos ==> Compare(byHeight, s[perm[i]], s[k]) <= 0
    ensures pos < |perm| ==> Compare(byHeight, s[perm[pos]], s[k]) > 0
  {
    pos := 0;
    while pos < |perm| && Compare(byHeight, s[perm[pos]], s[k]) <= 0
      invariant pos <= |perm|
      invariant forall i :: 0 <= i < pos ==> Compare(byHeight, s[perm[i]], s[k]) <= 0
    {
      pos := pos + 1;
    }
  }

  method SortIndices(s: seq<Rect>, byHeight: bool) returns (perm: seq<int>)
    ensures Permutes(perm, |s|) && Ordered(s, perm, byHeight)
  {
    perm := [];
    for k := 0 to |s|
      invariant Permutes(perm, k) && Ordered(s, perm, byHeight)
    {
      var pos := InsertPosition(s, perm, k, byHeight);
      InsertPermutes(perm, k, pos);
      InsertOrdered(s, perm, k, pos, byHeight);
      perm := perm[..pos] + [k] + perm[pos..];
    }
  }

  /** STBRP_SORT: callers know only that the array is reordered and in order afterwards. */
  method Sort(rects: array<Rect>, byHeight: bool) returns (ghost perm: seq<int>)
    modifies rects
    ensures Reordered(old(rects[..]), rects[..], perm) && Ordered(old(rects[..]), perm, byHeight)
  {
    var s := rects[..];
    var p := SortIndices(s, byHeight);
    forall i | 0 <= i < rects.Length {
      rects[i] := s[p[i]];
    }
    perm := p;
  }

  // ------------------------------------------------------------ what a batch settles

  predicate Empty(r: Rect) { r.w == 0 || r.h == 0 }

  predicate Failed(r: Rect) { r.x == MAXVAL && r.y == MAXVAL }

  /** The rectangle takes up space in the target. */
  predicate Holds(r: Rect) { !Empty(r) && !Failed(r) }

  function BoxOf(r: Rect): Box { Box(r.x, r.y, r.w, r.h) }

  predicate SameInput(a: Rect, b: Rect) { a.id == b.id && a.w == b.w && a.h == b.h && a.wasPacked == b.wasPacked }

  /** One rectangle is where it should be, given the boxes before the batch and after it. */
  ghost predicate SettledOne(r: Rect, width: int, height: int, before: set<Box>, after: set<Box>) {
    && (Empty(r) ==> r.x == 0 && r.y == 0)
    && (Holds(r) ==> Inside(BoxOf(r), width, height) && BoxOf(r) in after
                     && forall b :: b in before ==> Apart(b, BoxOf(r)))
  }

  /** The batch accounts for exactly the boxes that were added, and no two of them overlap. */
  ghost predicate Settled(rs: seq<Rect>, width: int, height: int, before: set<Box>, after: set<Box>) {
    && before <= after
    && (forall i :: 0 <= i < |rs| ==> SettledOne(rs[i], width, height, before, after))
    && (forall i, j :: 0 <= i < j < |rs| && Holds(rs[i]) && Holds(rs[j]) ==> Apart(BoxOf(rs[i]), BoxOf(rs[j])))
    && (forall b :: b in after && b !in before ==> exists i :: 0 <= i < |rs| && Holds(rs[i]) && BoxOf(rs[i]) == b)
  }

  lemma SettledAppend(rs: seq<Rect>, r: Rect, width: int, height: int, before: set<Box>, mid: set<Box>, after: set<Box>)
    requires Settled(rs, width, height, before, mid)
    requires Empty(r) ==> r.x == 0 && r.y == 0
    requires !Holds(r) ==> after == mid
    requires Holds(r) ==> && after == mid + {BoxOf(r)} && Inside(BoxOf(r), width, height)
                          && forall b :: b in mid ==> Apart(b, BoxOf(r))
    ensures Settled(rs + [r], width, height, before, after)
  {
    var rs' := rs + [r];
    forall i | 0 <= i < |rs'|
      ensures SettledOne(rs'[i], width, height, before, after)
    {
      assert i < |rs| ==> SettledOne(rs[i], width, height, before, mid);
    }
    forall i, j | 0 <= i < j < |rs'| && Holds(rs'[i]) && Holds(rs'[j])
      ensures Apart(BoxOf(rs'[i]), BoxOf(rs'[j]))
    {
      assert SettledOne(rs[i], width, height, before, mid);
    }
    forall b | b in after && b !in before
      ensures exists i :: 0 <= i < |rs'| && Holds(rs'[i]) && BoxOf(rs'[i]) == b
    {
      if b in mid {
        var i :| 0 <= i < |rs| && Holds(rs[i]) && BoxOf(rs[i]) == b;
        assert rs'[i] == rs[i];
      } else {
        assert rs'[|rs|] == r;
      }
    }
  }

  /** Reordering a settled batch leaves it settled, once the keys tell where each one went. */
  lemma SettledReordered(s: seq<Rect>, t: seq<Rect>, perm: seq<int>, width: int, height: int,
                         before: set<Box>, after: set<Box>)
    requires Settled(s, width, height, before, after) && Reordered(s, t, perm)
    requires forall i :: 0 <= i < |t| ==> t[i].wasPacked == i
    requires forall i, j :: 0 <= i < j < |s| ==> s[i].wasPacked != s[j].wasPacked
    requires forall i :: 0 <= i < |s| ==> 0 <= s[i].wasPacked < |s|
    ensures Settled(t, width, height, before, after)
  {
    forall i, j | 0 <= i < j < |t| && Holds(t[i]) && Holds(t[j])
      ensures Apart(BoxOf(t[i]), BoxOf(t[j]))
    {
      assert perm[i] != perm[j];
    }
    forall b | b in after && b !in before
      ensures exists i :: 0 <= i < |t| && Holds(t[i]) && BoxOf(t[i]) == b
    {
      var j :| 0 <= j < |s| && Holds(s[j]) && BoxOf(s[j]) == b;
      var i := s[j].wasPacked;
      assert s[perm[i]].wasPacked == s[j].wasPacked;
      assert t[i] == s[j];
    }
  }

  lemma {:induction false} IndexBound(t: seq<Rect>, i: nat)
    requires forall i, j :: 0 <= i < j < |t| ==> t[i].wasPacked < t[j].wasPacked
    requires forall i :: 0 <= i < |t| ==> 0 <= t[i].wasPacked < |t|
    requires i < |t|
    ensures i <= t[i].wasPacked
  {
    if 0 < i {
      IndexBound(t, i - 1);
      assert t[i - 1].wasPacked < t[i].wasPacked;
    }
  }

  /** Increasing keys below the length are the indices themselves. */
  lemma {:induction false} KeyIsIndex(t: seq<Rect>, i: nat)
    requires forall i, j :: 0 <= i < j < |t| ==> t[i].wasPacked < t[j].wasPacked
    requires forall i :: 0 <= i < |t| ==> 0 <= t[i].wasPacked < |t|
    requires i < |t|
    ensures t[i].wasPacked == i
    decreases |t| - i
  {
    IndexBound(t, i);
    if i + 1 < |t| {
      KeyIsIndex(t, i + 1);
      assert t[i].wasPacked < t[i + 1].wasPacked;
    }
  }

  /** The second sort undoes the first: the keys of the reordered batch are its indices. */
  lemma UnsortRestores(s: seq<Rect>, t: seq<Rect>, perm: seq<int>)
    requires Reordered(s, t, perm) && Ordered(s, perm, false)
    requires forall i, j :: 0 <= i < j < |s| ==> s[i].wasPacked != s[j].wasPacked
    requires forall i :: 0 <= i < |s| ==> 0 <= s[i].wasPacked < |s|
    ensures forall i :: 0 <= i < |t| ==> t[i].wasPacked == i
  {
    forall i, j | 0 <= i < j < |t|
      ensures t[i].wasPacked < t[j].wasPacked
    {
      assert Compare(false, s[perm[i]], s[perm[j]]) <= 0;
      assert perm[i] != perm[j];
    }
    forall i | 0 <= i < |t|
      ensures t[i].wasPacked == i
    {
      KeyIsIndex(t, i);
    }
  }

  // ------------------------------------------------------------ the batch as a run

  function Placed(r: Rect): Option<(int, int)> { if Failed(r) then None else Some((r.x, r.y)) }

  /** What a batch asks of the packer: the rectangles that are not empty, one after the other. */
  function Wanted(rs: seq<Rect>): seq<Request> {
    if rs == [] then []
    else
      var r := rs[|rs| - 1];
      Wanted(rs[..|rs| - 1]) + if Empty(r) then [] else [Request(r.w, r.h)]
  }

  /** And what it got. */
  function Answers(rs: seq<Rect>): seq<Option<(int, int)>> {
    if rs == [] then []
    else
      var r := rs[|rs| - 1];
      Answers(rs[..|rs| - 1]) + if Empty(r) then [] else [Placed(r)]
  }

  ghost predicate IsRun(p: Packer, rs: seq<Rect>, p': Packer) { Run(p, Wanted(rs), Answers(rs), p') }

  /** The rectangles were packed one after the other, the highest first; `sorted` is that order. */
  ghost predicate PackedByHeight(p: Packer, rs: seq<Rect>, sorted: seq<Rect>, perm: seq<int>, p': Packer) {
    Reordered(rs, sorted, perm) && Ordered(rs, perm, true) && IsRun(p, sorted, p')
  }

  /** The highest come first, and of equally high ones the widest. */
  ghost predicate HighestFirst(rs: seq<Rect>) {
    forall i, j :: 0 <= i < j < |rs| ==> rs[i].h >= rs[j].h && (rs[i].h == rs[j].h ==> rs[i].w >= rs[j].w)
  }

  lemma OrderedIsHighestFirst(rs: seq<Rect>, sorted: seq<Rect>, perm: seq<int>)
    requires Reordered(rs, sorted, perm) && Ordered(rs, perm, true)
    ensures HighestFirst(sorted)
  {
    forall i, j | 0 <= i < j < |sorted|
      ensures sorted[i].h >= sorted[j].h && (sorted[i].h == sorted[j].h ==> sorted[i].w >= sorted[j].w)
    {
      assert Compare(true, rs[perm[i]], rs[perm[j]]) <= 0;
    }
  }

  lemma RunGrows(p: Packer, rs: seq<Rect>, q: Packer, r: Rect, q': Packer)
    requires IsRun(p, rs, q) && SkyOk(q) && 0 <= r.w && 0 <= r.h
    requires if Empty(r) then q' == q else Step(q, r.w, r.h, q', Placed(r))
    ensures IsRun(p, rs + [r], q')
  {
    assert (rs + [r])[..|rs|] == rs;
    if Empty(r) {
      assert Wanted(rs + [r]) == Wanted(rs) && Answers(rs + [r]) == Answers(rs);
    } else {
      RunAppend(p, Wanted(rs), Answers(rs), q, r.w, r.h, q', Placed(r));
    }
  }

  /** Flags do not matter for what was asked and answered. */
  lemma {:induction false} SameRun(a: seq<Rect>, b: seq<Rect>)
    requires |a| == |b| && forall i :: 0 <= i < |a| ==> b[i] == a[i].(wasPacked := b[i].wasPacked)
    ensures Wanted(a) == Wanted(b) && Answers(a) == Answers(b)
  {
    if a != [] {
      SameRun(a[..|a| - 1], b[..|b| - 1]);
    }
  }

  function Flagging(r: Rect): Rect { r.(wasPacked := if Failed(r) then 0 else 1) }

  function Flaggings(rs: seq<Rect>): (r: seq<Rect>)
    ensures |r| == |rs| && forall i :: 0 <= i < |rs| ==> r[i] == Flagging(rs[i])
  {
    seq(|rs|, i requires 0 <= i < |rs| => Flagging(rs[i]))
  }

  lemma {:induction false} FlagReorders(t: seq<Rect>, u: seq<Rect>, sorted: seq<Rect>, perm: seq<int>)
    requires Reordered(t, sorted, perm) && |u| == |t| && forall i :: 0 <= i < |t| ==> u[i] == Flagging(t[i])
    ensures Reordered(u, Flaggings(sorted), perm)
  {
  }

  lemma {:induction false} FlagKeepsRun(p: Packer, t: seq<Rect>, u: seq<Rect>, sorted: seq<Rect>, perm: seq<int>, p': Packer)
    returns (sorted': seq<Rect>)
    requires PackedByHeight(p, t, sorted, perm, p') && |u| == |t| && forall i :: 0 <= i < |t| ==> u[i] == Flagging(t[i])
    ensures PackedByHeight(p, u, sorted', perm, p')
  {
    sorted' := Flaggings(sorted);
    SameRun(sorted, sorted');
    FlagReorders(t, u, sorted, perm);
    OrderedAlike(t, u, perm);
  }

  lemma OrderedAlike(a: seq<Rect>, b: seq<Rect>, perm: seq<int>)
    requires |a| == |b| && forall i :: 0 <= i < |a| ==> b[i].w == a[i].w && b[i].h == a[i].h
    requires Ordered(a, perm, true)
    ensures Ordered(b, perm, true)
  {
    forall i, j | 0 <= i < j < |perm|
      ensures Compare(true, b[perm[i]], b[perm[j]]) <= 0
    {
      assert Compare(true, a[perm[i]], a[perm[j]]) <= 0;
    }
  }

  /** The array as it was packed, `s`, read back from the restored one. */
  lemma RestoredRun(p: Packer, r0: seq<Rect>, s0: seq<Rect>, s: seq<Rect>, t: seq<Rect>,
                    perm1: seq<int>, perm2: seq<int>, p': Packer)
    requires IsRun(p, s, p') && Reordered(r0, s0, perm1) && Ordered(r0, perm1, true) && SameInputs(s0, s)
    requires forall i :: 0 <= i < |r0| ==> r0[i].wasPacked == i
    requires Reordered(s, t, perm2) && Restores(r0, t)
    requires forall i :: 0 <= i < |t| ==> t[i].wasPacked == i
    ensures PackedByHeight(p, t, s, perm1, p')
  {
    forall i | 0 <= i < |s|
      ensures s[i].wasPacked == perm1[i]
    {
      assert SameInput(s0[i], s[i]);
    }
    forall i | 0 <= i < |s|
      ensures s[i] == t[perm1[i]]
    {
      var k := perm1[i];
      assert t[k] == s[perm2[k]] && s[perm2[k]].wasPacked == perm1[perm2[k]];
    }
    OrderedAlike(r0, t, perm1);
    assert Reordered(t, s, perm1);
  }

  // ------------------------------------------------------------ the batch

  ghost predicate Sized(rs: seq<Rect>) {
    forall i :: 0 <= i < |rs| ==> 0 <= rs[i].w && 0 <= rs[i].h
  }

  ghost predicate SameInputs(a: seq<Rect>, b: seq<Rect>) {
    |a| == |b| && forall i :: 0 <= i < |a| ==> SameInput(a[i], b[i])
  }

  /** The rectangles of `a`, numbered. */
  ghost predicate Numbered(a: seq<Rect>, b: seq<Rect>) {
    |a| == |b| && forall i :: 0 <= i < |a| ==> b[i] == a[i].(wasPacked := i)
  }

  lemma ReorderedSized(r: seq<Rect>, r0: seq<Rect>, s0: seq<Rect>, perm: seq<int>)
    requires Sized(r) && Numbered(r, r0) && Reordered(r0, s0, perm)
    ensures Sized(s0)
  {
  }

  /** The index of each rectangle is kept in its flag while the array is sorted. */
  method Number(rects: array<Rect>)
    modifies rects
    ensures Numbered(old(rects[..]), rects[..])
  {
    for k := 0 to rects.Length
      invariant forall i :: 0 <= i < k ==> rects[i] == old(rects[i]).(wasPacked := i)
      invariant forall i :: k <= i < rects.Length ==> rects[i] == old(rects[i])
    {
      rects[k] := rects[k].(wasPacked := k);
    }
  }

  /** Pack one rectangle of the batch. */
  method PackOne(c: Context, r: Rect) returns (r': Rect)
    requires c.Valid() && 0 <= r.w && 0 <= r.h
    modifies c`active, c`activeHead, c`free, c`freeHead, c`model, c.nodes
    ensures c.Valid() && SameInput(r, r')
    ensures c.model.width == old(c.model.width) && c.model.height == old(c.model.height)
    ensures if Empty(r') then c.model == old(c.model) else Step(old(c.model), r.w, r.h, c.model, Placed(r'))
    ensures Empty(r') ==> r'.x == 0 && r'.y == 0
    ensures !Holds(r') ==> c.model.boxes == old(c.model.boxes)
    ensures Holds(r') ==> && c.model.boxes == old(c.model.boxes) + {BoxOf(r')}
                          && Inside(BoxOf(r'), c.model.width, c.model.height)
                          && forall b :: b in old(c.model.boxes) ==> Apart(b, BoxOf(r'))
  {
    if r.w == 0 || r.h == 0 {
      r' := r.(x := 0, y := 0);
    } else {
      var out := c.PackRectangle(r.w, r.h);
      StepKeepsInv(old(c.model), r.w, r.h, c.model, out);
      match out {
        case Some((x, y)) => r' := r.(x := x, y := y);
        case None => r' := r.(x := MAXVAL, y := MAXVAL);
      }
    }
  }

  /** What a batch leads to, from packer `p` to `p'`. */
  ghost predicate Batch(p: Packer, rs: seq<Rect>, p': Packer) {
    IsRun(p, rs, p') && Settled(rs, p.width, p.height, p.boxes, p'.boxes)
  }

  /** One more rectangle of the batch. */
  method PackNext(c: Context, r: Rect, ghost p: Packer, ghost done: seq<Rect>) returns (r': Rect)
    requires c.Valid() && 0 <= r.w && 0 <= r.h
    requires Batch(p, done, c.model) && c.model.width == p.width && c.model.height == p.height
    modifies c`active, c`activeHead, c`free, c`freeHead, c`model, c.nodes
    ensures c.Valid() && SameInput(r, r')
    ensures Batch(p, done + [r'], c.model) && c.model.width == p.width && c.model.height == p.height
  {
    r' := PackOne(c, r);
    SettledAppend(done, r', p.width, p.height, p.boxes, old(c.model.boxes), c.model.boxes);
    RunGrows(p, done, old(c.model), r', c.model);
  }

  /** The packing loop of stbrp_pack_rects. */
  method PackSorted(c: Context, rects: array<Rect>)
    requires c.Valid() && Sized(rects[..])
    modifies c`active, c`activeHead, c`free, c`freeHead, c`model, c.nodes, rects
    ensures c.Valid() && c.model.width == old(c.model.width) && c.model.height == old(c.model.height)
    ensures SameInputs(old(rects[..]), rects[..]) && Batch(old(c.model), rects[..], c.model)
  {
    ghost var was, done: seq<Rect> := rects[..], [];
    for k := 0 to rects.Length
      invariant c.Valid() && c.model.width == old(c.model.width) && c.model.height == old(c.model.height)
      invariant |done| == k && rects[..] == done + was[k..] && SameInputs(was[..k], done)
      invariant Batch(old(c.model), done, c.model)
    {
      assert rects[k] == was[k];
      var r := PackNext(c, rects[k], old(c.model), done);
      rects[k] := r;
      DoneNext(was, done, k, r);
      done := done + [r];
    }
    assert was[..|was|] == was && done + was[|was|..] == done;
  }

  lemma DoneNext(was: seq<Rect>, done: seq<Rect>, k: nat, r: Rect)
    requires |done| == k < |was| && SameInputs(was[..k], done) && SameInput(was[k], r)
    ensures (done + was[k..])[k := r] == done + [r] + was[k + 1..] && SameInputs(was[..k + 1], done + [r])
  {
  }

  /** Turn positions into flags; the result says whether every rectangle was packed. */
  method Flag(rects: array<Rect>) returns (all: int)
    modifies rects
    ensures forall i :: 0 <= i < rects.Length ==>
              rects[i] == old(rects[i]).(wasPacked := if Failed(old(rects[i])) then 0 else 1)
    ensures all == if exists i :: 0 <= i < rects.Length && Failed(old(rects[i])) then 0 else 1
  {
    all := 1;
    for k := 0 to rects.Length
      invariant forall i :: 0 <= i < k ==>
                  rects[i] == old(rects[i]).(wasPacked := if Failed(old(rects[i])) then 0 else 1)
      invariant forall i :: k <= i < rects.Length ==> rects[i] == old(rects[i])
      invariant all == if exists i :: 0 <= i < k && Failed(old(rects[i])) then 0 else 1
    {
      rects[k] := rects[k].(wasPacked := if Failed(rects[k]) then 0 else 1);
      if rects[k].wasPacked == 0 {
        all := 0;
      }
    }
  }

  /** Packed or not, the flag is right. */
  ghost predicate Flagged(rs: seq<Rect>) {
    forall i :: 0 <= i < |rs| ==> rs[i].wasPacked == if Failed(rs[i]) then 0 else 1
  }

  lemma FlagKeepsSettled(t: seq<Rect>, u: seq<Rect>, width: int, height: int, before: set<Box>, after: set<Box>)
    requires Settled(t, width, height, before, after) && |u| == |t|
    requires forall i :: 0 <= i < |t| ==> u[i] == t[i].(wasPacked := if Failed(t[i]) then 0 else 1)
    ensures Settled(u, width, height, before, after) && Flagged(u)
  {
    forall i | 0 <= i < |u|
      ensures SettledOne(u[i], width, height, before, after)
    {
      assert SettledOne(t[i], width, height, before, after);
    }
    forall b | b in after && b !in before
      ensures exists i :: 0 <= i < |u| && Holds(u[i]) && BoxOf(u[i]) == b
    {
      var i :| 0 <= i < |t| && Holds(t[i]) && BoxOf(t[i]) == b;
      assert BoxOf(u[i]) == b;
    }
  }

  /** From array `r`, numbered to `r0` and sorted by height to `s0`, to the packed array `s`. */
  ghost predicate SortedAndPacked(r: seq<Rect>, r0: seq<Rect>, s0: seq<Rect>, s: seq<Rect>, perm: seq<int>,
                                  p: Packer, p': Packer) {
    && Numbered(r, r0) && Reordered(r0, s0, perm) && Ordered(r0, perm, true)
    && SameInputs(s0, s) && Batch(p, s, p')
  }

  /** The first half of stbrp_pack_rects. */
  method SortAndPack(c: Context, rects: array<Rect>) returns (ghost perm: seq<int>, ghost r0: seq<Rect>, ghost s0: seq<Rect>)
    requires c.Valid() && Sized(rects[..])
    modifies c`active, c`activeHead, c`free, c`freeHead, c`model, c.nodes, rects
    ensures c.Valid() && c.model.width == old(c.model.width) && c.model.height == old(c.model.height)
    ensures SortedAndPacked(old(rects[..]), r0, s0, rects[..], perm, old(c.model), c.model)
  {
    Number(rects);
    r0 := rects[..];
    perm := Sort(rects, true);
    s0 := rects[..];
    ReorderedSized(old(rects[..]), r0, s0, perm);
    PackSorted(c, rects);
  }

  /** The second sort puts everything back in its place. */
  method Unsort(rects: array<Rect>, ghost r: seq<Rect>, ghost r0: seq<Rect>, ghost s0: seq<Rect>, ghost perm: seq<int>,
                ghost p: Packer, ghost p': Packer)
    requires SortedAndPacked(r, r0, s0, rects[..], perm, p, p')
    modifies rects
    ensures Restores(r, rects[..]) && PackedByHeight(p, rects[..], old(rects[..]), perm, p')
    ensures Settled(rects[..], p.width, p.height, p.boxes, p'.boxes)
  {
    ghost var perm2 := Sort(rects, false);
    BatchRestored(r, r0, s0, old(rects[..]), rects[..], perm, perm2, p, p');
  }

  lemma BatchRestored(r: seq<Rect>, r0: seq<Rect>, s0: seq<Rect>, s: seq<Rect>, t: seq<Rect>,
                      perm1: seq<int>, perm2: seq<int>, p: Packer, p': Packer)
    requires SortedAndPacked(r, r0, s0, s, perm1, p, p') && Reordered(s, t, perm2) && Ordered(s, perm2, false)
    ensures Restores(r, t) && PackedByHeight(p, t, s, perm1, p') && Settled(t, p.width, p.height, p.boxes, p'.boxes)
  {
    Restored(r, r0, s0, s, t, perm1, perm2, p.width, p.height, p.boxes, p'.boxes);
    RestoredRun(p, r0, s0, s, t, perm1, perm2, p');
  }

  /** Order, ids and sizes are those of `a`. */
  ghost predicate Restores(a: seq<Rect>, b: seq<Rect>) {
    |a| == |b| && forall i :: 0 <= i < |a| ==> b[i].id == a[i].id && b[i].w == a[i].w && b[i].h == a[i].h
  }

  /** From the numbered array `r0`, sorted to `s0`, packed to `s` and unsorted to `t`. */
  lemma Restored(r: seq<Rect>, r0: seq<Rect>, s0: seq<Rect>, s: seq<Rect>, t: seq<Rect>, perm1: seq<int>, perm2: seq<int>,
                 width: int, height: int, before: set<Box>, after: set<Box>)
    requires Settled(s, width, height, before, after)
    requires Numbered(r, r0) && Reordered(r0, s0, perm1) && SameInputs(s0, s)
    requires Reordered(s, t, perm2) && Ordered(s, perm2, false)
    ensures Restores(r, t) && Restores(r0, t) && forall i :: 0 <= i < |t| ==> t[i].wasPacked == i
    ensures Settled(t, width, height, before, after)
  {
    forall i | 0 <= i < |s|
      ensures s[i].wasPacked == perm1[i]
    {
      assert SameInput(s0[i], s[i]);
    }
    UnsortRestores(s, t, perm2);
    SettledReordered(s, t, perm2, width, height, before, after);
    forall i | 0 <= i < |t|
      ensures SameInput(r0[i], t[i])
    {
      assert SameInput(s0[perm2[i]], s[perm2[i]]);
    }
  }

  /** The second half of stbrp_pack_rects. */
  method UnsortAndFlag(rects: array<Rect>, ghost r: seq<Rect>, ghost r0: seq<Rect>, ghost s0: seq<Rect>, ghost perm: seq<int>,
                       ghost p: Packer, ghost p': Packer)
    returns (all: int, ghost sorted: seq<Rect>)
    requires SortedAndPacked(r, r0, s0, rects[..], perm, p, p')
    modifies rects
    ensures Restores(r, rects[..]) && Flagged(rects[..]) && Settled(rects[..], p.width, p.height, p.boxes, p'.boxes)
    ensures PackedByHeight(p, rects[..], sorted, perm, p')
    ensures all == 0 || all == 1
    ensures all == 1 <==> forall i :: 0 <= i < rects.Length ==> rects[i].wasPacked == 1
  {
    sorted := rects[..];
    Unsort(rects, r, r0, s0, perm, p, p');
    ghost var t := rects[..];
    all := Flag(rects);
    FlagKeepsSettled(t, rects[..], p.width, p.height, p.boxes, p'.boxes);
    sorted := FlagKeepsRun(p, t, rects[..], sorted, perm, p');
  }

  /** stbrp_pack_rects: the array keeps its order, ids and sizes; every packed rectangle lies
      inside the target, clear of every other one of this and of earlier batches; they were packed
      in the order of their heights, one step each; the result is 1 exactly when all were packed. */
  method PackRects(c: Context, rects: array<Rect>) returns (all: int, ghost sorted: seq<Rect>, ghost perm: seq<int>)
    requires c.Valid() && Sized(rects[..])
    modifies c`active, c`activeHead, c`free, c`freeHead, c`model, c.nodes, rects
    ensures c.Valid() && Called(old(c.model), rects[..], c.model)
    ensures Restores(old(rects[..]), rects[..]) && Flagged(rects[..])
    ensures PackedByHeight(old(c.model), rects[..], sorted, perm, c.model) && HighestFirst(sorted)
    ensures all == 0 || all == 1
    ensures all == 1 <==> forall i :: 0 <= i < rects.Length ==> rects[i].wasPacked == 1
  {
    ghost var r0, s0;
    perm, r0, s0 := SortAndPack(c, rects);
    all, sorted := UnsortAndFlag(rects, old(rects[..]), r0, s0, perm, old(c.model), c.model);
    OrderedIsHighestFirst(rects[..], sorted, perm);
  }

  // ------------------------------------------------------------ any sequence of calls

  /** What one call of stbrp_pack_rects leaves: the array `rs` and packer `p'`. */
  ghost predicate Called(p: Packer, rs: seq<Rect>, p': Packer) {
    p'.width == p.width && p'.height == p.height && Settled(rs, p.width, p.height, p.boxes, p'.boxes)
  }

  /** A sequence of calls on one target, with the arrays they leave. */
  ghost predicate Session(p: Packer, batches: seq<seq<Rect>>, p': Packer)
    decreases |batches|
  {
    if batches == [] then p' == p else exists q :: Called(p, batches[0], q) && Session(q, batches[1..], p')
  }

  /** Rectangle `i` of batch `a` takes up space. */
  ghost predicate HoldsIn(batches: seq<seq<Rect>>, a: int, i: int) {
    0 <= a < |batches| && 0 <= i < |batches[a]| && Holds(batches[a][i])
  }

  lemma {:induction false} SessionKeeps(p: Packer, batches: seq<seq<Rect>>, p': Packer)
    requires Session(p, batches, p')
    ensures p.boxes <= p'.boxes && p'.width == p.width && p'.height == p.height
    decreases |batches|
  {
    if batches != [] {
      var q :| Called(p, batches[0], q) && Session(q, batches[1..], p');
      SessionKeeps(q, batches[1..], p');
    }
  }

  lemma {:induction false} SessionGives(p: Packer, batches: seq<seq<Rect>>, p': Packer, a: int, i: int)
    requires Session(p, batches, p') && HoldsIn(batches, a, i)
    ensures Inside(BoxOf(batches[a][i]), p.width, p.height) && BoxOf(batches[a][i]) in p'.boxes
    ensures forall b :: b in p.boxes ==> Apart(b, BoxOf(batches[a][i]))
    decreases |batches|
  {
    var q :| Called(p, batches[0], q) && Session(q, batches[1..], p');
    if 0 < a {
      SessionGives(q, batches[1..], p', a - 1, i);
    } else {
      SessionKeeps(q, batches[1..], p');
      assert SettledOne(batches[0][i], p.width, p.height, p.boxes, q.boxes);
    }
  }

  lemma {:induction false} SessionApart(p: Packer, batches: seq<seq<Rect>>, p': Packer, a: int, i: int, b: int, j: int)
    requires Session(p, batches, p') && HoldsIn(batches, a, i) && HoldsIn(batches, b, j) && (a < b || (a == b && i < j))
    ensures Apart(BoxOf(batches[a][i]), BoxOf(batches[b][j]))
    decreases |batches|
  {
    var q :| Called(p, batches[0], q) && Session(q, batches[1..], p');
    if 0 < a {
      SessionApart(q, batches[1..], p', a - 1, i, b - 1, j);
    } else if 0 < b {
      assert SettledOne(batches[0][i], p.width, p.height, p.boxes, q.boxes);
      SessionGives(q, batches[1..], p', b - 1, j);
    }
  }

  /** Over any sequence of calls on one target every packed rectangle lies inside it, and no two of
      them overlap, whichever calls they come from. */
  lemma SessionSafe(p: Packer, batches: seq<seq<Rect>>, p': Packer)
    requires Session(p, batches, p')
    ensures forall a, i :: HoldsIn(batches, a, i) ==> Inside(BoxOf(batches[a][i]), p.width, p.height)
    ensures forall a, i, b, j :: HoldsIn(batches, a, i) && HoldsIn(batches, b, j) && (a != b || i != j) ==>
              Apart(BoxOf(batches[a][i]), BoxOf(batches[b][j]))
  {
    forall a, i | HoldsIn(batches, a, i)
      ensures Inside(BoxOf(batches[a][i]), p.width, p.height)
    {
      SessionGives(p, batches, p', a, i);
    }
    forall a, i, b, j | HoldsIn(batches, a, i) && HoldsIn(batches, b, j) && (a != b || i != j)
      ensures Apart(BoxOf(batches[a][i]), BoxOf(batches[b][j]))
    {
      if a < b || (a == b && i < j) {
        SessionApart(p, batches, p', a, i, b, j);
      } else {
        SessionApart(p, batches, p', b, j, a, i);
      }
    }
  }
}
