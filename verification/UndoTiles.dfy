/** How the two stacks of an undo history lie in the record array and in the character buffer of
    StbUndoState (Thirdparty/imgui/imstb_textedit.h). */
module UndoTiles {
  import opened UndoModel

  datatype Record = Record(where: int, insertLength: int, deleteLength: int, charStorage: int)

  /** The record stands for entry `e`, whose characters start at `off`. */
  ghost predicate Stores(r: Record, chars: seq<int>, e: Entry, off: int) {
    && r == Record(e.where, |e.put|, e.del, if e.put == [] then -1 else off)
    && 0 <= off && off + |e.put| <= |chars| && chars[off..off + |e.put|] == e.put
  }

  /** The records from slot `a` on stand for `es`, and their characters lie one after the other
      without gap or overlap from `b` on. */
  ghost predicate Tiles(recs: seq<Record>, chars: seq<int>, es: seq<Entry>, a: int, b: int)
    decreases |es|
  {
    es == [] ||
    (0 <= a < |recs| && Stores(recs[a], chars, es[0], b) && Tiles(recs, chars, es[1..], a + 1, b + |es[0].put|))
  }

  function Shifted(r: Record, d: int): Record {
    if r.charStorage >= 0 then r.(charStorage := r.charStorage + d) else r
  }

  /** Moving the records and their characters moves the tiling. */
  lemma {:induction false} TilesShift(recs: seq<Record>, chars: seq<int>, recs': seq<Record>, chars': seq<int>,
                                      es: seq<Entry>, a: int, b: int, a': int, b': int)
    requires Tiles(recs, chars, es, a, b)
    requires 0 <= a && 0 <= a' && a' + |es| <= |recs'| && a + |es| <= |recs|
    requires 0 <= b && 0 <= b' && b' + Kept(es) <= |chars'| && b + Kept(es) <= |chars|
    requires forall i :: a' <= i < a' + |es| ==> recs'[i] == Shifted(recs[i - a' + a], b' - b)
    requires forall k :: b' <= k < b' + Kept(es) ==> chars'[k] == chars[k - b' + b]
    ensures Tiles(recs', chars', es, a', b')
    decreases |es|
  {
    if es != [] {
      var n := |es[0].put|;
      assert recs'[a'] == Shifted(recs[a' - a' + a], b' - b);
      assert chars'[b'..b' + n] == chars[b..b + n];
      TilesShift(recs, chars, recs', chars', es[1..], a + 1, b + n, a' + 1, b' + n);
    }
  }

  lemma {:induction false} TilesBounds(recs: seq<Record>, chars: seq<int>, es: seq<Entry>, a: int, b: int)
    requires Tiles(recs, chars, es, a, b) && 0 <= b <= |chars| && 0 <= a <= |recs|
    ensures b + Kept(es) <= |chars| && a + |es| <= |recs|
    decreases |es|
  {
    if es != [] {
      TilesBounds(recs, chars, es[1..], a + 1, b + |es[0].put|);
    }
  }

  lemma {:induction false} TilesAppend(recs: seq<Record>, chars: seq<int>, es: seq<Entry>, e: Entry, a: int, b: int)
    requires Tiles(recs, chars, es, a, b) && 0 <= a && a + |es| < |recs|
    requires Stores(recs[a + |es|], chars, e, b + Kept(es))
    ensures Tiles(recs, chars, es + [e], a, b)
    decreases |es|
  {
    if es == [] {
      assert es + [e] == [e];
      assert Tiles(recs, chars, [e][1..], a + 1, b + |e.put|);
    } else {
      TilesAppend(recs, chars, es[1..], e, a + 1, b + |es[0].put|);
      assert (es + [e])[1..] == es[1..] + [e];
    }
  }

  lemma {:induction false} TilesLast(recs: seq<Record>, chars: seq<int>, es: seq<Entry>, a: int, b: int)
    requires Tiles(recs, chars, es, a, b) && es != [] && 0 <= a
    ensures Tiles(recs, chars, es[..|es| - 1], a, b)
    ensures a + |es| - 1 < |recs| && Stores(recs[a + |es| - 1], chars, Last(es), b + Kept(es[..|es| - 1]))
    decreases |es|
  {
    if |es| == 1 {
      assert es[..0] == [];
    } else {
      TilesLast(recs, chars, es[1..], a + 1, b + |es[0].put|);
      assert es[..|es| - 1][1..] == es[1..][..|es[1..]| - 1];
    }
  }

  /** Storage outside the tiling does not matter. */
  lemma {:induction false} TilesKeep(recs: seq<Record>, chars: seq<int>, recs': seq<Record>, chars': seq<int>,
                  es: seq<Entry>, a: int, b: int)
    requires Tiles(recs, chars, es, a, b) && |recs'| == |recs| && |chars'| == |chars|
    requires 0 <= a <= |recs| && 0 <= b <= |chars|
    requires forall i :: a <= i < a + |es| && i < |recs| ==> recs'[i] == recs[i]
    requires forall k :: b <= k < b + Kept(es) && k < |chars| ==> chars'[k] == chars[k]
    ensures Tiles(recs', chars', es, a, b)
  {
    TilesBounds(recs, chars, es, a, b);
    TilesShift(recs, chars, recs', chars', es, a, b, a, b);
  }

  /** The array after `n` elements were copied from `src` to `dst`. */
  function BlockMoved<T>(s: seq<T>, dst: int, src: int, n: int): (r: seq<T>)
    requires 0 <= n && 0 <= dst && 0 <= src && dst + n <= |s| && src + n <= |s|
    ensures |r| == |s|
  {
    s[..dst] + s[src..src + n] + s[dst + n..]
  }

  /** The array after `put` was written at `off`. */
  function Overlaid(s: seq<int>, off: int, put: seq<int>): (r: seq<int>)
    requires 0 <= off && off + |put| <= |s|
    ensures |r| == |s| && r[..off] == s[..off] && r[off..off + |put|] == put && r[off + |put|..] == s[off + |put|..]
  {
    s[..off] + put + s[off + |put|..]
  }

  /** The records after the characters of slots `lo` up to `hi` moved by `d`. */
  function Adjusted(s: seq<Record>, lo: int, hi: int, d: int): (r: seq<Record>)
    ensures |r| == |s|
  {
    seq(|s|, i requires 0 <= i < |s| => if lo <= i < hi then Shifted(s[i], d) else s[i])
  }

  /** The characters that a record holds in the buffer. */
  function Held(r: Record): int { if r.charStorage >= 0 then r.insertLength else 0 }

  /** The first of `count` records and its characters leave the start of the arrays. */
  ghost predicate FirstDropped(recs: seq<Record>, chars: seq<int>, recs': seq<Record>, chars': seq<int>,
                               count: int, used: int)
  {
    && 0 < count <= |recs| && 0 <= Held(recs[0]) <= used <= |chars|
    && recs' == BlockMoved(Adjusted(recs, 0, count, -Held(recs[0])), 0, 1, count - 1)
    && chars' == BlockMoved(chars, 0, Held(recs[0]), used - Held(recs[0]))
  }

  /** Where everything is after the move. */
  lemma {:induction false} FirstDroppedAt(recs: seq<Record>, chars: seq<int>, recs': seq<Record>, chars': seq<int>, count: int, used: int, n: int)
    requires FirstDropped(recs, chars, recs', chars', count, used) && n == Held(recs[0])
    ensures |recs'| == |recs| && |chars'| == |chars|
    ensures forall i :: 0 <= i < count - 1 ==> recs'[i] == Shifted(recs[i + 1], -n)
    ensures forall i :: count <= i < |recs| ==> recs'[i] == recs[i]
    ensures forall k :: 0 <= k < used - n ==> chars'[k] == chars[k + n]
    ensures forall k :: used <= k < |chars| ==> chars'[k] == chars[k]
  {
  }

  /** The tilings after the oldest undo entry was dropped. */
  lemma {:induction false} DropFirst(recs: seq<Record>, chars: seq<int>, recs': seq<Record>, chars': seq<int>,
                  undo: seq<Entry>, redo: seq<Entry>, a: int, b: int)
    requires Tiles(recs, chars, undo, 0, 0) && undo != [] && Tiles(recs, chars, redo, a, b)
    requires |undo| <= a <= |recs| && Kept(undo) <= b <= |chars|
    requires FirstDropped(recs, chars, recs', chars', |undo|, Kept(undo))
    ensures |recs'| == |recs| && |chars'| == |chars| && Held(recs[0]) == |undo[0].put|
    ensures Tiles(recs', chars', undo[1..], 0, 0) && Tiles(recs', chars', redo, a, b)
  {
    FirstDroppedAt(recs, chars, recs', chars', |undo|, Kept(undo), Held(recs[0]));
    TilesShift(recs, chars, recs', chars', undo[1..], 1, |undo[0].put|, 0, 0);
    TilesKeep(recs, chars, recs', chars', redo, a, b);
  }

  /** The last record and its characters leave the end of the arrays; what is stored from slot `rp`
      and from character `rcp` on moves up. */
  ghost predicate LastDropped(recs: seq<Record>, chars: seq<int>, recs': seq<Record>, chars': seq<int>,
                              rp: int, rcp: int)
  {
    && 0 <= rp < |recs| && 0 <= rcp && 0 <= Held(recs[|recs| - 1]) <= |chars| - rcp
    && var n := Held(recs[|recs| - 1]);
       && recs' == BlockMoved(Adjusted(recs, rp, |recs| - 1, n), rp + 1, rp, |recs| - rp - 1)
       && chars' == BlockMoved(chars, rcp + n, rcp, |chars| - rcp - n)
  }

  /** The records differ at most in where their characters are. */
  predicate Alike(r: Record, s: Record) { r == s.(charStorage := r.charStorage) }

  /** What the move leaves: the other characters, and in the slot that has become free a stale copy
      of the newest record. */
  lemma LastDroppedLeaves(recs: seq<Record>, chars: seq<int>, recs': seq<Record>, chars': seq<int>, rp: int, rcp: int)
    requires LastDropped(recs, chars, recs', chars', rp, rcp)
    ensures |recs'| == |recs| && |chars'| == |chars| && chars'[..rcp] == chars[..rcp]
    ensures Alike(recs'[rp], recs[rp]) && (rp + 1 < |recs| ==> Alike(recs'[rp + 1], recs[rp]))
  {
  }

  lemma {:induction false} LastHeld(recs: seq<Record>, chars: seq<int>, redo: seq<Entry>, rp: int, rcp: int)
    requires redo != [] && Tiles(recs, chars, redo, rp, rcp)
    requires 0 <= rp == |recs| - |redo| && 0 <= rcp == |chars| - Kept(redo)
    ensures Held(recs[|recs| - 1]) == |Last(redo).put| <= |chars| - rcp
  {
    TilesLast(recs, chars, redo, rp, rcp);
    KeptLast(redo);
  }

  /** Where everything is after the move. */
  lemma {:induction false} LastDroppedAt(recs: seq<Record>, chars: seq<int>, recs': seq<Record>, chars': seq<int>, rp: int, rcp: int, n: int)
    requires LastDropped(recs, chars, recs', chars', rp, rcp) && n == Held(recs[|recs| - 1])
    ensures |recs'| == |recs| && |chars'| == |chars|
    ensures forall i :: rp < i < |recs| ==> recs'[i] == Shifted(recs[i - 1], n)
    ensures forall i :: 0 <= i < rp ==> recs'[i] == recs[i]
    ensures forall k :: rcp + n <= k < |chars| ==> chars'[k] == chars[k - n]
    ensures forall k :: 0 <= k < rcp ==> chars'[k] == chars[k]
  {
  }

  /** The tilings after the oldest redo entry was dropped. */
  lemma {:induction false} DropLast(recs: seq<Record>, chars: seq<int>, recs': seq<Record>, chars': seq<int>,
                 undo: seq<Entry>, redo: seq<Entry>, rp: int, rcp: int)
    requires Tiles(recs, chars, undo, 0, 0) && redo != [] && Tiles(recs, chars, redo, rp, rcp)
    requires |undo| <= rp == |recs| - |redo| && Kept(undo) <= rcp == |chars| - Kept(redo)
    requires LastDropped(recs, chars, recs', chars', rp, rcp)
    ensures |recs'| == |recs| && |chars'| == |chars| && Held(recs[|recs| - 1]) == |Last(redo).put|
    ensures Tiles(recs', chars', undo, 0, 0)
    ensures Tiles(recs', chars', redo[..|redo| - 1], rp + 1, rcp + |Last(redo).put|)
    ensures Kept(redo[..|redo| - 1]) == Kept(redo) - |Last(redo).put|
  {
    LastHeld(recs, chars, redo, rp, rcp);
    LastDroppedAt(recs, chars, recs', chars', rp, rcp, |Last(redo).put|);
    TilesLast(recs, chars, redo, rp, rcp);
    KeptLast(redo);
    TilesKeep(recs, chars, recs', chars', undo, 0, 0);
    TilesShift(recs, chars, recs', chars', redo[..|redo| - 1], rp, rcp, rp + 1, rcp + |Last(redo).put|);
  }

  /** Both results together. */
  lemma {:induction false} OldestDropped(recs: seq<Record>, chars: seq<int>, recs': seq<Record>, chars': seq<int>,
                 undo: seq<Entry>, redo: seq<Entry>, rp: int, rcp: int)
    requires Tiles(recs, chars, undo, 0, 0) && redo != [] && Tiles(recs, chars, redo, rp, rcp)
    requires |undo| <= rp == |recs| - |redo| && Kept(undo) <= rcp == |chars| - Kept(redo)
    requires LastDropped(recs, chars, recs', chars', rp, rcp)
    ensures |recs'| == |recs| && |chars'| == |chars| && Tiles(recs', chars', undo, 0, 0)
    ensures Tiles(recs', chars', redo[..|redo| - 1], rp + 1, rcp + |Last(redo).put|)
    ensures Kept(redo[..|redo| - 1]) == Kept(redo) - |Last(redo).put|
    ensures chars'[..rcp] == chars[..rcp]
    ensures Alike(recs'[rp], recs[rp]) && (rp + 1 < |recs| ==> Alike(recs'[rp + 1], recs[rp]))
  {
    DropLast(recs, chars, recs', chars', undo, redo, rp, rcp);
    LastDroppedLeaves(recs, chars, recs', chars', rp, rcp);
  }

  /** A record written behind the undo entries, with whatever characters the buffer holds there. */
  lemma {:induction false} PushLast(recs: seq<Record>, chars: seq<int>, recs': seq<Record>, undo: seq<Entry>, e: Entry)
    requires Tiles(recs, chars, undo, 0, 0) && |undo| < |recs| && Kept(undo) + |e.put| <= |chars|
    requires e.put == chars[Kept(undo)..Kept(undo) + |e.put|]
    requires recs' == recs[|undo| := Record(e.where, |e.put|, e.del, if e.put == [] then -1 else Kept(undo))]
    ensures Tiles(recs', chars, undo + [e], 0, 0) && Kept(undo + [e]) == Kept(undo) + |e.put|
  {
    TilesKeep(recs, chars, recs', chars, undo, 0, 0);
    TilesAppend(recs', chars, undo, e, 0, 0);
    KeptConcat(undo, [e]);
    assert Kept([e]) == |e.put| + Kept([]);
  }

  /** Overwriting the characters of the newest undo entry. */
  lemma {:induction false} RefillLast(recs: seq<Record>, chars: seq<int>, chars': seq<int>, undo: seq<Entry>, put: Text)
    requires Tiles(recs, chars, undo, 0, 0) && undo != [] && |put| == |Last(undo).put|
    requires var off := Kept(undo[..|undo| - 1]);
             && |chars'| == |chars| && off + |put| <= |chars|
             && chars'[..off] == chars[..off] && chars'[off..off + |put|] == put
    ensures var undo' := undo[..|undo| - 1] + [Last(undo).(put := put)];
            Tiles(recs, chars', undo', 0, 0) && Kept(undo') == Kept(undo)
  {
    var rest := undo[..|undo| - 1];
    var e := Last(undo).(put := put);
    TilesLast(recs, chars, undo, 0, 0);
    forall k | 0 <= k < Kept(rest)
      ensures chars'[k] == chars[k]
    {
      assert chars'[k] == chars'[..Kept(rest)][k] && chars[k] == chars[..Kept(rest)][k];
    }
    TilesKeep(recs, chars, recs, chars', rest, 0, 0);
    TilesAppend(recs, chars', rest, e, 0, 0);
    KeptConcat(rest, [e]);
    assert Kept([e]) == |e.put| + Kept([]);
    KeptLast(undo);
  }

  function RecordOf(e: Entry, off: int): Record {
    Record(e.where, |e.put|, e.del, if e.put == [] then -1 else off)
  }

  /** A record and characters written between the stacks leave both in place. */
  lemma {:induction false} WriteBetween(recs: seq<Record>, chars: seq<int>, recs': seq<Record>, chars': seq<int>,
                                        undo: seq<Entry>, redo: seq<Entry>, a: int, b: int,
                                        slot: int, r: Record, off: int, put: Text)
    requires Tiles(recs, chars, undo, 0, 0) && Tiles(recs, chars, redo, a, b)
    requires |undo| <= slot < a <= |recs| && Kept(undo) <= off && off + |put| <= b <= |chars|
    requires recs' == recs[slot := r] && chars' == Overlaid(chars, off, put)
    ensures Tiles(recs', chars', undo, 0, 0) && Tiles(recs', chars', redo, a, b)
  {
    OverlaidAt(chars, off, put);
    KeptBetween(recs, chars, recs', chars', undo, 0, 0, slot, off, off + |put|);
    KeptBetween(recs, chars, recs', chars', redo, a, b, slot, off, off + |put|);
  }

  /** What lies beside the slot and the characters written stays. */
  lemma {:induction false} KeptBetween(recs: seq<Record>, chars: seq<int>, recs': seq<Record>, chars': seq<int>,
                                       es: seq<Entry>, a: int, b: int, slot: int, lo: int, hi: int)
    requires Tiles(recs, chars, es, a, b) && 0 <= a <= |recs| && 0 <= b <= |chars|
    requires |recs'| == |recs| && |chars'| == |chars|
    requires slot < a || a + |es| <= slot
    requires hi <= b || b + Kept(es) <= lo
    requires forall i :: 0 <= i < |recs| && i != slot ==> recs'[i] == recs[i]
    requires forall k :: 0 <= k < |chars| && !(lo <= k < hi) ==> chars'[k] == chars[k]
    ensures Tiles(recs', chars', es, a, b)
  {
    TilesKeep(recs, chars, recs', chars', es, a, b);
  }

  lemma OverlaidAt(s: seq<int>, off: int, put: seq<int>)
    requires 0 <= off && off + |put| <= |s|
    ensures forall k :: 0 <= k < |s| && !(off <= k < off + |put|) ==> Overlaid(s, off, put)[k] == s[k]
  {
    var r := Overlaid(s, off, put);
    forall k | 0 <= k < |s| && !(off <= k < off + |put|)
      ensures r[k] == s[k]
    {
      if k < off {
        assert r[k] == r[..off][k] && s[k] == s[..off][k];
      } else {
        var n := off + |put|;
        assert r[k] == r[n..][k - n] && s[k] == s[n..][k - n];
      }
    }
  }

  /** A record and its characters written in front of the redo entries. */
  lemma {:induction false} PushFirst(recs: seq<Record>, chars: seq<int>, recs': seq<Record>, chars': seq<int>,
                  undo: seq<Entry>, redo: seq<Entry>, rp: int, rcp: int, r: Entry)
    requires Tiles(recs, chars, undo, 0, 0) && Tiles(recs, chars, redo, rp, rcp)
    requires |undo| < rp <= |recs| && Kept(undo) + |r.put| <= rcp <= |chars|
    requires recs' == recs[rp - 1 := RecordOf(r, rcp - |r.put|)]
    requires chars' == Overlaid(chars, rcp - |r.put|, r.put)
    ensures Tiles(recs', chars', undo, 0, 0)
    ensures Tiles(recs', chars', [r] + redo, rp - 1, rcp - |r.put|)
    ensures Kept([r] + redo) == |r.put| + Kept(redo)
  {
    WriteBetween(recs, chars, recs', chars', undo, redo, rp, rcp, rp - 1, RecordOf(r, rcp - |r.put|), rcp - |r.put|, r.put);
    assert ([r] + redo)[1..] == redo;
  }

  lemma WrittenStores(recs: seq<Record>, chars: seq<int>, slot: nat, off: nat, e: Entry)
    requires slot < |recs| && off + |e.put| <= |chars|
    ensures Stores(recs[slot := RecordOf(e, off)][slot], Overlaid(chars, off, e.put), e, off)
  {
  }

  /** A record and its characters written behind the undo entries, while `later` stays in place. */
  lemma {:induction false} PushBehind(recs: seq<Record>, chars: seq<int>, recs': seq<Record>, chars': seq<int>,
                   undo: seq<Entry>, later: seq<Entry>, a: int, b: int, e: Entry)
    requires Tiles(recs, chars, undo, 0, 0) && Tiles(recs, chars, later, a, b)
    requires |undo| < a <= |recs| && Kept(undo) + |e.put| <= b <= |chars|
    requires recs' == recs[|undo| := RecordOf(e, Kept(undo))]
    requires chars' == Overlaid(chars, Kept(undo), e.put)
    ensures Tiles(recs', chars', undo + [e], 0, 0) && Kept(undo + [e]) == Kept(undo) + |e.put|
    ensures Tiles(recs', chars', later, a, b)
  {
    WriteBetween(recs, chars, recs', chars', undo, later, a, b, |undo|, RecordOf(e, Kept(undo)), Kept(undo), e.put);
    WrittenStores(recs, chars, |undo|, Kept(undo), e);
    TilesAppend(recs', chars', undo, e, 0, 0);
    KeptAppend(undo, e);
  }

  lemma {:induction false} KeptAppend(es: seq<Entry>, e: Entry)
    ensures Kept(es + [e]) == Kept(es) + |e.put|
  {
    KeptConcat(es, [e]);
    assert Kept([e]) == |e.put| + Kept([]);
  }

  lemma {:induction false} TilesFirst(recs: seq<Record>, chars: seq<int>, r: Entry, later: seq<Entry>, a: int, b: int)
    requires Tiles(recs, chars, [r] + later, a, b)
    ensures 0 <= a < |recs| && Stores(recs[a], chars, r, b) && Tiles(recs, chars, later, a + 1, b + |r.put|)
    ensures Kept([r] + later) == |r.put| + Kept(later)
  {
    assert ([r] + later)[1..] == later;
  }

  /** The arrays after redo entries were dropped: what is left of them is in place, and in front of it
      are the characters `put`, with a record that has the place and the lengths of entry `r0`. */
  ghost predicate Stale(recs: seq<Record>, chars: seq<int>, below: seq<Entry>, redo: seq<Entry>, rp: int, rcp: int,
                        r0: Entry, put: Text) {
    && |below| <= rp == |recs| - |redo| - 1 && Kept(below) <= rcp == |chars| - Kept(redo) - |put|
    && Tiles(recs, chars, below, 0, 0) && Tiles(recs, chars, redo, rp + 1, rcp + |put|)
    && recs[rp] == Record(r0.where, |r0.put|, r0.del, rcp) && chars[rcp..rcp + |put|] == put
  }

  /** A record with the lengths of entry `r0`, pointed at the characters of the entry `c` that takes
      back `u`, makes the redo stack right exactly if `r0` has the place and the lengths of `c`. */
  lemma {:induction false} StaleExact(recs: seq<Record>, chars: seq<int>, below: seq<Entry>, redo: seq<Entry>,
                                      rp: int, rcp: int, r0: Entry, text: Text, u: Entry)
    requires Stale(recs, chars, below, redo, rp, rcp, r0, Chars(text, u.where, u.del)) && 0 < u.del
    ensures Tiles(recs, chars, [Counter(text, u)] + redo, rp, rcp) <==> Resembles(r0, u)
  {
    assert ([Counter(text, u)] + redo)[1..] == redo;
  }
}
