/** StbUndoState of Thirdparty/imgui/imstb_textedit.h: two stacks of records that grow towards each
    other in one array, two character stacks that do so in another.  Every method is proved
    against the history of `UndoModel`. */
module UndoStore {
  import opened UndoModel
  import opened UndoTiles

  /** memmove inside one array */
  method MoveBlock<T>(a: array<T>, dst: int, src: int, n: int)
    requires 0 <= n && 0 <= dst && 0 <= src && dst + n <= a.Length && src + n <= a.Length
    modifies a
    ensures a[..] == BlockMoved(old(a[..]), dst, src, n)
  {
    var was := a[..];
    forall i | dst <= i < dst + n {
      a[i] := was[i - dst + src];
    }
  }

  /** Records from slot `lo` up to `hi` whose characters moved by `d`. */
  method AdjustStorage(recs: array<Record>, lo: int, hi: int, d: int)
    requires 0 <= lo <= hi <= recs.Length
    modifies recs
    ensures recs[..] == Adjusted(old(recs[..]), lo, hi, d)
  {
    for k := lo to hi
      invariant forall i :: lo <= i < k ==> recs[i] == Shifted(old(recs[i]), d)
      invariant forall i :: 0 <= i < recs.Length && !(lo <= i < k) ==> recs[i] == old(recs[i])
    {
      if recs[k].charStorage >= 0 {
        recs[k] := recs[k].(charStorage := recs[k].charStorage + d);
      }
    }
  }

  lemma NothingMoves(recs: seq<Record>, lo: int, hi: int, chars: seq<int>, at: int, n: int)
    requires 0 <= n && 0 <= at && at + n <= |chars|
    ensures Adjusted(recs, lo, hi, 0) == recs && BlockMoved(chars, at, at, n) == chars
  {
  }

  /** Drop the first of `count` records, with its characters, from the start of both arrays. */
  method SlideDown(recs: array<Record>, chars: array<int>, count: int, used: int) returns (used': int)
    requires 0 < count <= recs.Length && 0 <= Held(recs[0]) <= used <= chars.Length
    modifies recs, chars
    ensures FirstDropped(old(recs[..]), old(chars[..]), recs[..], chars[..], count, used)
    ensures used' == used - Held(old(recs[0]))
  {
    used' := used;
    if recs[0].charStorage >= 0 {
      var n := recs[0].insertLength;
      used' := used - n;
      MoveBlock(chars, 0, n, used');
      AdjustStorage(recs, 0, count, -n);
    } else {
      NothingMoves(recs[..], 0, count, chars[..], 0, used);
    }
    assert recs[..] == Adjusted(old(recs[..]), 0, count, -Held(old(recs[0])));
    MoveBlock(recs, 0, 1, count - 1);
  }

  /** `rest` is what stays on the undo stack when `n` more characters have to fit. */
  ghost predicate HasRoom(undo: seq<Entry>, n: nat, lim: Limits, rest: seq<Entry>) {
    n <= lim.chars && rest == Shed(RoomForOne(undo, lim.states), n, lim.chars)
  }

  lemma PushedIs(undo: seq<Entry>, e: Entry, lim: Limits, rest: seq<Entry>, undo': seq<Entry>)
    requires |e.put| > lim.chars ==> undo' == []
    requires |e.put| <= lim.chars ==> HasRoom(undo, |e.put|, lim, rest) && undo' == rest + [e]
    ensures undo' == Pushed(undo, e, lim)
  {
  }

  /** Drop the last record, with its characters, from the end of both arrays. */
  method SlideUp(recs: array<Record>, chars: array<int>, rp: int, rcp: int) returns (rcp': int)
    requires 0 <= rp < recs.Length && 0 <= rcp && 0 <= Held(recs[recs.Length - 1]) <= chars.Length - rcp
    modifies recs, chars
    ensures LastDropped(old(recs[..]), old(chars[..]), recs[..], chars[..], rp, rcp)
    ensures rcp' == rcp + Held(old(recs[recs.Length - 1]))
  {
    var k := recs.Length - 1;
    rcp' := rcp;
    if recs[k].charStorage >= 0 {
      var n := recs[k].insertLength;
      rcp' := rcp + n;
      MoveBlock(chars, rcp', rcp, chars.Length - rcp');
      AdjustStorage(recs, rp, k, n);
    } else {
      NothingMoves(recs[..], rp, k, chars[..], rcp, chars.Length - rcp);
    }
    assert recs[..] == Adjusted(old(recs[..]), rp, k, Held(old(recs[k])));
    MoveBlock(recs, rp + 1, rp, recs.Length - rp - 1);
  }

  /** What `SlideUp` does to the two stacks. */
  method DropOldestRedo(recs: array<Record>, chars: array<int>, rp: int, rcp: int,
                        ghost below: seq<Entry>, ghost redo: seq<Entry>)
    returns (rcp': int)
    requires redo != [] && |below| <= rp == recs.Length - |redo| && Kept(below) <= rcp == chars.Length - Kept(redo)
    requires Tiles(recs[..], chars[..], below, 0, 0) && Tiles(recs[..], chars[..], redo, rp, rcp)
    modifies recs, chars
    ensures rcp <= rcp' == chars.Length - Kept(redo[..|redo| - 1])
    ensures Tiles(recs[..], chars[..], below, 0, 0) && Tiles(recs[..], chars[..], redo[..|redo| - 1], rp + 1, rcp')
    ensures chars[..][..rcp] == old(chars[..])[..rcp]
    ensures Alike(recs[..][rp], old(recs[..])[rp])
    ensures rp + 1 < recs.Length ==> Alike(recs[..][rp + 1], old(recs[..])[rp])
  {
    ghost var recs0, chars0 := recs[..], chars[..];
    LastHeld(recs0, chars0, redo, rp, rcp);
    rcp' := SlideUp(recs, chars, rp, rcp);
    OldestDropped(recs0, chars0, recs[..], chars[..], below, redo, rp, rcp);
  }

  lemma PrefixOfPrefix(a: seq<int>, b: seq<int>, m: int, n: int)
    requires 0 <= m <= n <= |a| && n <= |b| && a[..n] == b[..n]
    ensures a[..m] == b[..m]
  {
    assert a[..n][..m] == a[..m] && b[..n][..m] == b[..m];
  }

  lemma SliceOfPrefix(a: seq<int>, b: seq<int>, n: int, i: int, len: int)
    requires 0 <= n <= |a| && n <= |b| && a[..n] == b[..n] && 0 <= i && 0 <= len && i + len <= n
    ensures a[i..i + len] == b[i..i + len]
  {
    assert a[..n][i..i + len] == a[i..i + len] && b[..n][i..i + len] == b[i..i + len];
  }

  lemma SliceOfSuffix(a: seq<int>, b: seq<int>, i: int, len: int)
    requires 0 <= i && 0 <= len && i + len <= |a| == |b| && a[i..] == b[i..]
    ensures a[i..i + len] == b[i..i + len]
  {
    assert a[i..][..len] == a[i..i + len] && b[i..][..len] == b[i..i + len];
  }

  lemma SuffixOfSuffix(a: seq<int>, b: seq<int>, m: int, n: int)
    requires 0 <= m <= n <= |a| == |b| && a[m..] == b[m..]
    ensures a[n..] == b[n..]
  {
    assert a[m..][n - m..] == a[n..] && b[m..][n - m..] == b[n..];
  }

  /** The redo entry of an undo of `e`: without characters if there is no room for them. */
  ghost function RedoOf(text: Text, e: Entry, full: bool): Entry {
    if 0 < e.del && full then Entry(e.where, [], |e.put|) else Counter(text, e)
  }

  /** The undo entry of a redo of `r`: one that does nothing if there is no room for the characters. */
  ghost function UndoOf(text: Text, r: Entry, full: bool): Entry {
    if 0 < r.del && full then Entry(r.where, [], 0) else Counter(text, r)
  }

  class UndoState {
    const lim: Limits
    const recs: array<Record>
    const chars: array<int>
    var undoPoint: int
    var redoPoint: int
    var undoCharPoint: int
    var redoCharPoint: int

    ghost var undo: seq<Entry>
    ghost var redo: seq<Entry>

    ghost predicate Sized()
      reads this
    {
      1 <= lim.states == recs.Length && 1 <= lim.chars == chars.Length
    }

    /** The redo stack and the entries `below` fill the arrays from both ends, without overlap. */
    ghost predicate Sides(below: seq<Entry>)
      reads this, recs, chars
    {
      && Sized()
      && redoPoint == lim.states - |redo| && |below| <= redoPoint
      && redoCharPoint == lim.chars - Kept(redo) && Kept(below) <= redoCharPoint
      && Tiles(recs[..], chars[..], below, 0, 0)
      && Tiles(recs[..], chars[..], redo, redoPoint, redoCharPoint)
    }

    ghost predicate Valid()
      reads this, recs, chars
    {
      Sides(undo) && undoPoint == |undo| && undoCharPoint == Kept(undo)
    }

    /** stb_textedit_clear_state */
    constructor (lim: Limits)
      requires 1 <= lim.states && 1 <= lim.chars
      ensures Valid() && undo == [] && redo == [] && this.lim == lim && fresh(recs) && fresh(chars)
    {
      this.lim := lim;
      recs := new Record[lim.states](_ => Record(0, 0, 0, 0));
      chars := new int[lim.chars](_ => 0);
      undoPoint, undoCharPoint, redoPoint, redoCharPoint := 0, 0, lim.states, lim.chars;
      undo, redo := [], [];
    }

    /** stb_textedit_flush_redo */
    method FlushRedo()
      requires Valid()
      modifies this`redo, this`redoPoint, this`redoCharPoint
      ensures Valid() && redo == []
    {
      redoPoint := lim.states;
      redoCharPoint := lim.chars;
      redo := [];
    }

    /** stb_textedit_discard_undo: the oldest undo entry goes, everything else stays. */
    method DiscardUndo()
      requires Valid()
      modifies this`undo, this`undoPoint, this`undoCharPoint, recs, chars
      ensures Valid() && undo == if old(undo) == [] then [] else old(undo)[1..]
    {
      if undoPoint > 0 {
        ghost var recs0, chars0 := recs[..], chars[..];
        undoCharPoint := SlideDown(recs, chars, undoPoint, undoCharPoint);
        undoPoint := undoPoint - 1;
        DropFirst(recs0, chars0, recs[..], chars[..], undo, redo, redoPoint, redoCharPoint);
        undo := undo[1..];
      }
    }

    /** The make-room part of stb_text_create_undo_record; the loop ends because an empty stack
        keeps no characters. */
    method MakeRoom(numChars: nat) returns (ok: bool)
      requires Valid()
      modifies this, recs, chars
      ensures Valid() && redo == [] && ok == (numChars <= lim.chars)
      ensures if ok then HasRoom(old(undo), numChars, lim, undo) && Kept(undo) + numChars <= lim.chars else undo == []
      ensures |undo| < lim.states
    {
      FlushRedo();
      if undoPoint == lim.states {
        DiscardUndo();
      }
      ok := numChars <= lim.chars;
      if !ok {
        undoPoint, undoCharPoint, undo := 0, 0, [];
        return;
      }
      while undoCharPoint + numChars > lim.chars
        invariant Valid() && redo == [] && |undo| < lim.states
        invariant Shed(undo, numChars, lim.chars) == Shed(RoomForOne(old(undo), lim.states), numChars, lim.chars)
        decreases undoPoint
      {
        DiscardUndo();
      }
    }

    /** Write a record behind the undo entries; its characters are whatever the buffer holds there. */
    method PushRecord(pos: int, insertLen: nat, deleteLen: nat) returns (off: int, ghost e: Entry)
      requires Valid() && redo == [] && |undo| < lim.states && Kept(undo) + insertLen <= lim.chars
      modifies this`undo, this`undoPoint, this`undoCharPoint, recs
      ensures Valid() && undo == old(undo) + [e] && e == Entry(pos, e.put, deleteLen) && |e.put| == insertLen
      ensures off == if 0 < insertLen then old(undoCharPoint) else -1
    {
      ghost var recs0 := recs[..];
      e := Entry(pos, chars[undoCharPoint..undoCharPoint + insertLen], deleteLen);
      off := if insertLen == 0 then -1 else undoCharPoint;
      recs[undoPoint] := Record(pos, insertLen, deleteLen, off);
      PushLast(recs0, chars[..], recs[..], undo, e);
      undoPoint := undoPoint + 1;
      undoCharPoint := undoCharPoint + insertLen;
      undo := undo + [e];
    }

    /** stb_text_createundo: a record with room for `insertLen` characters that the caller fills
        in; `off` is where they go, or -1 for none. */
    method CreateUndo(pos: int, insertLen: nat, deleteLen: nat)
      returns (off: int, ghost rest: seq<Entry>, ghost e: Entry)
      requires Valid()
      modifies this, recs, chars
      ensures Valid() && redo == [] && (off >= 0 <==> 0 < insertLen <= lim.chars)
      ensures e == Entry(pos, e.put, deleteLen) && |e.put| == insertLen
      ensures insertLen > lim.chars ==> undo == []
      ensures insertLen <= lim.chars ==> undo == rest + [e] && HasRoom(old(undo), insertLen, lim, rest)
      ensures off >= 0 ==> off == Kept(rest)
    {
      off, e := -1, Entry(pos, Chars([], 0, insertLen), deleteLen);
      var ok := MakeRoom(insertLen);
      rest := undo;
      if ok {
        off, e := PushRecord(pos, insertLen, deleteLen);
      }
    }

    /** The loop that saves characters of the text into the newest record. */
    method SaveChars(off: int, text: Text, where: int, n: nat, ghost rest: seq<Entry>, ghost e: Entry)
      requires Valid() && redo == [] && undo == rest + [e] && |e.put| == n && off == Kept(rest)
      modifies chars, this`undo
      ensures Valid() && undo == rest + [e.(put := Chars(text, where, n))]
    {
      ghost var chars0 := chars[..];
      assert undo[..|undo| - 1] == rest;
      KeptLast(undo);
      FillChars(chars, off, text, where, n);
      RefillLast(recs[..], chars0, chars[..], undo, Chars(text, where, n));
      undo := rest + [e.(put := Chars(text, where, n))];
    }

    /** stb_text_makeundo_insert, stb_text_makeundo_delete and stb_text_makeundo_replace: record that
        `oldLen` characters at `where` give way to `newLen` others. */
    method MakeUndo(text: Text, where: int, oldLen: nat, newLen: nat)
      requires Valid()
      modifies this, recs, chars
      ensures Valid() && redo == []
      ensures undo == Pushed(old(undo), Entry(where, Chars(text, where, oldLen), newLen), lim)
    {
      var off, rest, e := CreateUndo(where, oldLen, newLen);
      if off >= 0 {
        SaveChars(off, text, where, oldLen, rest, e);
      }
      PushedIs(old(undo), Entry(where, Chars(text, where, oldLen), newLen), lim, rest, undo);
    }

    /** stb_textedit_discard_redo: the oldest redo entry goes; the slot that becomes free keeps a
        stale copy of the newest record. */
    method DiscardRedo(ghost below: seq<Entry>)
      requires Sides(below) && redo != []
      modifies this`redo, this`redoPoint, this`redoCharPoint, recs, chars
      ensures Sides(below) && redo == old(redo)[..|old(redo)| - 1] && redoPoint == old(redoPoint) + 1
      ensures redoCharPoint >= old(redoCharPoint) && chars[..][..old(redoCharPoint)] == old(chars[..])[..old(redoCharPoint)]
      ensures Alike(recs[redoPoint - 1], old(recs[redoPoint]))
      ensures redo != [] ==> Alike(recs[redoPoint], old(recs[redoPoint]))
    {
      redoCharPoint := DropOldestRedo(recs, chars, redoPoint, redoCharPoint, below, redo);
      redoPoint := redoPoint + 1;
      redo := redo[..|redo| - 1];
    }

    /** The loop of stb_text_undo that drops redo entries until the characters up to `need` are free. */
    method FreeRedoChars(need: int, ghost below: seq<Entry>)
      requires Sides(below) && need <= lim.chars
      modifies this`redo, this`redoPoint, this`redoCharPoint, recs, chars
      ensures Sides(below) && need <= redoCharPoint && redoPoint >= old(redoPoint)
      ensures need <= old(redoCharPoint) ==>
                redo == old(redo) && redoPoint == old(redoPoint) && recs[..] == old(recs[..]) && chars[..] == old(chars[..])
      ensures redoCharPoint >= old(redoCharPoint) && chars[..][..old(redoCharPoint)] == old(chars[..])[..old(redoCharPoint)]
      ensures redo == Fitting(old(redo), lim.chars - need)
      ensures old(redoCharPoint) < need ==> old(redo) != [] && 0 < redoPoint && Alike(recs[redoPoint - 1], RecordOf(old(redo)[0], 0))
    {
      assert redo != [] ==> Alike(recs[redoPoint], RecordOf(redo[0], 0));
      while need > redoCharPoint
        invariant Sides(below) && redoPoint >= old(redoPoint) && redoCharPoint >= old(redoCharPoint)
        invariant redoPoint == old(redoPoint) ==>
                    redo == old(redo) && recs[..] == old(recs[..]) && chars[..] == old(chars[..])
        invariant chars[..][..old(redoCharPoint)] == old(chars[..])[..old(redoCharPoint)]
        invariant Fitting(redo, lim.chars - need) == Fitting(old(redo), lim.chars - need)
        invariant redo != [] ==> old(redo) != [] && Alike(recs[redoPoint], RecordOf(old(redo)[0], 0))
        invariant redoPoint > old(redoPoint) ==>
                    old(redoCharPoint) < need && old(redo) != [] && Alike(recs[redoPoint - 1], RecordOf(old(redo)[0], 0))
        decreases |redo|
      {
        DiscardRedo(below);
      }
    }

    /** Write the redo record of an undo into the slot in front of the redo stack. */
    method WriteRedo(where: int, put: nat, del: nat, ghost below: seq<Entry>)
      requires Sides(below) && |below| < redoPoint
      modifies recs
      ensures Sides(below) && recs[..] == old(recs[..])[redoPoint - 1 := Record(where, put, del, -1)]
    {
      ghost var recs0 := recs[..];
      recs[redoPoint - 1] := Record(where, put, del, -1);
      TilesKeep(recs0, chars[..], recs[..], chars[..], below, 0, 0);
      TilesKeep(recs0, chars[..], recs[..], chars[..], redo, redoPoint, redoCharPoint);
    }

    /** Store characters for the record in front of the redo stack, whatever its lengths are. */
    method StoreRedoChars(text: Text, where: int, n: nat, ghost below: seq<Entry>)
      requires Sides(below) && |below| < redoPoint && 0 < n && Kept(below) + n <= redoCharPoint
      modifies this`redoCharPoint, recs, chars
      ensures redoCharPoint == old(redoCharPoint) - n && Tiles(recs[..], chars[..], below, 0, 0)
      ensures Tiles(recs[..], chars[..], redo, redoPoint, redoCharPoint + n)
      ensures recs[..] == old(recs[..])[redoPoint - 1 := old(recs[redoPoint - 1]).(charStorage := redoCharPoint)]
      ensures chars[..] == Overlaid(old(chars[..]), redoCharPoint, Chars(text, where, n))
    {
      ghost var recs0, chars0 := recs[..], chars[..];
      redoCharPoint := redoCharPoint - n;
      recs[redoPoint - 1] := recs[redoPoint - 1].(charStorage := redoCharPoint);
      FillChars(chars, redoCharPoint, text, where, n);
      WriteBetween(recs0, chars0, recs[..], chars[..], below, redo, redoPoint, redoCharPoint + n,
                   redoPoint - 1, recs[redoPoint - 1], redoCharPoint, Chars(text, where, n));
    }

    /** The written record joins the redo stack. */
    ghost method AdoptRedo(r: Entry, below: seq<Entry>, recs0: seq<Record>, chars0: seq<int>)
      requires Sized() && redoPoint + 1 == lim.states - |redo| && |below| <= redoPoint
      requires redoCharPoint + |r.put| == lim.chars - Kept(redo) && Kept(below) <= redoCharPoint
      requires |recs0| == lim.states && |chars0| == lim.chars
      requires Tiles(recs0, chars0, below, 0, 0) && Tiles(recs0, chars0, redo, redoPoint + 1, redoCharPoint + |r.put|)
      requires recs[..] == recs0[redoPoint := RecordOf(r, redoCharPoint)]
      requires chars[..] == Overlaid(chars0, redoCharPoint, r.put)
      modifies this`redo
      ensures Sides(below) && redo == [r] + old(redo)
    {
      PushFirst(recs0, chars0, recs[..], chars[..], below, redo, redoPoint + 1, redoCharPoint + |r.put|, r);
      redo := [r] + redo;
    }

    /** A redo record without characters. */
    method PushBareRedo(where: int, ins: nat, ghost below: seq<Entry>)
      requires Sides(below) && |below| < redoPoint
      modifies this`redo, this`redoPoint, recs
      ensures Sides(below) && |below| <= redoPoint && redo == [Entry(where, [], ins)] + old(redo)
    {
      ghost var recs0 := recs[..];
      WriteRedo(where, 0, ins, below);
      redoPoint := redoPoint - 1;
      AdoptRedo(Entry(where, [], ins), below, recs0, chars[..]);
    }

    /** A redo record that keeps the characters about to be deleted, when nothing has to be dropped. */
    method PushFullRedo(text: Text, where: int, ins: nat, del: nat, ghost below: seq<Entry>)
      requires Sides(below) && |below| < redoPoint && 0 < del && Kept(below) + del <= redoCharPoint
      requires recs[redoPoint - 1] == Record(where, del, ins, -1)
      modifies this`redo, this`redoPoint, this`redoCharPoint, recs, chars
      ensures Sides(below) && |below| <= redoPoint && redo == [Entry(where, Chars(text, where, del), ins)] + old(redo)
      ensures redoCharPoint == old(redoCharPoint) - del && chars[..][..redoCharPoint] == old(chars[..])[..redoCharPoint]
    {
      ghost var recs0, chars0 := recs[..], chars[..];
      ghost var r := Entry(where, Chars(text, where, del), ins);
      StoreRedoChars(text, where, del, below);
      redoPoint := redoPoint - 1;
      assert recs[..] == recs0[redoPoint := RecordOf(r, redoCharPoint)];
      AdoptRedo(r, below, recs0, chars0);
    }

    /** The same store after redo entries were dropped: the lengths stay those of the stale record. */
    method PushStaleRedo(text: Text, where: int, del: nat, ghost below: seq<Entry>, ghost r0: Entry)
      requires Sides(below) && |below| < redoPoint && 0 < del && Kept(below) + del <= redoCharPoint
      requires Alike(recs[redoPoint - 1], RecordOf(r0, 0))
      modifies this`redoPoint, this`redoCharPoint, recs, chars
      ensures Stale(recs[..], chars[..], below, redo, redoPoint, redoCharPoint, r0, Chars(text, where, del))
      ensures redoCharPoint == old(redoCharPoint) - del && chars[..][..redoCharPoint] == old(chars[..])[..redoCharPoint]
    {
      StoreRedoChars(text, where, del, below);
      assert recs[redoPoint - 1] == Record(r0.where, |r0.put|, r0.del, redoCharPoint);
      redoPoint := redoPoint - 1;
    }

    /** What the undo of `e` leaves on the redo side, when `used` characters belonged to the undo stack
        and `redo0` was the redo stack. */
    ghost predicate Prepared(below: seq<Entry>, text: Text, e: Entry, used: int, redo0: seq<Entry>)
      reads this, recs, chars
    {
      if Crowded(used, e.del, lim.chars - Kept(redo0)) then
        && redo0 != [] && redo == Fitting(redo0, lim.chars - used - e.del)
        && Stale(recs[..], chars[..], below, redo, redoPoint, redoCharPoint, redo0[0], Chars(text, e.where, e.del))
      else
        Sides(below) && used <= redoCharPoint && redo == [RedoOf(text, e, used + e.del >= lim.chars)] + redo0
    }

    /** The redo half of stb_text_undo for a record that puts `ins` and deletes `del` characters,
        while `used` characters are taken by the undo stack. */
    method PrepareRedo(text: Text, where: int, ins: nat, del: nat, used: int, ghost below: seq<Entry>, ghost e: Entry)
      requires Sides(below) && |below| < redoPoint && Kept(below) <= used <= redoCharPoint
      requires e == Entry(where, e.put, del) && |e.put| == ins
      modifies this`redo, this`redoPoint, this`redoCharPoint, recs, chars
      ensures chars[..][..used] == old(chars[..])[..used] && Prepared(below, text, e, used, old(redo))
    {
      if del == 0 || used + del >= lim.chars {
        PushBareRedo(where, ins, below);
        assert RedoOf(text, e, used + del >= lim.chars) == Entry(where, [], ins);
      } else if used + del <= redoCharPoint {
        ghost var chars0 := chars[..];
        WriteRedo(where, del, ins, below);
        PushFullRedo(text, where, ins, del, below);
        PrefixOfPrefix(chars[..], chars0, used, redoCharPoint);
      } else {
        PushCrowdedRedo(text, where, ins, del, used, below);
      }
    }

    /** The case in which the loop that drops redo entries has work to do. */
    method PushCrowdedRedo(text: Text, where: int, ins: nat, del: nat, used: int, ghost below: seq<Entry>)
      requires Sides(below) && |below| < redoPoint && Kept(below) <= used <= redoCharPoint && Crowded(used, del, redoCharPoint)
      modifies this`redo, this`redoPoint, this`redoCharPoint, recs, chars
      ensures chars[..][..used] == old(chars[..])[..used] && old(redo) != []
      ensures Stale(recs[..], chars[..], below, redo, redoPoint, redoCharPoint, old(redo)[0], Chars(text, where, del))
      ensures redo == Fitting(old(redo), lim.chars - used - del)
    {
      ghost var chars0 := chars[..];
      WriteRedo(where, del, ins, below);
      FreeRedoChars(used + del, below);
      PrefixOfPrefix(chars[..], chars0, used, old(redoCharPoint));
      ghost var chars1 := chars[..];
      PushStaleRedo(text, where, del, below, old(redo)[0]);
      PrefixOfPrefix(chars[..], chars1, used, redoCharPoint);
    }

    /** Keeping the characters takes dropping redo entries first. */
    ghost predicate Crowded(used: int, del: int, rcp: int) {
      used + del < lim.chars && rcp < used + del
    }

    /** What the newest undo record says. */
    lemma {:induction false} TopOf(e: Entry, rest: seq<Entry>)
      requires Valid() && undo == rest + [e]
      ensures Sides(rest) && |rest| == undoPoint - 1 < redoPoint && Kept(rest) == undoCharPoint - |e.put|
      ensures recs[undoPoint - 1] == RecordOf(e, Kept(rest))
      ensures chars[..][Kept(rest)..undoCharPoint] == e.put
    {
      assert undo[..|undo| - 1] == rest && Last(undo) == e;
      TilesLast(recs[..], chars[..], undo, 0, 0);
      KeptLast(undo);
    }

    /** Take the newest record off the undo stack. */
    method LeaveUndo(ins: int, ghost rest: seq<Entry>)
      requires Sides(rest) && undoPoint == |rest| + 1 && undoCharPoint == Kept(rest) + ins
      modifies this`undo, this`undoPoint, this`undoCharPoint
      ensures Sides(rest) && undo == rest && undoPoint == |undo| && undoCharPoint == Kept(undo)
    {
      undoCharPoint := undoCharPoint - ins;
      undoPoint := undoPoint - 1;
      undo := rest;
    }

    /** The body of stb_text_undo for the newest entry; the pointers of the undo stack do not matter
        for the redo half and are moved first. */
    method UndoTop(text: Text, ghost e: Entry, ghost rest: seq<Entry>) returns (text': Text, cursor: int)
      requires Valid() && undo == rest + [e]
      modifies this, recs, chars
      ensures text' == Apply(text, e) && cursor == e.where + |e.put|
      ensures undo == rest && undoPoint == |undo| && undoCharPoint == Kept(undo)
      ensures Prepared(undo, text, e, old(undoCharPoint), old(redo))
    {
      TopOf(e, rest);
      var u, used := recs[undoPoint - 1], undoCharPoint;
      ghost var chars0 := chars[..];
      LeaveUndo(u.insertLength, rest);
      PrepareRedo(text, u.where, u.insertLength, u.deleteLength, used, rest, e);
      SliceOfPrefix(chars[..], chars0, used, Kept(rest), |e.put|);
      text' := Replace(text, u, chars, e, Kept(rest));
      cursor := u.where + u.insertLength;
    }

    /** What an undo that has to drop redo entries leaves, starting from `h`: as many of them as fit,
        and a record in front that is right exactly if the newest redo entry resembles its own. */
    ghost predicate Shortened(h: History)
      requires h.undo != [] && NeedsDiscard(h, Last(h.undo), lim)
      reads this, recs, chars
    {
      var u := Last(h.undo);
      && h.redo != []
      && Stale(recs[..], chars[..], undo, redo, redoPoint, redoCharPoint, h.redo[0], Chars(h.text, u.where, u.del))
      && redo == Fitting(h.redo, lim.chars - Kept(h.undo) - u.del)
      && (Tiles(recs[..], chars[..], [Counter(h.text, u)] + redo, redoPoint, redoCharPoint) <==> Resembles(h.redo[0], u))
    }

    /** stb_text_undo: the text, the cursor and the undo stack are always as the model says; the
        whole store is, unless redo entries had to be dropped. */
    method Undo(text: Text, cursor: int) returns (text': Text, cursor': int)
      requires Valid()
      modifies this, recs, chars
      ensures old(undo) == [] ==> Valid() && undo == [] && redo == old(redo) && text' == text && cursor' == cursor
      ensures old(undo) != [] ==>
                var h := History(text, old(undo), old(redo)); var u := Last(h.undo);
                && text' == Undone(h, lim).text && undo == Undone(h, lim).undo && cursor' == u.where + |u.put|
                && undoPoint == |undo| && undoCharPoint == Kept(undo)
                && (!NeedsDiscard(h, u, lim) ==> Valid() && redo == Undone(h, lim).redo)
                && (NeedsDiscard(h, u, lim) ==> Shortened(h))
    {
      text', cursor' := text, cursor;
      if undoPoint != 0 {
        ghost var h := History(text, undo, redo);
        ghost var u := Last(undo);
        assert undo == undo[..|undo| - 1] + [u];
        text', cursor' := UndoTop(text, u, undo[..|undo| - 1]);
        if NeedsDiscard(h, u, lim) {
          StaleExact(recs[..], chars[..], undo, redo, redoPoint, redoCharPoint, h.redo[0], text, u);
        }
      }
    }

    /** The state while a redo is under way: its record, in the slot before `later`, is being used up. */
    ghost predicate Between(later: seq<Entry>, b: int)
      reads this, recs, chars
    {
      && Sized() && redoPoint == lim.states - |later| - 1 && undoPoint == |undo| <= redoPoint + 1
      && undoCharPoint == Kept(undo) <= redoCharPoint <= b == lim.chars - Kept(later)
      && Tiles(recs[..], chars[..], undo, 0, 0) && Tiles(recs[..], chars[..], later, redoPoint + 1, b)
    }

    /** What the next redo record says. */
    lemma {:induction false} NextOf(r: Entry, later: seq<Entry>)
      requires Valid() && redo == [r] + later
      ensures Between(later, redoCharPoint + |r.put|) && |undo| <= redoPoint < lim.states
      ensures recs[redoPoint] == RecordOf(r, redoCharPoint)
      ensures chars[..][redoCharPoint..redoCharPoint + |r.put|] == r.put
    {
      TilesFirst(recs[..], chars[..], r, later, redoPoint, redoCharPoint);
    }

    /** The record written behind the undo stack joins it. */
    ghost method AdoptUndo(e: Entry, later: seq<Entry>, b: int, recs0: seq<Record>, chars0: seq<int>)
      requires Sized() && redoPoint == lim.states - |later| - 1 && |undo| <= redoPoint && undoPoint == |undo| + 1
      requires undoCharPoint == Kept(undo) + |e.put| <= redoCharPoint <= b == lim.chars - Kept(later)
      requires |recs0| == lim.states && |chars0| == lim.chars
      requires Tiles(recs0, chars0, undo, 0, 0) && Tiles(recs0, chars0, later, redoPoint + 1, b)
      requires recs[..] == recs0[|undo| := RecordOf(e, Kept(undo))] && chars[..] == Overlaid(chars0, Kept(undo), e.put)
      modifies this`undo
      ensures Between(later, b) && undo == old(undo) + [e]
    {
      ghost var undo' := undo + [e];
      PushBehind(recs0, chars0, recs[..], chars[..], undo, later, redoPoint + 1, b, e);
      assert Kept(undo') == undoCharPoint;
      assert Tiles(recs[..], chars[..], undo', 0, 0);
      undo := undo';
    }

    /** An undo record without characters. */
    method PushBareUndo(where: int, ins: nat, ghost later: seq<Entry>, ghost b: int)
      requires Between(later, b) && |undo| <= redoPoint
      modifies this`undo, this`undoPoint, recs
      ensures Between(later, b) && undo == old(undo) + [Entry(where, [], ins)]
    {
      ghost var recs0 := recs[..];
      recs[undoPoint] := Record(where, 0, ins, -1);
      undoPoint := undoPoint + 1;
      assert chars[..] == Overlaid(chars[..], undoCharPoint, []);
      AdoptUndo(Entry(where, [], ins), later, b, recs0, chars[..]);
    }

    /** An undo record that keeps the characters about to be deleted. */
    method PushFullUndo(text: Text, where: int, ins: nat, del: nat, ghost later: seq<Entry>, ghost b: int)
      requires Between(later, b) && |undo| <= redoPoint && 0 < del && undoCharPoint + del <= redoCharPoint
      modifies this`undo, this`undoPoint, this`undoCharPoint, recs, chars
      ensures Between(later, b) && undo == old(undo) + [Entry(where, Chars(text, where, del), ins)]
      ensures chars[..][redoCharPoint..] == old(chars[..])[redoCharPoint..]
    {
      ghost var recs0, chars0 := recs[..], chars[..];
      recs[undoPoint] := Record(where, del, ins, undoCharPoint);
      FillChars(chars, undoCharPoint, text, where, del);
      SuffixOfSuffix(chars[..], chars0, undoCharPoint + del, redoCharPoint);
      undoCharPoint := undoCharPoint + del;
      undoPoint := undoPoint + 1;
      AdoptUndo(Entry(where, Chars(text, where, del), ins), later, b, recs0, chars0);
    }

    /** The undo half of stb_text_redo: keep the `del` characters about to be deleted, if there is
        room for them below `redoCharPoint`. */
    method PrepareUndo(text: Text, where: int, ins: nat, del: nat, ghost later: seq<Entry>, ghost b: int, ghost r: Entry)
      requires Between(later, b) && |undo| <= redoPoint && r == Entry(where, r.put, del) && |r.put| == ins
      modifies this`undo, this`undoPoint, this`undoCharPoint, recs, chars
      ensures Between(later, b) && undo == old(undo) + [UndoOf(text, r, old(undoCharPoint) + del > redoCharPoint)]
      ensures chars[..][redoCharPoint..] == old(chars[..])[redoCharPoint..]
    {
      if del == 0 {
        PushBareUndo(where, ins, later, b);
        assert UndoOf(text, r, old(undoCharPoint) + del > redoCharPoint) == Entry(where, [], ins);
      } else if undoCharPoint + del > redoCharPoint {
        PushBareUndo(where, 0, later, b);
      } else {
        PushFullUndo(text, where, ins, del, later, b);
      }
    }

    /** Apply the redo record to the text; its characters are still where they were in `chars0`. */
    method Replayed(text: Text, rec: Record, ghost r: Entry, ghost chars0: seq<int>) returns (text': Text)
      requires 0 <= redoCharPoint && redoCharPoint + |r.put| <= |chars0| == chars.Length
      requires chars[..][redoCharPoint..] == chars0[redoCharPoint..]
      requires chars0[redoCharPoint..redoCharPoint + |r.put|] == r.put && rec == RecordOf(r, redoCharPoint)
      ensures text' == Apply(text, r)
    {
      SliceOfSuffix(chars[..], chars0, redoCharPoint, |r.put|);
      text' := Replace(text, rec, chars, r, redoCharPoint);
    }

    /** The redo record that was used leaves the redo stack. */
    method LeaveRedo(ins: int, ghost later: seq<Entry>)
      requires Between(later, redoCharPoint + ins) && 0 <= ins
      modifies this`redo, this`redoPoint, this`redoCharPoint
      ensures Valid() && redo == later
    {
      redoCharPoint := redoCharPoint + ins;
      redoPoint := redoPoint + 1;
      redo := later;
    }

    /** The body of stb_text_redo for the next entry, up to the point where its record leaves the stack. */
    method ReplayNext(text: Text, ghost r: Entry, ghost later: seq<Entry>) returns (text': Text, rec: Record)
      requires Valid() && redo == [r] + later
      modifies this`undo, this`undoPoint, this`undoCharPoint, recs, chars
      ensures Between(later, redoCharPoint + |r.put|) && text' == Apply(text, r)
      ensures rec.where == r.where && rec.insertLength == |r.put|
      ensures undo == old(undo) + [UndoOf(text, r, old(undoCharPoint) + r.del > redoCharPoint)]
    {
      NextOf(r, later);
      rec := recs[redoPoint];
      ghost var chars0 := chars[..];
      PrepareUndo(text, rec.where, rec.insertLength, rec.deleteLength, later, redoCharPoint + |r.put|, r);
      text' := Replayed(text, rec, r, chars0);
    }

    method RedoNext(text: Text, ghost r: Entry, ghost later: seq<Entry>) returns (text': Text, cursor: int)
      requires Valid() && redo == [r] + later
      modifies this, recs, chars
      ensures Valid() && text' == Apply(text, r) && cursor == r.where + |r.put| && redo == later
      ensures undo == old(undo) + [UndoOf(text, r, old(undoCharPoint) + r.del > old(redoCharPoint))]
    {
      var rec;
      text', rec := ReplayNext(text, r, later);
      cursor := rec.where + rec.insertLength;
      LeaveRedo(rec.insertLength, later);
    }

    /** stb_text_redo */
    method Redo(text: Text, cursor: int) returns (text': Text, cursor': int)
      requires Valid()
      modifies this, recs, chars
      ensures Valid() && History(text', undo, redo) == Redone(History(text, old(undo), old(redo)), lim)
      ensures cursor' == if old(redo) == [] then cursor else old(redo)[0].where + |old(redo)[0].put|
    {
      text', cursor' := text, cursor;
      if redoPoint != lim.states {
        assert redo == [redo[0]] + redo[1..];
        text', cursor' := RedoNext(text, redo[0], redo[1..]);
      }
    }
  }

  /** Apply a record to the text: delete, then insert the characters it holds. */
  method Replace(text: Text, u: Record, chars: array<int>, ghost e: Entry, ghost off: int) returns (text': Text)
    requires u == RecordOf(e, off) && 0 <= off && off + |e.put| <= chars.Length
    requires chars[..][off..off + |e.put|] == e.put
    ensures text' == Apply(text, e)
  {
    text' := text;
    NothingToDo(text, e.where);
    NothingToDo(Delete(text, e.where, e.del), e.where);
    if u.deleteLength != 0 {
      text' := Delete(text', u.where, u.deleteLength);
    }
    assert text' == Delete(text, e.where, e.del);
    if u.insertLength != 0 {
      text' := Insert(text', u.where, chars[..][u.charStorage..u.charStorage + u.insertLength]);
    }
  }

  lemma NothingToDo(t: Text, pos: int)
    ensures Delete(t, pos, 0) == t && Insert(t, pos, []) == t
  {
  }

  /** Copy `n` characters of the text, from `where` on, into the buffer at `off`. */
  method FillChars(chars: array<int>, off: int, text: Text, where: int, n: nat)
    requires 0 <= off && off + n <= chars.Length
    modifies chars
    ensures chars[..] == Overlaid(old(chars[..]), off, Chars(text, where, n))
  {
    for i := 0 to n
      invariant forall k :: off <= k < off + i ==> chars[k] == CharAt(text, where + (k - off))
      invariant forall k :: 0 <= k < chars.Length && !(off <= k < off + i) ==> chars[k] == old(chars[k])
    {
      chars[off + i] := CharAt(text, where + i);
    }
  }
}
