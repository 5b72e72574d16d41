/** The undo history of Thirdparty/imgui/imstb_textedit.h over values: two stacks of entries, one
    character budget shared between them, and what undo and redo do to the text. */
module UndoModel {

  type Text = seq<int>

  /** What applying a record does: drop `del` characters at `where`, then put `put` there. */
  datatype Entry = Entry(where: int, put: Text, del: nat)

  /** `undo` is oldest first; `redo[0]` is the next one to redo. */
  datatype History = History(text: Text, undo: seq<Entry>, redo: seq<Entry>)

  // ------------------------------------------------------------ the host's text operations

  function Clamp(i: int, n: nat): (r: nat)
    ensures r <= n
  {
    if i < 0 then 0 else if i > n then n else i
  }

  /** STB_TEXTEDIT_DELETECHARS */
  function Delete(t: Text, pos: int, n: nat): Text { t[..Clamp(pos, |t|)] + t[Clamp(pos + n, |t|)..] }

  /** STB_TEXTEDIT_INSERTCHARS, when the host accepts the characters */
  function Insert(t: Text, pos: int, s: Text): Text { t[..Clamp(pos, |t|)] + s + t[Clamp(pos, |t|)..] }

  /** STB_TEXTEDIT_GETCHAR */
  function CharAt(t: Text, i: int): int { if 0 <= i < |t| then t[i] else 0 }

  function Chars(t: Text, pos: int, n: nat): (s: Text)
    ensures |s| == n
  {
    seq(n, i => CharAt(t, pos + i))
  }

  // ------------------------------------------------------------ entries

  function Apply(t: Text, e: Entry): Text { Insert(Delete(t, e.where, e.del), e.where, e.put) }

  /** The entry that takes back what `e` does to `t`. */
  function Counter(t: Text, e: Entry): Entry { Entry(e.where, Chars(t, e.where, e.del), |e.put|) }

  predicate InRange(t: Text, e: Entry) { 0 <= e.where && e.where + e.del <= |t| }

  lemma ApplyInRange(t: Text, e: Entry)
    requires InRange(t, e)
    ensures Apply(t, e) == t[..e.where] + e.put + t[e.where + e.del..]
  {
    var d := Delete(t, e.where, e.del);
    assert d[..e.where] == t[..e.where] && d[e.where..] == t[e.where + e.del..];
  }

  lemma CharsInRange(t: Text, pos: int, n: nat)
    requires 0 <= pos && pos + n <= |t|
    ensures Chars(t, pos, n) == t[pos..pos + n]
  {
    var s := Chars(t, pos, n);
    assert forall i :: 0 <= i < n ==> s[i] == CharAt(t, pos + i);
  }

  /** Taking back is exact in both directions. */
  lemma CounterUndoes(t: Text, e: Entry)
    requires InRange(t, e)
    ensures InRange(Apply(t, e), Counter(t, e))
    ensures Apply(Apply(t, e), Counter(t, e)) == t
    ensures Counter(Apply(t, e), Counter(t, e)) == e
  {
    ApplyInRange(t, e);
    var u, c := Apply(t, e), Counter(t, e);
    ApplyInRange(u, c);
    CharsInRange(t, e.where, e.del);
    CharsInRange(u, e.where, |e.put|);
    assert u[e.where..e.where + |e.put|] == e.put;
    assert u[..e.where] == t[..e.where] && u[e.where + |e.put|..] == t[e.where + e.del..];
    assert t == t[..e.where] + t[e.where..e.where + e.del] + t[e.where + e.del..];
  }

  /** Characters that a stack of entries keeps. */
  function Kept(es: seq<Entry>): nat { if es == [] then 0 else |es[0].put| + Kept(es[1..]) }

  lemma {:induction false} KeptConcat(a: seq<Entry>, b: seq<Entry>)
    ensures Kept(a + b) == Kept(a) + Kept(b)
  {
    if a == [] {
      assert a + b == b;
    } else {
      KeptConcat(a[1..], b);
      assert (a + b)[1..] == a[1..] + b;
    }
  }

  lemma KeptLast(es: seq<Entry>)
    requires es != []
    ensures Kept(es) == Kept(es[..|es| - 1]) + |es[|es| - 1].put|
  {
    var l := es[|es| - 1];
    KeptConcat(es[..|es| - 1], [l]);
    assert es == es[..|es| - 1] + [l];
    assert Kept([l]) == |l.put| + Kept([]);
  }

  // ------------------------------------------------------------ the operations

  /** The macros IMSTB_TEXTEDIT_UNDOSTATECOUNT and IMSTB_TEXTEDIT_UNDOCHARCOUNT. */
  datatype Limits = Limits(states: nat, chars: nat)

  /** The make-room loop of stb_text_create_undo_record: the oldest entries go until `n`
      characters fit. */
  function Shed(es: seq<Entry>, n: nat, chars: nat): (r: seq<Entry>)
    requires n <= chars
    ensures Kept(r) + n <= chars && |r| <= |es|
  {
    if Kept(es) + n <= chars then es else Shed(es[1..], n, chars)
  }

  function RoomForOne(es: seq<Entry>, states: nat): seq<Entry> {
    if |es| == states && es != [] then es[1..] else es
  }

  /** The undo stack after an entry was recorded; one with too many characters clears it. */
  function Pushed(undo: seq<Entry>, e: Entry, lim: Limits): seq<Entry> {
    if |e.put| > lim.chars then [] else Shed(RoomForOne(undo, lim.states), |e.put|, lim.chars) + [e]
  }

  /** stb_text_createundo, once the characters are filled in: the redo stack is dropped. */
  function Recorded(h: History, e: Entry, lim: Limits): History {
    h.(undo := Pushed(h.undo, e, lim), redo := [])
  }

  /** An edit replaces `del` characters at `where` by `put` and records how to take that back. */
  function Edited(h: History, e: Entry, lim: Limits): History {
    Recorded(h, Counter(h.text, e), lim).(text := Apply(h.text, e))
  }

  /** Deleting what lies between two positions; nothing is recorded if they coincide. */
  function Cut(h: History, a: int, b: int, lim: Limits): History {
    if a == b then h else if a < b then Edited(h, Entry(a, [], b - a), lim) else Edited(h, Entry(b, [], a - b), lim)
  }

  /** Undoing `u` leaves no room for the characters it deletes, however many redo entries go. */
  predicate NoRoomToRedo(h: History, u: Entry, lim: Limits) {
    0 < u.del && Kept(h.undo) + u.del >= lim.chars
  }

  /** Undoing `u` has to drop old redo entries first. */
  predicate NeedsDiscard(h: History, u: Entry, lim: Limits) {
    0 < u.del && Kept(h.undo) + u.del < lim.chars && Kept(h.undo) + u.del + Kept(h.redo) > lim.chars
  }

  /** The redo entries that stay when only `room` characters are left for them: the oldest go first. */
  function Fitting(redo: seq<Entry>, room: nat): (r: seq<Entry>)
    ensures Kept(r) <= room && |r| <= |redo| && r == redo[..|r|]
    decreases |redo|
  {
    if Kept(redo) <= room then redo else Fitting(redo[..|redo| - 1], room)
  }

  /** No more go than have to. */
  lemma {:induction false} FittingMost(redo: seq<Entry>, room: nat)
    ensures var n := |Fitting(redo, room)|; n < |redo| ==> room < Kept(redo[..n + 1])
    decreases |redo|
  {
    if room < Kept(redo) {
      var init := redo[..|redo| - 1];
      FittingMost(init, room);
      var n := |Fitting(redo, room)|;
      if n < |init| {
        assert init[..n + 1] == redo[..n + 1];
      } else {
        assert redo[..n + 1] == redo;
      }
    }
  }

  /** Entry `r` has the place and the lengths of what takes back `u`. */
  predicate Resembles(r: Entry, u: Entry) { r.where == u.where && |r.put| == u.del && r.del == |u.put| }

  function Last(es: seq<Entry>): Entry
    requires es != []
  {
    es[|es| - 1]
  }

  /** stb_text_undo, when no redo entry has to be dropped. */
  function Undone(h: History, lim: Limits): History {
    if h.undo == [] then h
    else
      var u := Last(h.undo);
      var r := if NoRoomToRedo(h, u, lim) then Entry(u.where, [], |u.put|) else Counter(h.text, u);
      History(Apply(h.text, u), h.undo[..|h.undo| - 1], [r] + h.redo)
  }

  /** There is no room to keep the characters that redoing `r` deletes. */
  predicate NoRoomToUndo(h: History, r: Entry, lim: Limits) {
    0 < r.del && Kept(h.undo) + r.del + Kept(h.redo) > lim.chars
  }

  /** stb_text_redo */
  function Redone(h: History, lim: Limits): History {
    if h.redo == [] then h
    else
      var r := h.redo[0];
      var u := if NoRoomToUndo(h, r, lim) then Entry(r.where, [], 0) else Counter(h.text, r);
      History(Apply(h.text, r), h.undo + [u], h.redo[1..])
  }

  // ------------------------------------------------------------ the structure every run keeps

  /** The stacks fit: the records into the slots, the characters into the buffer. */
  predicate WithinLimits(h: History, lim: Limits) {
    |h.undo| + |h.redo| <= lim.states && Kept(h.undo) + Kept(h.redo) <= lim.chars
  }

  lemma RecordedWithin(h: History, e: Entry, lim: Limits)
    requires WithinLimits(h, lim) && 1 <= lim.states
    ensures WithinLimits(Recorded(h, e, lim), lim)
  {
    if |e.put| <= lim.chars {
      var kept := Shed(RoomForOne(h.undo, lim.states), |e.put|, lim.chars);
      KeptConcat(kept, [e]);
      assert Kept([e]) == |e.put| + Kept([]);
    }
  }

  lemma UndoneWithin(h: History, lim: Limits)
    requires WithinLimits(h, lim) && (h.undo != [] ==> !NeedsDiscard(h, Last(h.undo), lim))
    ensures WithinLimits(Undone(h, lim), lim)
  {
    if h.undo != [] {
      KeptLast(h.undo);
      var h' := Undone(h, lim);
      assert h'.redo[1..] == h.redo;
    }
  }

  lemma RedoneWithin(h: History, lim: Limits)
    requires WithinLimits(h, lim)
    ensures WithinLimits(Redone(h, lim), lim)
  {
    if h.redo != [] {
      var h' := Redone(h, lim);
      KeptLast(h'.undo);
      assert h'.undo[..|h'.undo| - 1] == h.undo;
    }
  }

  /** Some undo of the run has to drop a redo entry. */
  predicate Discards(h: History, ops: seq<Op>, lim: Limits)
    decreases |ops|
  {
    ops != [] &&
    ((ops[0].Undo? && h.undo != [] && NeedsDiscard(h, Last(h.undo), lim)) || Discards(Step(h, ops[0], lim), ops[1..], lim))
  }

  /** No run of edits, undos and redos outgrows the slots or the character buffer, whatever the
      edits are, as long as no redo entry is dropped. */
  lemma {:induction false} RunWithin(h: History, ops: seq<Op>, lim: Limits)
    requires WithinLimits(h, lim) && 1 <= lim.states && !Discards(h, ops, lim)
    ensures WithinLimits(Run(h, ops, lim), lim)
    decreases |ops|
  {
    if ops != [] {
      match ops[0] {
        case Edit(e) => RecordedWithin(h, Counter(h.text, e), lim);
        case Undo => UndoneWithin(h, lim);
        case Redo => RedoneWithin(h, lim);
      }
      RunWithin(Step(h, ops[0], lim), ops[1..], lim);
    }
  }

  // ------------------------------------------------------------ insert mode

  /** Insert mode records the replacement of one character by one, whatever is typed: undoing it
      restores the text exactly if one character was typed (or none went in at the very end). */
  lemma InsertModeExact(t: Text, pos: int, typed: Text)
    requires 0 <= pos < |t|
    ensures Apply(Insert(Delete(t, pos, 1), pos, typed), Entry(pos, [t[pos]], 1)) == t
            <==> |typed| == 1 || (|typed| == 0 && pos == |t| - 1)
  {
    var d := Delete(t, pos, 1);
    var t' := Insert(d, pos, typed);
    var back := Apply(t', Entry(pos, [t[pos]], 1));
    assert d == t[..pos] + t[pos + 1..];
    assert t' == t[..pos] + typed + t[pos + 1..];
    if |typed| == 1 {
      assert Delete(t', pos, 1) == d;
      assert back == t[..pos] + [t[pos]] + t[pos + 1..];
    } else if |typed| == 0 && pos == |t| - 1 {
      assert t' == t[..pos] && Delete(t', pos, 1) == t';
      assert back == t[..pos] + [t[pos]];
    } else {
      assert |back| != |t|;
    }
  }

  // ------------------------------------------------------------ the text over whole runs

  datatype Op = Edit(e: Entry) | Undo | Redo

  function Step(h: History, op: Op, lim: Limits): History {
    match op
    case Edit(e) => Edited(h, e, lim)
    case Undo => Undone(h, lim)
    case Redo => Redone(h, lim)
  }

  function Run(h: History, ops: seq<Op>, lim: Limits): History
    decreases |ops|
  {
    if ops == [] then h else Run(Step(h, ops[0], lim), ops[1..], lim)
  }

  /** The reference: all versions of the text in a row and a position among them. */
  datatype Versions = Versions(texts: seq<Text>, at: nat)

  function Move(v: Versions, op: Op): Versions
    requires v.at < |v.texts|
  {
    match op
    case Edit(e) => Versions(v.texts[..v.at + 1] + [Apply(v.texts[v.at], e)], v.at + 1)
    case Undo => if 0 < v.at then v.(at := v.at - 1) else v
    case Redo => if v.at + 1 < |v.texts| then v.(at := v.at + 1) else v
  }

  function MoveAll(v: Versions, ops: seq<Op>): (r: Versions)
    requires v.at < |v.texts|
    ensures r.at < |r.texts|
    decreases |ops|
  {
    if ops == [] then v else MoveAll(Move(v, ops[0]), ops[1..])
  }

  /** Every edit replaces characters that exist at that moment. */
  predicate Sound(v: Versions, ops: seq<Op>)
    requires v.at < |v.texts|
    decreases |ops|
  {
    ops == [] || ((ops[0].Edit? ==> InRange(v.texts[v.at], ops[0].e)) && Sound(Move(v, ops[0]), ops[1..]))
  }

  predicate Leads(t: Text, e: Entry, t': Text) { InRange(t, e) && Apply(t, e) == t' }

  /** The entries lead from each of the first versions back to the one before. */
  ghost predicate LeadsBack(texts: seq<Text>, undo: seq<Entry>) {
    |undo| < |texts| && forall i :: 0 <= i < |undo| ==> Leads(texts[i + 1], undo[i], texts[i])
  }

  /** The entries lead from version `at` on, one version each. */
  ghost predicate LeadsOn(texts: seq<Text>, at: nat, redo: seq<Entry>) {
    at + |redo| < |texts| && forall j :: at <= j < at + |redo| ==> Leads(texts[j], redo[j - at], texts[j + 1])
  }

  /** The history holds exactly the steps between neighbouring versions. */
  ghost predicate Mirrors(h: History, v: Versions) {
    && |h.undo| == v.at && v.at + |h.redo| + 1 == |v.texts| && h.text == v.texts[v.at]
    && LeadsBack(v.texts, h.undo) && LeadsOn(v.texts, v.at, h.redo)
  }

  lemma LeadsOnPrepend(texts: seq<Text>, at: nat, redo: seq<Entry>, r: Entry)
    requires 0 < at && LeadsOn(texts, at, redo) && Leads(texts[at - 1], r, texts[at])
    ensures LeadsOn(texts, at - 1, [r] + redo)
  {
  }

  lemma LeadsOnTail(texts: seq<Text>, at: nat, redo: seq<Entry>)
    requires LeadsOn(texts, at, redo) && redo != []
    ensures LeadsOn(texts, at + 1, redo[1..]) && Leads(texts[at], redo[0], texts[at + 1])
  {
    assert Leads(texts[at], redo[at - at], texts[at + 1]);
  }

  lemma LeadsBackAppend(texts: seq<Text>, undo: seq<Entry>, u: Entry)
    requires LeadsBack(texts, undo) && |undo| + 1 < |texts| && Leads(texts[|undo| + 1], u, texts[|undo|])
    ensures LeadsBack(texts, undo + [u])
  {
  }

  lemma LeadsBackInit(texts: seq<Text>, undo: seq<Entry>)
    requires LeadsBack(texts, undo) && undo != []
    ensures LeadsBack(texts, undo[..|undo| - 1]) && Leads(texts[|undo|], Last(undo), texts[|undo| - 1])
  {
    assert Leads(texts[|undo| - 1 + 1], undo[|undo| - 1], texts[|undo| - 1]);
  }

  lemma LeadsBackPrefix(texts: seq<Text>, undo: seq<Entry>, texts': seq<Text>)
    requires LeadsBack(texts, undo) && |undo| < |texts'| && texts'[..|undo| + 1] == texts[..|undo| + 1]
    ensures LeadsBack(texts', undo)
  {
    forall i | 0 <= i < |undo|
      ensures Leads(texts'[i + 1], undo[i], texts'[i])
    {
      assert texts'[i] == texts'[..|undo| + 1][i] && texts'[i + 1] == texts'[..|undo| + 1][i + 1];
      assert Leads(texts[i + 1], undo[i], texts[i]);
    }
  }

  /** Inserted plus deleted characters of a stack of entries. */
  function Weight(es: seq<Entry>): nat { if es == [] then 0 else |es[0].put| + es[0].del + Weight(es[1..]) }

  function Cost(ops: seq<Op>): nat {
    if ops == [] then 0 else (if ops[0].Edit? then |ops[0].e.put| + ops[0].e.del else 0) + Cost(ops[1..])
  }

  function Edits(ops: seq<Op>): nat { if ops == [] then 0 else (if ops[0].Edit? then 1 else 0) + Edits(ops[1..]) }

  lemma {:induction false} WeightConcat(a: seq<Entry>, b: seq<Entry>)
    ensures Weight(a + b) == Weight(a) + Weight(b)
  {
    if a == [] {
      assert a + b == b;
    } else {
      WeightConcat(a[1..], b);
      assert (a + b)[1..] == a[1..] + b;
    }
  }

  lemma WeightLast(es: seq<Entry>)
    requires es != []
    ensures Weight(es) == Weight(es[..|es| - 1]) + |Last(es).put| + Last(es).del
  {
    WeightConcat(es[..|es| - 1], [Last(es)]);
    assert es == es[..|es| - 1] + [Last(es)];
    assert Weight([Last(es)]) == |Last(es).put| + Last(es).del + Weight([]);
  }

  lemma {:induction false} KeptBelowWeight(es: seq<Entry>)
    ensures Kept(es) <= Weight(es)
  {
    if es != [] {
      KeptBelowWeight(es[1..]);
    }
  }

  /** The full row of versions after an edit, with all the old entries. */
  lemma EditLeads(h: History, v: Versions, e: Entry)
    requires Mirrors(h, v) && InRange(h.text, e)
    ensures var m := Move(v, Edit(e)); LeadsBack(m.texts, h.undo + [Counter(h.text, e)]) && |m.texts| == v.at + 2
  {
    CounterUndoes(h.text, e);
    var texts := Move(v, Edit(e)).texts;
    LeadsBackPrefix(v.texts, h.undo, texts);
    LeadsBackAppend(texts, h.undo, Counter(h.text, e));
  }

  lemma EditMirrors(h: History, v: Versions, e: Entry, lim: Limits)
    requires Mirrors(h, v) && InRange(h.text, e)
    requires |h.undo| < lim.states && Weight(h.undo) + |e.put| + e.del < lim.chars
    ensures Mirrors(Edited(h, e, lim), Move(v, Edit(e)))
    ensures Edited(h, e, lim) == History(Apply(h.text, e), h.undo + [Counter(h.text, e)], [])
  {
    KeptBelowWeight(h.undo);
    EditLeads(h, v, e);
  }

  /** Within the budget an undo keeps what it deletes. */
  lemma UndoHasRoom(h: History, lim: Limits)
    requires Weight(h.undo) + Weight(h.redo) < lim.chars && h.undo != []
    ensures !NoRoomToRedo(h, Last(h.undo), lim) && !NeedsDiscard(h, Last(h.undo), lim)
  {
    KeptBelowWeight(h.undo[..|h.undo| - 1]);
    KeptBelowWeight(h.redo);
    WeightLast(h.undo);
    KeptLast(h.undo);
  }

  lemma UndoMirrors(h: History, v: Versions, lim: Limits)
    requires Mirrors(h, v) && h.undo != [] && !NoRoomToRedo(h, Last(h.undo), lim)
    ensures Mirrors(Undone(h, lim), Move(v, Undo))
    ensures Undone(h, lim) == History(Apply(h.text, Last(h.undo)), h.undo[..|h.undo| - 1],
                                      [Counter(h.text, Last(h.undo))] + h.redo)
  {
    LeadsBackInit(v.texts, h.undo);
    CounterUndoes(h.text, Last(h.undo));
    LeadsOnPrepend(v.texts, v.at, h.redo, Counter(h.text, Last(h.undo)));
  }

  /** Within the budget a redo keeps what it deletes. */
  lemma RedoHasRoom(h: History, lim: Limits)
    requires Weight(h.undo) + Weight(h.redo) < lim.chars && h.redo != []
    ensures !NoRoomToUndo(h, h.redo[0], lim)
  {
    KeptBelowWeight(h.undo);
    KeptBelowWeight(h.redo[1..]);
  }

  lemma RedoMirrors(h: History, v: Versions, lim: Limits)
    requires Mirrors(h, v) && h.redo != [] && !NoRoomToUndo(h, h.redo[0], lim)
    ensures Mirrors(Redone(h, lim), Move(v, Redo))
    ensures Redone(h, lim) == History(Apply(h.text, h.redo[0]), h.undo + [Counter(h.text, h.redo[0])], h.redo[1..])
  {
    LeadsOnTail(v.texts, v.at, h.redo);
    CounterUndoes(h.text, h.redo[0]);
    LeadsBackAppend(v.texts, h.undo, Counter(h.text, h.redo[0]));
  }

  /** There is a slot for the edit, and the characters it puts and deletes, together with those of the
      entries that can be undone, are fewer than the buffer holds. */
  predicate Affordable(h: History, e: Entry, lim: Limits) {
    |h.undo| < lim.states && Weight(h.undo) + |e.put| + e.del < lim.chars
  }

  lemma StepMirrors(h: History, v: Versions, op: Op, lim: Limits)
    requires Mirrors(h, v) && (op.Edit? ==> InRange(h.text, op.e) && Affordable(h, op.e, lim))
    requires Weight(h.undo) + Weight(h.redo) < lim.chars
    ensures var h' := Step(h, op, lim);
            && Mirrors(h', Move(v, op))
            && Weight(h'.undo) + Weight(h'.redo) < lim.chars
            && |h'.undo| + |h'.redo| <= |h.undo| + |h.redo| + Edits([op])
            && Weight(h'.undo) + Weight(h'.redo) <= Weight(h.undo) + Weight(h.redo) + Cost([op])
  {
    assert Edits([op]) == (if op.Edit? then 1 else 0) + Edits([]);
    match op {
      case Edit(e) =>
        assert Cost([op]) == |e.put| + e.del + Cost([]);
        EditMirrors(h, v, e, lim);
        WeightLast(h.undo + [Counter(h.text, e)]);
        assert (h.undo + [Counter(h.text, e)])[..|h.undo|] == h.undo;
      case Undo =>
        if h.undo != [] {
          UndoHasRoom(h, lim);
          UndoMirrors(h, v, lim);
          WeightLast(h.undo);
          assert ([Counter(h.text, Last(h.undo))] + h.redo)[1..] == h.redo;
        }
      case Redo =>
        if h.redo != [] {
          RedoHasRoom(h, lim);
          RedoMirrors(h, v, lim);
          WeightLast(h.undo + [Counter(h.text, h.redo[0])]);
          assert (h.undo + [Counter(h.text, h.redo[0])])[..|h.undo|] == h.undo;
        }
    }
  }

  /** Every edit of the run, in the state it meets, is affordable. */
  predicate AllAffordable(h: History, ops: seq<Op>, lim: Limits)
    decreases |ops|
  {
    ops == [] || ((ops[0].Edit? ==> Affordable(h, ops[0].e, lim)) && AllAffordable(Step(h, ops[0], lim), ops[1..], lim))
  }

  lemma {:induction false} RunMirrors(h: History, v: Versions, ops: seq<Op>, lim: Limits)
    requires Mirrors(h, v) && Sound(v, ops) && AllAffordable(h, ops, lim)
    requires Weight(h.undo) + Weight(h.redo) < lim.chars
    ensures Mirrors(Run(h, ops, lim), MoveAll(v, ops))
    decreases |ops|
  {
    if ops != [] {
      StepMirrors(h, v, ops[0], lim);
      RunMirrors(Step(h, ops[0], lim), Move(v, ops[0]), ops[1..], lim);
    }
  }

  /** From a cleared history, any mix of edits, undos and redos leaves the text that the row of
      versions says: exactly the edits not currently undone.  What counts is what can be undone at each
      moment; edits that were undone and typed over cost nothing any more. */
  lemma RunShowsVersion(text: Text, ops: seq<Op>, lim: Limits)
    requires Sound(Versions([text], 0), ops) && 0 < lim.chars && AllAffordable(History(text, [], []), ops, lim)
    ensures var v := MoveAll(Versions([text], 0), ops);
            Run(History(text, [], []), ops, lim).text == v.texts[v.at]
  {
    RunMirrors(History(text, [], []), Versions([text], 0), ops, lim);
  }

  /** Edits that fit the two limits in all are affordable in any order and with any undos between them. */
  lemma {:induction false} TotalsAffordable(h: History, v: Versions, ops: seq<Op>, lim: Limits)
    requires Mirrors(h, v) && Sound(v, ops)
    requires |h.undo| + |h.redo| + Edits(ops) <= lim.states
    requires Weight(h.undo) + Weight(h.redo) + Cost(ops) < lim.chars
    ensures AllAffordable(h, ops, lim)
    decreases |ops|
  {
    if ops != [] {
      var op := ops[0];
      assert Edits([op]) == (if op.Edit? then 1 else 0) + Edits([]);
      assert Cost([op]) == (if op.Edit? then |op.e.put| + op.e.del else 0) + Cost([]);
      StepMirrors(h, v, op, lim);
      TotalsAffordable(Step(h, op, lim), Move(v, op), ops[1..], lim);
    }
  }

  // ------------------------------------------------------------ runs that forget old records

  /** The row without its oldest versions: `keep` of those before the current one stay. */
  function Trim(v: Versions, keep: nat): Versions
    requires keep <= v.at < |v.texts|
  {
    Versions(v.texts[v.at - keep..], keep)
  }

  lemma LeadsBackSuffix(texts: seq<Text>, es: seq<Entry>, d: nat)
    requires LeadsBack(texts, es) && d <= |es|
    ensures LeadsBack(texts[d..], es[d..])
  {
    forall i | 0 <= i < |es[d..]|
      ensures Leads(texts[d..][i + 1], es[d..][i], texts[d..][i])
    {
      assert Leads(texts[i + d + 1], es[i + d], texts[i + d]);
    }
  }

  lemma {:induction false} ShedSuffix(es: seq<Entry>, n: nat, chars: nat)
    requires n <= chars
    ensures Shed(es, n, chars) == es[|es| - |Shed(es, n, chars)|..]
    decreases |es|
  {
    if Kept(es) + n > chars {
      ShedSuffix(es[1..], n, chars);
      var k := |es| - |Shed(es, n, chars)|;
      assert es[1..][k - 1..] == es[k..];
    }
  }

  /** No more entries are forgotten than have to be. */
  lemma {:induction false} ShedLeast(es: seq<Entry>, n: nat, chars: nat)
    requires n <= chars
    ensures var k := |es| - |Shed(es, n, chars)|; 0 < k ==> chars < Kept(es[k - 1..]) + n
    decreases |es|
  {
    if Kept(es) + n > chars {
      ShedLeast(es[1..], n, chars);
      var k := |es| - |Shed(es, n, chars)|;
      if 1 < k {
        assert es[1..][k - 2..] == es[k - 1..];
      } else {
        assert es[0..] == es;
      }
    }
  }

  /** What is left of the undo stack and the new entry are the newest part of both. */
  lemma PushedSuffix(undo: seq<Entry>, c: Entry, lim: Limits)
    ensures var r := Pushed(undo, c, lim); |r| <= |undo| + 1 && r == (undo + [c])[|undo| + 1 - |r|..]
  {
    if |c.put| <= lim.chars {
      var room := RoomForOne(undo, lim.states);
      ShedSuffix(room, |c.put|, lim.chars);
      var left := Shed(room, |c.put|, lim.chars);
      assert left == undo[|undo| - |left|..];
    }
  }

  lemma {:induction false} KeptSuffix(es: seq<Entry>, j: nat, k: nat)
    requires j <= k <= |es|
    ensures Kept(es[k..]) <= Kept(es[j..])
    decreases k - j
  {
    if j < k {
      KeptSuffix(es, j + 1, k);
      assert es[j..][1..] == es[j + 1..];
    }
  }

  /** The entries fit the slots and the characters. */
  predicate FitIn(es: seq<Entry>, lim: Limits) { |es| <= lim.states && Kept(es) <= lim.chars }

  lemma {:induction false} TooManyKept(undo: seq<Entry>, c: Entry, lim: Limits, j: nat)
    requires |undo| <= lim.states && |c.put| <= lim.chars && 1 <= lim.states
    requires j < |undo| + 1 - |Pushed(undo, c, lim)|
    ensures !FitIn((undo + [c])[j..], lim)
  {
    var full, room := undo + [c], RoomForOne(undo, lim.states);
    var left := Shed(room, |c.put|, lim.chars);
    var d := |undo| - |room|;
    if d <= j {
      ShedLeast(room, |c.put|, lim.chars);
      KeptSuffix(room, j - d, |room| - |left| - 1);
      assert full[j..] == room[j - d..] + [c];
      KeptConcat(room[j - d..], [c]);
      assert Kept([c]) == |c.put| + Kept([]);
    }
  }

  /** What an edit leaves to undo, by the limits alone: of the entries so far and its own the newest,
      as many as fit; one more would be too many.  If its own does not fit, nothing is left. */
  lemma EditKeepsMost(h: History, e: Entry, lim: Limits)
    requires WithinLimits(h, lim) && 1 <= lim.states
    ensures var full := h.undo + [Counter(h.text, e)]; var r := Edited(h, e, lim).undo;
            && (e.del > lim.chars ==> r == [])
            && (e.del <= lim.chars ==>
                  && |r| <= |full| && r == full[|full| - |r|..] && FitIn(r, lim)
                  && forall j :: 0 <= j < |full| - |r| ==> !FitIn(full[j..], lim))
  {
    var c := Counter(h.text, e);
    if e.del <= lim.chars {
      PushedSuffix(h.undo, c, lim);
      RecordedWithin(h, c, lim);
      forall j | 0 <= j < |h.undo| + 1 - |Pushed(h.undo, c, lim)|
        ensures !FitIn((h.undo + [c])[j..], lim)
      {
        TooManyKept(h.undo, c, lim, j);
      }
    }
  }

  /** However little room there is, after an edit the history mirrors the newest part of the row. */
  lemma EditTrims(h: History, v: Versions, e: Entry, lim: Limits)
    requires Mirrors(h, v) && InRange(h.text, e)
    ensures var h' := Edited(h, e, lim); |h'.undo| <= v.at + 1 && Mirrors(h', Trim(Move(v, Edit(e)), |h'.undo|))
  {
    var h', m, c := Edited(h, e, lim), Move(v, Edit(e)), Counter(h.text, e);
    EditLeads(h, v, e);
    PushedSuffix(h.undo, c, lim);
    LeadsBackSuffix(m.texts, h.undo + [c], |h.undo| + 1 - |h'.undo|);
  }

  /** The characters that an undo or redo deletes can be kept. */
  predicate Roomy(h: History, op: Op, lim: Limits) {
    match op
    case Edit(_) => true
    case Undo => h.undo != [] ==> !NoRoomToRedo(h, Last(h.undo), lim) && !NeedsDiscard(h, Last(h.undo), lim)
    case Redo => h.redo != [] ==> !NoRoomToUndo(h, h.redo[0], lim)
  }

  /** The history mirrors the newest part of the row, as far back as it can undo. */
  ghost predicate MirrorsPart(h: History, v: Versions) {
    |h.undo| <= v.at < |v.texts| && Mirrors(h, Trim(v, |h.undo|))
  }

  /** An undo does not ask for what was forgotten. */
  predicate Recalled(h: History, v: Versions, op: Op) { op.Undo? ==> h.undo != [] || v.at == 0 }

  lemma {:induction false} SuffixReplaced(a: seq<Text>, k: nat, n: nat, m: nat, t: Text)
    requires n <= k < |a| && m <= n + 1
    ensures (a[k - n..][..n + 1] + [t])[n + 1 - m..] == (a[..k + 1] + [t])[k + 1 - m..]
  {
  }

  /** Trimming before an edit does not matter if it is trimmed more afterwards. */
  lemma TrimEdited(v: Versions, n: nat, e: Entry, m: nat)
    requires n <= v.at < |v.texts| && m <= n + 1
    ensures Trim(Move(Trim(v, n), Edit(e)), m) == Trim(Move(v, Edit(e)), m)
  {
    SuffixReplaced(v.texts, v.at, n, m, Apply(v.texts[v.at], e));
  }

  lemma StepMirrorsPart(h: History, v: Versions, op: Op, lim: Limits)
    requires MirrorsPart(h, v) && (op.Edit? ==> InRange(h.text, op.e))
    requires Roomy(h, op, lim) && Recalled(h, v, op)
    ensures MirrorsPart(Step(h, op, lim), Move(v, op))
  {
    var n := |h.undo|;
    match op {
      case Edit(e) =>
        EditTrims(h, Trim(v, n), e, lim);
        TrimEdited(v, n, e, |Edited(h, e, lim).undo|);
      case Undo =>
        if h.undo != [] {
          UndoMirrors(h, Trim(v, n), lim);
          assert Move(Trim(v, n), op) == Trim(Move(v, op), n - 1);
        }
      case Redo =>
        if h.redo != [] {
          RedoMirrors(h, Trim(v, n), lim);
          assert Move(Trim(v, n), op) == Trim(Move(v, op), n + 1);
        }
    }
  }

  /** Every operation of the run keeps what it deletes and asks for nothing that was forgotten. */
  predicate AllRecalled(h: History, v: Versions, ops: seq<Op>, lim: Limits)
    requires v.at < |v.texts|
    decreases |ops|
  {
    ops == [] || (Roomy(h, ops[0], lim) && Recalled(h, v, ops[0]) && AllRecalled(Step(h, ops[0], lim), Move(v, ops[0]), ops[1..], lim))
  }

  lemma {:induction false} RunMirrorsPart(h: History, v: Versions, ops: seq<Op>, lim: Limits)
    requires MirrorsPart(h, v) && Sound(v, ops) && AllRecalled(h, v, ops, lim)
    ensures MirrorsPart(Run(h, ops, lim), MoveAll(v, ops))
    decreases |ops|
  {
    if ops != [] {
      StepMirrorsPart(h, v, ops[0], lim);
      RunMirrorsPart(Step(h, ops[0], lim), Move(v, ops[0]), ops[1..], lim);
    }
  }

  /** However many edits there are and however many old records they push out: as long as no undo asks
      for a record that was pushed out, and what undos and redos delete can be kept, the text is that of
      the edits not currently undone. */
  lemma LongRunShowsVersion(text: Text, ops: seq<Op>, lim: Limits)
    requires Sound(Versions([text], 0), ops) && AllRecalled(History(text, [], []), Versions([text], 0), ops, lim)
    ensures var v := MoveAll(Versions([text], 0), ops);
            Run(History(text, [], []), ops, lim).text == v.texts[v.at]
  {
    var h, v := History(text, [], []), Versions([text], 0);
    assert Trim(v, 0) == v;
    RunMirrorsPart(h, v, ops, lim);
  }

  // ------------------------------------------------------------ beyond the budget

  /** An undo keeps what it deletes, for the redo, exactly if that leaves a character of the buffer free.
      If not, redoing will at least take away again what the undo put. */
  lemma UndoKeepsExactly(h: History, lim: Limits)
    requires h.undo != [] && InRange(h.text, Last(h.undo))
    ensures var u := Last(h.undo); var h' := Undone(h, lim);
            && h'.redo != [] && h'.redo[1..] == h.redo
            && (h'.redo[0] == Counter(h.text, u) <==> u.del == 0 || Kept(h.undo) + u.del < lim.chars)
            && (h'.redo[0] != Counter(h.text, u) ==> Apply(h'.text, h'.redo[0]) == Delete(h.text, u.where, u.del))
  {
    var u := Last(h.undo);
    var t, r := Apply(h.text, u), Entry(u.where, [], |u.put|);
    ApplyInRange(h.text, u);
    ApplyInRange(t, r);
    assert t[..u.where] == h.text[..u.where] && t[u.where + |u.put|..] == h.text[u.where + u.del..];
    assert Delete(h.text, u.where, u.del) == h.text[..u.where] + h.text[u.where + u.del..];
  }

  /** A redo keeps what it deletes, for the undo, exactly if there is room between the stacks.  If not,
      undoing it will do nothing at all. */
  lemma RedoKeepsExactly(h: History, lim: Limits)
    requires h.redo != []
    ensures var r := h.redo[0]; var h' := Redone(h, lim);
            && h'.undo != [] && h'.undo[..|h'.undo| - 1] == h.undo && h'.redo == h.redo[1..]
            && (Last(h'.undo) == Counter(h.text, r) <==> r.del == 0 || Kept(h.undo) + r.del + Kept(h.redo) <= lim.chars)
            && (Last(h'.undo) != Counter(h.text, r) ==> Apply(h'.text, Last(h'.undo)) == h'.text)
  {
    var t := Apply(h.text, h.redo[0]);
    assert Apply(t, Entry(h.redo[0].where, [], 0)) == t;
  }

  /** After three steps of a small history, undoing has to drop the only redo entry, and that entry
      keeps another number of characters than the one being undone. */
  lemma DiscardReachable()
    ensures var lim := Limits(99, 10);
            var h := Run(History([], [], []), [Edit(Entry(0, [1, 1, 1, 1, 1, 1, 1, 1], 0)), Edit(Entry(0, [2, 2, 2], 0)), Undo], lim);
            h.undo != [] && h.redo != [] && NeedsDiscard(h, Last(h.undo), lim) && |h.redo[0].put| != Last(h.undo).del
  {
    var lim := Limits(99, 10);
    var e, f := Entry(0, [1, 1, 1, 1, 1, 1, 1, 1], 0), Entry(0, [2, 2, 2], 0);
    var h0 := History([], [], []);
    var h1 := Edited(h0, e, lim);
    var h2 := Edited(h1, f, lim);
    var h3 := Undone(h2, lim);
    assert h1.undo == [Counter([], e)];
    assert h2.undo == [Counter([], e), Counter(h1.text, f)];
    assert Kept(h2.undo) == 0 + Kept(h2.undo[1..]) && h2.undo[1..] == [Counter(h1.text, f)] && Kept(h2.undo[1..]) == 0 + Kept([]);
    assert h3.undo == [Counter([], e)] && h3.redo == [Counter(h2.text, Counter(h1.text, f))] + [];
    assert Kept(h3.undo) == 0 + Kept([]) && Kept(h3.redo) == 3 + Kept([]);
    var ops := [Edit(e), Edit(f), Undo];
    assert ops[1..] == [Edit(f), Undo] && ops[1..][1..] == [Undo] && ops[1..][1..][1..] == [];
  }
}
