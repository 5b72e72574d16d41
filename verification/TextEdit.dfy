/** The editing operations of Thirdparty/imgui/imstb_textedit.h that change the text, on top of the
    undo store: each is a sequence of edits of the history model. */
module TextEdit {
  import opened UndoModel
  import opened UndoStore

  const NEWLINE := 10

  lemma OneChar(t: Text, pos: int)
    requires 0 <= pos < |t|
    ensures Chars(t, pos, 1) == [t[pos]]
  {
    CharsInRange(t, pos, 1);
  }

  class Editor {
    var text: Text
    var cursor: int
    var selectStart: int
    var selectEnd: int
    var insertMode: bool
    var singleLine: bool
    const store: UndoState

    constructor (text: Text, lim: Limits, singleLine: bool)
      requires 1 <= lim.states && 1 <= lim.chars
      ensures Valid() && this.text == text && cursor == selectStart == selectEnd == 0 && !insertMode && fresh(store) && fresh(store.recs) && fresh(store.chars)
      ensures Now() == History(text, [], []) && store.lim == lim
    {
      this.text, this.singleLine := text, singleLine;
      cursor, selectStart, selectEnd, insertMode := 0, 0, 0, false;
      store := new UndoState(lim);
    }

    ghost predicate Valid()
      reads this, store, store.recs, store.chars
    {
      store.Valid()
    }

    /** Cursor and selection are positions; they may lie behind the end of the text. */
    ghost predicate Placed()
      reads this
    {
      0 <= cursor && 0 <= selectStart && 0 <= selectEnd
    }

    ghost function Now(): History
      reads this, store
    {
      History(text, store.undo, store.redo)
    }

    predicate HasSelection()
      reads this
    {
      selectStart != selectEnd
    }

    /** stb_textedit_clamp */
    method ClampState()
      requires Placed()
      modifies this`cursor, this`selectStart, this`selectEnd
      ensures Placed() && cursor <= |text| && (HasSelection() ==> selectStart <= |text| && selectEnd <= |text|)
      ensures selectStart == (if old(HasSelection()) then Clamp(old(selectStart), |text|) else old(selectStart))
      ensures selectEnd == (if old(HasSelection()) then Clamp(old(selectEnd), |text|) else old(selectEnd))
      ensures cursor == Clamp(if old(HasSelection()) && !HasSelection() then selectStart else old(cursor), |text|)
    {
      var n := |text|;
      if HasSelection() {
        if selectStart > n {
          selectStart := n;
        }
        if selectEnd > n {
          selectEnd := n;
        }
        if selectStart == selectEnd {
          cursor := selectStart;
        }
      }
      if cursor > n {
        cursor := n;
      }
    }

    /** stb_textedit_delete */
    method DeleteRange(where: int, len: nat)
      requires Valid() && 0 <= where && where + len <= |text|
      modifies this`text, store, store.recs, store.chars
      ensures Valid() && Now() == Edited(old(Now()), Entry(where, [], len), store.lim)
      ensures text == old(text)[..where] + old(text)[where + len..]
    {
      store.MakeUndo(text, where, len, 0);
      assert Insert(Delete(text, where, len), where, []) == Delete(text, where, len);
      text := Delete(text, where, len);
    }

    /** Delete what lies between two positions. */
    method CutBetween(a: int, b: int)
      requires Valid() && 0 <= a <= |text| && 0 <= b <= |text|
      modifies this`text, store, store.recs, store.chars
      ensures Valid() && Now() == Cut(old(Now()), a, b, store.lim)
      ensures text == if a < b then old(text)[..a] + old(text)[b..] else old(text)[..b] + old(text)[a..]
    {
      if a < b {
        DeleteRange(a, b - a);
      } else if b < a {
        DeleteRange(b, a - b);
      } else {
        assert text == text[..a] + text[a..];
      }
    }

    /** Where typing goes: the start of the selection, or the cursor. */
    function TypingAt(): int
      reads this
    {
      if !HasSelection() then Clamp(cursor, |text|)
      else if selectStart < selectEnd then Clamp(selectStart, |text|) else Clamp(selectEnd, |text|)
    }

    /** stb_textedit_delete_selection: one edit if there is a selection, none otherwise. */
    method DeleteSelection()
      requires Valid() && Placed()
      modifies this`text, this`cursor, this`selectStart, this`selectEnd, store, store.recs, store.chars
      ensures Valid() && Placed() && cursor <= |text| && cursor == old(TypingAt())
      ensures !old(HasSelection()) ==> cursor == Clamp(old(cursor), |old(text)|) && text == old(text)
      ensures old(HasSelection()) ==>
                var a, b := Clamp(old(selectStart), |old(text)|), Clamp(old(selectEnd), |old(text)|);
                && cursor == (if a < b then a else b)
                && text == if a < b then old(text)[..a] + old(text)[b..] else old(text)[..b] + old(text)[a..]
      ensures selectStart == selectEnd == if old(HasSelection()) then old(TypingAt()) else old(selectStart)
      ensures Now() == Cut(old(Now()), Clamp(old(selectStart), |old(text)|), Clamp(old(selectEnd), |old(text)|), store.lim)
    {
      ClampState();
      if HasSelection() {
        var first := if selectStart < selectEnd then selectStart else selectEnd;
        CutBetween(selectStart, selectEnd);
        selectStart, selectEnd, cursor := first, first, first;
      } else {
        assert forall k :: 0 <= k <= |text| ==> text == text[..k] + text[k..];
      }
    }

    /** The insertion that typing and pasting share; `accepted` is the answer of the host. */
    method InsertAtCursor(typed: Text, accepted: bool)
      requires Valid() && 0 <= cursor <= |text|
      modifies this`text, this`cursor, store, store.recs, store.chars
      ensures Valid()
      ensures Now() == if accepted then Edited(old(Now()), Entry(old(cursor), typed, 0), store.lim) else old(Now())
      ensures cursor == if accepted then old(cursor) + |typed| else old(cursor)
    {
      if accepted {
        assert Delete(text, cursor, 0) == text;
        text := Insert(text, cursor, typed);
        store.MakeUndo(text, cursor, 0, |typed|);
        cursor := cursor + |typed|;
      }
    }

    /** stb_textedit_text in insert mode: one character gives way to everything typed. */
    method TypeOver(typed: Text, accepted: bool)
      requires Valid() && 0 <= cursor < |text|
      modifies this`text, this`cursor, store, store.recs, store.chars
      ensures Valid()
      ensures Now() == Recorded(old(Now()), Entry(old(cursor), [old(text[cursor])], 1), store.lim)
                       .(text := Insert(Delete(old(text), old(cursor), 1), old(cursor), if accepted then typed else []))
      ensures cursor == if accepted then old(cursor) + |typed| else old(cursor)
    {
      OneChar(text, cursor);
      NothingToDo(Delete(text, cursor, 1), cursor);
      store.MakeUndo(text, cursor, 1, 1);
      text := Delete(text, cursor, 1);
      if accepted {
        text := Insert(text, cursor, typed);
        cursor := cursor + |typed|;
      }
    }

    /** Typing is refused: a newline in a single-line field. */
    predicate Refused(typed: Text)
      reads this
    {
      typed != [] && typed[0] == NEWLINE && singleLine
    }

    /** Typing replaces the character at the cursor. */
    predicate Overwrites()
      reads this
    {
      insertMode && !HasSelection() && cursor < |text|
    }

    /** stb_textedit_text: outside insert mode, the selection is cut and the text put in its place. */
    method Type(typed: Text, accepted: bool)
      requires Valid() && Placed() && typed != []
      modifies this`text, this`cursor, this`selectStart, this`selectEnd, store, store.recs, store.chars
      ensures Valid()
      ensures old(Refused(typed)) || old(Overwrites()) ==> selectStart == old(selectStart) && selectEnd == old(selectEnd)
      ensures old(Refused(typed)) ==> Now() == old(Now()) && cursor == old(cursor)
      ensures !old(Refused(typed)) && old(Overwrites()) ==>
                Now() == Recorded(old(Now()), Entry(old(cursor), [old(text[cursor])], 1), store.lim)
                         .(text := Insert(Delete(old(text), old(cursor), 1), old(cursor), if accepted then typed else []))
                && cursor == old(cursor) + if accepted then |typed| else 0
      ensures !old(Refused(typed)) && !old(Overwrites()) ==>
                var h := Cut(old(Now()), Clamp(old(selectStart), |old(text)|), Clamp(old(selectEnd), |old(text)|), store.lim);
                && Now() == (if accepted then Edited(h, Entry(old(TypingAt()), typed, 0), store.lim) else h)
                && cursor == old(TypingAt()) + (if accepted then |typed| else 0)
                && selectStart == selectEnd == if old(HasSelection()) then old(TypingAt()) else old(selectStart)
    {
      if typed[0] == NEWLINE && singleLine {
        return;
      }
      if insertMode && !HasSelection() && cursor < |text| {
        TypeOver(typed, accepted);
      } else {
        DeleteSelection();
        InsertAtCursor(typed, accepted);
      }
    }

    /** stb_text_undo on the editor. */
    method Undo()
      requires Valid()
      modifies this`text, this`cursor, store, store.recs, store.chars
      ensures old(store.undo) == [] ==> Valid() && Now() == old(Now()) && cursor == old(cursor)
      ensures old(store.undo) != [] ==>
                var h := old(Now()); var u := Last(h.undo);
                && text == Undone(h, store.lim).text && store.undo == Undone(h, store.lim).undo && cursor == u.where + |u.put|
                && (!NeedsDiscard(h, u, store.lim) ==> Valid() && Now() == Undone(h, store.lim))
                && (NeedsDiscard(h, u, store.lim) ==> store.Shortened(h))
    {
      text, cursor := store.Undo(text, cursor);
    }

    /** stb_text_redo on the editor. */
    method Redo()
      requires Valid()
      modifies this`text, this`cursor, store, store.recs, store.chars
      ensures Valid() && Now() == Redone(old(Now()), store.lim)
      ensures cursor == if old(store.redo) == [] then old(cursor) else old(store.redo)[0].where + |old(store.redo)[0].put|
    {
      text, cursor := store.Redo(text, cursor);
    }
  }
}
