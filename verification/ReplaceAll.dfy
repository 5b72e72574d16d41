/** WStringFormat::ReplaceAll of Source/Util/Format.hpp: replacing in place, left to right. */
module ReplaceAll {

  /** The needle stands at position `i`. */
  predicate OccursAt(s: string, needle: string, i: int) {
    0 <= i && i + |needle| <= |s| && s[i..i + |needle|] == needle
  }

  // ------------------------------------------------------------ what replacing means

  /** Cut `s` at the leftmost non-overlapping occurrences of the needle. */
  function Pieces(s: string, needle: string): (ps: seq<string>)
    requires needle != ""
    ensures ps != []
    decreases |s|
  {
    if |s| < |needle| then [s]
    else if s[..|needle|] == needle then [""] + Pieces(s[|needle|..], needle)
    else var ps := Pieces(s[1..], needle); [[s[0]] + ps[0]] + ps[1..]
  }

  function Join(ps: seq<string>, glue: string): string
    requires ps != []
  {
    if |ps| == 1 then ps[0] else ps[0] + glue + Join(ps[1..], glue)
  }

  /** All leftmost non-overlapping occurrences of the needle give way to the replacement. */
  function Replaced(s: string, needle: string, repl: string): string
    requires needle != ""
  {
    Join(Pieces(s, needle), repl)
  }

  lemma JoinFirst(p: string, ps: seq<string>, glue: string)
    requires ps != []
    ensures Join([p + ps[0]] + ps[1..], glue) == p + Join(ps, glue)
  {
    var qs := [p + ps[0]] + ps[1..];
    if |ps| > 1 {
      assert qs[1..] == ps[1..];
      assert p + ps[0] + glue + Join(ps[1..], glue) == p + (ps[0] + glue + Join(ps[1..], glue));
    }
  }

  lemma ReplacedHere(s: string, needle: string, repl: string)
    requires needle != "" && OccursAt(s, needle, 0)
    ensures Replaced(s, needle, repl) == repl + Replaced(s[|needle|..], needle, repl)
  {
    var ps := Pieces(s[|needle|..], needle);
    assert ([""] + ps)[1..] == ps;
    assert "" + repl + Join(ps, repl) == repl + Join(ps, repl);
  }

  lemma ReplacedLater(s: string, needle: string, repl: string)
    requires needle != "" && s != "" && !OccursAt(s, needle, 0)
    ensures Replaced(s, needle, repl) == [s[0]] + Replaced(s[1..], needle, repl)
  {
    if |s| < |needle| {
      assert s == [s[0]] + s[1..];
    } else {
      JoinFirst([s[0]], Pieces(s[1..], needle), repl);
    }
  }

  /** The pieces, joined by the needle again, are the string: nothing but needles is cut out. */
  lemma {:induction false} PiecesJoin(s: string, needle: string)
    requires needle != ""
    ensures Join(Pieces(s, needle), needle) == s
    decreases |s|
  {
    if OccursAt(s, needle, 0) {
      PiecesJoin(s[|needle|..], needle);
      ReplacedHere(s, needle, needle);
      assert s == needle + s[|needle|..];
    } else if s != "" {
      PiecesJoin(s[1..], needle);
      ReplacedLater(s, needle, needle);
      assert s == [s[0]] + s[1..];
    }
  }

  lemma OccursInTail(c: char, p: string, needle: string, j: int)
    requires 0 < j
    ensures OccursAt([c] + p, needle, j) <==> OccursAt(p, needle, j - 1)
  {
    if j + |needle| <= |p| + 1 {
      assert ([c] + p)[j..j + |needle|] == p[j - 1..j - 1 + |needle|];
    }
  }

  lemma OccursInPrefix(q: string, s: string, needle: string)
    requires q <= s
    ensures OccursAt(q, needle, 0) ==> OccursAt(s, needle, 0)
  {
    if |needle| <= |q| {
      assert q[0..|needle|] == s[0..|needle|];
    }
  }

  /** The first piece, with the needle behind it if it is not the last, starts the string. */
  lemma FirstPieceStarts(s: string, needle: string, ps: seq<string>)
    requires needle != "" && ps == Pieces(s, needle)
    ensures (if |ps| == 1 then ps[0] else ps[0] + needle) <= s
  {
    PiecesJoin(s, needle);
  }

  /** In front of `p` a character `c` gives the needle no new place but the very first. */
  lemma NoEarlier(s: string, p: string, needle: string, j: int)
    requires s != "" && p <= s[1..] && !OccursAt(s, needle, 0)
    ensures OccursAt([s[0]] + p, needle, j) ==> OccursAt(p, needle, j - 1)
  {
    assert [s[0]] + p <= s;
    OccursInPrefix([s[0]] + p, s, needle);
    if 0 < j {
      OccursInTail(s[0], p, needle, j);
    }
  }

  /** The needle does not occur in the last piece, and in one followed by the needle not earlier. */
  predicate CutLeftmost(p: string, needle: string, isLast: bool, j: int) {
    if isLast then !OccursAt(p, needle, j) else OccursAt(p + needle, needle, j) ==> j >= |p|
  }

  lemma CutLeftmostGrows(s: string, p: string, needle: string, isLast: bool, j: int)
    requires s != "" && !OccursAt(s, needle, 0) && (if isLast then p else p + needle) <= s[1..]
    requires CutLeftmost(p, needle, isLast, j - 1)
    ensures CutLeftmost([s[0]] + p, needle, isLast, j)
  {
    NoEarlier(s, if isLast then p else p + needle, needle, j);
    assert [s[0]] + (p + needle) == [s[0]] + p + needle;
  }

  /** The cuts are leftmost. */
  lemma {:induction false} PiecesLeftmost(s: string, needle: string, i: nat, j: int)
    requires needle != "" && i < |Pieces(s, needle)|
    ensures CutLeftmost(Pieces(s, needle)[i], needle, i + 1 == |Pieces(s, needle)|, j)
    decreases |s|
  {
    if |s| >= |needle| {
      if s[..|needle|] == needle {
        if 0 < i {
          PiecesLeftmost(s[|needle|..], needle, i - 1, j);
        }
      } else {
        var ps := Pieces(s[1..], needle);
        if 0 < i {
          PiecesLeftmost(s[1..], needle, i, j);
        } else {
          PiecesLeftmost(s[1..], needle, 0, j - 1);
          FirstPieceStarts(s[1..], needle, ps);
          CutLeftmostGrows(s, ps[0], needle, |ps| == 1, j);
        }
      }
    }
  }

  // ------------------------------------------------------------ one replacement at a time

  /** Without an occurrence nothing changes. */
  lemma {:induction false} ReplacedNone(s: string, needle: string, repl: string)
    requires needle != "" && forall i :: !OccursAt(s, needle, i)
    ensures Replaced(s, needle, repl) == s
    decreases |s|
  {
    if s != "" {
      BehindNone(s, needle, 1);
      ReplacedNone(s[1..], needle, repl);
      ReplacedLater(s, needle, repl);
      assert s == [s[0]] + s[1..];
    }
  }

  /** The first occurrence at `k` is replaced, and the search goes on behind it. */
  lemma {:induction false} ReplacedFirst(s: string, needle: string, repl: string, k: nat)
    requires needle != "" && OccursAt(s, needle, k) && forall i :: 0 <= i < k ==> !OccursAt(s, needle, i)
    ensures Replaced(s, needle, repl) == s[..k] + repl + Replaced(s[k + |needle|..], needle, repl)
    decreases |s|
  {
    if k == 0 {
      ReplacedHere(s, needle, repl);
      assert s[..0] + repl == repl;
    } else {
      var later := Replaced(s[k + |needle|..], needle, repl);
      FirstMoved(s, k, |needle|, repl, later);
      assert Replaced(s[1..], needle, repl) == s[1..][..k - 1] + repl + later by {
        BehindFirst(s, needle, 1, k);
        ReplacedFirst(s[1..], needle, repl, k - 1);
      }
      ReplacedLater(s, needle, repl);
    }
  }

  lemma FirstMoved(s: string, k: nat, len: nat, repl: string, later: string)
    requires 0 < k && k + len <= |s|
    ensures s[1..][k - 1 + len..] == s[k + len..]
    ensures [s[0]] + (s[1..][..k - 1] + repl + later) == s[..k] + repl + later
  {
    assert [s[0]] + s[1..][..k - 1] == s[..k];
  }

  // ------------------------------------------------------------ the loop

  /** std::string::find: the first occurrence at or behind `from`, or -1. */
  method Find(s: string, needle: string, from: nat) returns (pos: int)
    requires from <= |s|
    ensures pos == -1 ==> forall i :: from <= i ==> !OccursAt(s, needle, i)
    ensures pos != -1 ==> from <= pos && OccursAt(s, needle, pos) && forall i :: from <= i < pos ==> !OccursAt(s, needle, i)
  {
    pos := from;
    while pos + |needle| <= |s|
      invariant from <= pos && forall i :: from <= i < pos ==> !OccursAt(s, needle, i)
      decreases |s| - pos
    {
      if s[pos..pos + |needle|] == needle {
        return;
      }
      pos := pos + 1;
    }
    pos := -1;
  }

  /** The haystack is rewritten in place; the part before `pos` is final.  The loop ends even if the
      replacement contains the needle, because the part behind `pos` only shrinks. */
  method ReplaceAll(haystack: string, needle: string, replacement: string) returns (result: string)
    requires needle != ""
    ensures result == Replaced(haystack, needle, replacement)
  {
    result := haystack;
    var pos := 0;
    while true
      invariant 0 <= pos <= |result|
      invariant Finished(result, pos, needle, replacement, Replaced(haystack, needle, replacement))
      decreases |result| - pos
    {
      var found := Find(result, needle, pos);
      if found == -1 {
        NoStep(result, pos, needle, replacement, Replaced(haystack, needle, replacement));
        break;
      }
      OneStep(result, pos, found, needle, replacement, Replaced(haystack, needle, replacement));
      result := result[..found] + replacement + result[found + |needle|..];
      pos := found + |replacement|;
    }
  }

  /** The part before `pos` is final: replacing behind it gives the whole result. */
  ghost predicate Finished(s: string, pos: nat, needle: string, repl: string, whole: string)
    requires needle != ""
  {
    pos <= |s| && s[..pos] + Replaced(s[pos..], needle, repl) == whole
  }

  lemma NoStep(s: string, pos: nat, needle: string, repl: string, whole: string)
    requires needle != "" && Finished(s, pos, needle, repl, whole) && forall i :: pos <= i ==> !OccursAt(s, needle, i)
    ensures s == whole
  {
    BehindNone(s, needle, pos);
    ReplacedNone(s[pos..], needle, repl);
    assert s[..pos] + s[pos..] == s;
  }

  /** Replacing the first occurrence behind `pos` moves the final part behind the replacement. */
  lemma OneStep(s: string, pos: nat, k: nat, needle: string, repl: string, whole: string)
    requires needle != "" && Finished(s, pos, needle, repl, whole)
    requires pos <= k && OccursAt(s, needle, k) && forall i :: pos <= i < k ==> !OccursAt(s, needle, i)
    ensures Finished(s[..k] + repl + s[k + |needle|..], k + |repl|, needle, repl, whole)
  {
    BehindFirst(s, needle, pos, k);
    ReplacedFirst(s[pos..], needle, repl, k - pos);
    SpliceView(s, pos, k, |needle|, repl, Replaced(s[k + |needle|..], needle, repl));
  }

  /** The string after one replacement, seen from the next position. */
  lemma SpliceView(s: string, pos: nat, k: nat, len: nat, repl: string, later: string)
    requires pos <= k && k + len <= |s|
    ensures s[pos..][k - pos + len..] == s[k + len..]
    ensures s[..pos] + (s[pos..][..k - pos] + repl + later) == s[..k] + repl + later
    ensures var t := s[..k] + repl + s[k + len..]; t[..k + |repl|] == s[..k] + repl && t[k + |repl|..] == s[k + len..]
  {
    assert s[..pos] + s[pos..][..k - pos] == s[..k];
    assert s[..pos] + (s[pos..][..k - pos] + repl + later) == (s[..pos] + s[pos..][..k - pos]) + repl + later;
  }

  lemma BehindAt(s: string, needle: string, pos: nat, i: int)
    requires pos <= |s| && 0 <= i
    ensures OccursAt(s[pos..], needle, i) <==> OccursAt(s, needle, pos + i)
  {
    if pos + i + |needle| <= |s| {
      assert s[pos..][i..i + |needle|] == s[pos + i..pos + i + |needle|];
    }
  }

  lemma BehindNone(s: string, needle: string, pos: nat)
    requires pos <= |s| && forall i :: pos <= i ==> !OccursAt(s, needle, i)
    ensures forall i :: !OccursAt(s[pos..], needle, i)
  {
    forall i
      ensures !OccursAt(s[pos..], needle, i)
    {
      if 0 <= i {
        BehindAt(s, needle, pos, i);
      }
    }
  }

  lemma BehindFirst(s: string, needle: string, pos: nat, k: int)
    requires pos <= |s| && pos <= k && OccursAt(s, needle, k) && forall i :: pos <= i < k ==> !OccursAt(s, needle, i)
    ensures OccursAt(s[pos..], needle, k - pos) && forall i :: 0 <= i < k - pos ==> !OccursAt(s[pos..], needle, i)
  {
    BehindAt(s, needle, pos, k - pos);
    forall i | 0 <= i < k - pos
      ensures !OccursAt(s[pos..], needle, i)
    {
      BehindAt(s, needle, pos, i);
    }
  }
}
