/**
 * The sentence segmenter of the assistant's text-delta handler: the
 * regular-expression split of the reply snapshot on sentence terminators,
 * the filter that drops empty pieces, and the choice of the last remaining
 * piece as the finished sentence.
 */
module Segmenter {
  import opened Wrappers

  /** The characters of the split pattern `[.!?\n]`. */
  predicate IsTerminator(c: char) {
    c == '.' || c == '!' || c == '?' || c == '\n'
  }

  predicate TerminatorFree(s: string) {
    forall k :: 0 <= k < |s| ==> !IsTerminator(s[k])
  }

  predicate AllTerminators(s: string) {
    forall k :: 0 <= k < |s| ==> IsTerminator(s[k])
  }

  /**
   * The handler's trigger: the delta is one of the four one-character
   * strings `"\n"`, `"."`, `"!"`, `"?"` (list membership, not substring).
   */
  predicate IsSentenceEnd(delta: string)
    ensures IsSentenceEnd(delta) <==> |delta| == 1 && IsTerminator(delta[0])
  {
    assert |delta| == 1 ==> delta == [delta[0]];
    delta in ["\n", ".", "!", "?"]
  }

  /** The terminators of `s`, in order: the separators the split consumes. */
  function Terminators(s: string): (ts: string)
    ensures AllTerminators(ts)
    ensures |ts| <= |s|
    decreases |s|
  {
    if s == [] then []
    else if IsTerminator(s[|s| - 1]) then Terminators(s[..|s| - 1]) + [s[|s| - 1]]
    else Terminators(s[..|s| - 1])
  }

  /**
   * `re.split('[.!?\n]', s)`: the maximal terminator-free runs of `s`,
   * one more than there are terminators, empty runs included.
   */
  function Split(s: string): (pieces: seq<string>)
    ensures |pieces| == |Terminators(s)| + 1
    ensures forall k :: 0 <= k < |pieces| ==> TerminatorFree(pieces[k])
    decreases |s|
  {
    if s == [] then [""]
    else
      var init := Split(s[..|s| - 1]);
      var c := s[|s| - 1];
      if IsTerminator(c) then init + [""]
      else init[..|init| - 1] + [init[|init| - 1] + [c]]
  }

  /** Puts the separators back between the pieces: the inverse of a split. */
  function Join(pieces: seq<string>, seps: string): string
    requires |pieces| == |seps| + 1
    decreases |seps|
  {
    if |seps| == 0 then pieces[0]
    else Join(pieces[..|pieces| - 1], seps[..|seps| - 1]) + [seps[|seps| - 1]] + pieces[|pieces| - 1]
  }

  /** The list comprehension that keeps the non-empty pieces, in order. */
  function NonEmptyPieces(pieces: seq<string>): (kept: seq<string>)
    ensures |kept| <= |pieces|
    ensures forall k :: 0 <= k < |kept| ==> kept[k] != ""
    ensures forall x :: x in kept <==> x in pieces && x != ""
    decreases |pieces|
  {
    if pieces == [] then []
    else
      var rest := NonEmptyPieces(pieces[..|pieces| - 1]);
      var last := pieces[|pieces| - 1];
      if last == "" then rest else rest + [last]
  }

  /**
   * `idx` lists, in increasing order, the positions in `pieces` of the
   * elements of `kept`, and every non-empty piece is listed: `kept` is the
   * non-empty pieces in their order, each once.
   */
  ghost predicate FilterIndex(pieces: seq<string>, kept: seq<string>, idx: seq<int>) {
    |idx| == |kept|
    && (forall k :: 0 <= k < |idx| ==> 0 <= idx[k] < |pieces| && kept[k] == pieces[idx[k]] && kept[k] != "")
    && (forall a, b :: 0 <= a < b < |idx| ==> idx[a] < idx[b])
    && (forall i :: 0 <= i < |pieces| && pieces[i] != "" ==> i in idx)
  }

  lemma FilterSkip(pieces: seq<string>, kept: seq<string>, idx: seq<int>)
    requires FilterIndex(pieces, kept, idx)
    ensures FilterIndex(pieces + [""], kept, idx)
  {
    var ps := pieces + [""];
    forall i | 0 <= i < |pieces| ensures ps[i] == pieces[i] {
    }
  }

  lemma FilterKeep(pieces: seq<string>, kept: seq<string>, idx: seq<int>, p: string)
    requires FilterIndex(pieces, kept, idx) && p != ""
    ensures FilterIndex(pieces + [p], kept + [p], idx + [|pieces|])
  {
    var ps := pieces + [p];
    var idx' := idx + [|pieces|];
    forall i | 0 <= i < |pieces| ensures ps[i] == pieces[i] {
    }
    forall k | 0 <= k < |idx| ensures idx'[k] == idx[k] {
    }
    assert idx'[|idx|] == |pieces|;
  }

  /** The positions of the non-empty pieces, in increasing order. */
  ghost function KeptIndices(pieces: seq<string>): seq<int>
    decreases |pieces|
  {
    if pieces == [] then []
    else
      var rest := KeptIndices(pieces[..|pieces| - 1]);
      if pieces[|pieces| - 1] == "" then rest else rest + [|pieces| - 1]
  }

  /** The comprehension keeps the non-empty pieces in order, each exactly once. */
  lemma {:induction false} NonEmptyPiecesIsFilter(pieces: seq<string>)
    ensures FilterIndex(pieces, NonEmptyPieces(pieces), KeptIndices(pieces))
    decreases |pieces|
  {
    if pieces != [] {
      var n := |pieces| - 1;
      var init := pieces[..n];
      var last := pieces[n];
      assert pieces == init + [last];
      NonEmptyPiecesIsFilter(init);
      if last == "" {
        FilterSkip(init, NonEmptyPieces(init), KeptIndices(init));
      } else {
        FilterKeep(init, NonEmptyPieces(init), KeptIndices(init), last);
      }
    }
  }

  /** Piece `i` is non-empty and only empty pieces follow it. */
  ghost predicate IsLastNonEmpty(pieces: seq<string>, i: int) {
    0 <= i < |pieces| && pieces[i] != "" && forall j :: i < j < |pieces| ==> pieces[j] == ""
  }

  /** What a filter index says about the last kept piece and about keeping nothing. */
  lemma FilterLast(pieces: seq<string>, kept: seq<string>, idx: seq<int>)
    requires FilterIndex(pieces, kept, idx)
    ensures kept == [] <==> forall j :: 0 <= j < |pieces| ==> pieces[j] == ""
    ensures kept != [] ==> IsLastNonEmpty(pieces, idx[|idx| - 1]) && kept[|kept| - 1] == pieces[idx[|idx| - 1]]
  {
    if kept != [] {
      var m := |idx| - 1;
      var i := idx[m];
      assert pieces[i] == kept[m] && kept[m] != "";
      forall j | i < j < |pieces| ensures pieces[j] == "" {
        assert forall l :: 0 <= l < m ==> idx[l] < idx[m];
        assert j !in idx;
      }
    } else {
      assert idx == [];
    }
  }

  /**
   * The last kept piece is the last non-empty piece of the split, and
   * nothing is kept exactly when every piece is empty.
   */
  lemma LastKeptIsLastNonEmpty(pieces: seq<string>)
    ensures NonEmptyPieces(pieces) == [] <==> forall j :: 0 <= j < |pieces| ==> pieces[j] == ""
    ensures NonEmptyPieces(pieces) != [] ==>
              exists i :: IsLastNonEmpty(pieces, i) && NonEmptyPieces(pieces)[|NonEmptyPieces(pieces)| - 1] == pieces[i]
  {
    NonEmptyPiecesIsFilter(pieces);
    FilterLast(pieces, NonEmptyPieces(pieces), KeptIndices(pieces));
  }

  /**
   * `trimed_list[-1]`: the last non-empty piece of the split snapshot, or
   * None where the source's index raises because no piece is non-empty.
   */
  function LastSentence(snapshot: string): (r: Option<string>)
    ensures r.Some? ==> r.value != "" && TerminatorFree(r.value) && r.value in Split(snapshot)
  {
    var kept := NonEmptyPieces(Split(snapshot));
    if |kept| == 0 then None
    else
      assert kept[|kept| - 1] in kept;
      Some(kept[|kept| - 1])
  }

  // ---------------------------------------------------------------------
  // The split and its inverse

  /** One step of the split: a terminator opens a new, empty piece. */
  lemma SplitSnocTerminator(s: string, c: char)
    requires IsTerminator(c)
    ensures Split(s + [c]) == Split(s) + [""]
    ensures Terminators(s + [c]) == Terminators(s) + [c]
  {
    assert (s + [c])[..|s|] == s;
  }

  /** One step of the split: any other character grows the last piece. */
  lemma SplitSnocLetter(s: string, c: char)
    requires !IsTerminator(c)
    ensures var init := Split(s);
      Split(s + [c]) == init[..|init| - 1] + [init[|init| - 1] + [c]]
    ensures Terminators(s + [c]) == Terminators(s)
  {
    assert (s + [c])[..|s|] == s;
  }

  lemma {:induction false} JoinGrowLast(pieces: seq<string>, seps: string, c: char)
    requires |pieces| == |seps| + 1
    ensures Join(pieces[..|pieces| - 1] + [pieces[|pieces| - 1] + [c]], seps) == Join(pieces, seps) + [c]
  {
    var grown := pieces[..|pieces| - 1] + [pieces[|pieces| - 1] + [c]];
    if |seps| > 0 {
      assert grown[..|grown| - 1] == pieces[..|pieces| - 1];
    }
  }

  /** Putting the terminators back between the pieces gives the snapshot back. */
  lemma {:induction false} JoinSplit(s: string)
    ensures Join(Split(s), Terminators(s)) == s
    decreases |s|
  {
    if s != [] {
      var s' := s[..|s| - 1];
      var c := s[|s| - 1];
      assert s == s' + [c];
      JoinSplit(s');
      if IsTerminator(c) {
        JoinSplitTerminator(s', c);
      } else {
        JoinGrowLast(Split(s'), Terminators(s'), c);
      }
    }
  }

  lemma JoinSplitTerminator(s': string, c: char)
    requires IsTerminator(c)
    requires Join(Split(s'), Terminators(s')) == s'
    ensures Join(Split(s' + [c]), Terminators(s' + [c])) == s' + [c]
  {
    var s := s' + [c];
    assert s[..|s| - 1] == s';
    var ps := Split(s') + [""];
    var seps := Terminators(s') + [c];
    assert Split(s) == ps;
    assert Terminators(s) == seps;
    JoinAppendPiece(Split(s'), Terminators(s'), c, "");
    assert s' + [c] + "" == s;
  }

  /** Joining after one more separator and piece appends both. */
  lemma JoinAppendPiece(pieces: seq<string>, seps: string, c: char, piece: string)
    requires |pieces| == |seps| + 1
    ensures Join(pieces + [piece], seps + [c]) == Join(pieces, seps) + [c] + piece
  {
    var ps := pieces + [piece];
    var ss := seps + [c];
    assert ps[..|ps| - 1] == pieces;
    assert ss[..|ss| - 1] == seps;
  }

  /** A terminator-free string is a single piece. */
  lemma {:induction false} SplitFree(s: string)
    requires TerminatorFree(s)
    ensures Split(s) == [s] && Terminators(s) == []
    decreases |s|
  {
    if s != [] {
      var s' := s[..|s| - 1];
      assert TerminatorFree(s');
      SplitFree(s');
      assert s' + [s[|s| - 1]] == s;
    }
  }

  /** Splitting after one more terminator and run adds that run as a piece. */
  lemma {:induction false} SplitAppend(x: string, t: char, run: string)
    requires IsTerminator(t) && TerminatorFree(run)
    ensures Split(x + [t] + run) == Split(x) + [run]
    ensures Terminators(x + [t] + run) == Terminators(x) + [t]
    decreases |run|
  {
    if run == [] {
      assert x + [t] + run == x + [t];
      SplitSnocTerminator(x, t);
    } else {
      var run' := run[..|run| - 1];
      var c := run[|run| - 1];
      assert TerminatorFree(run') && !IsTerminator(c);
      assert x + [t] + run == (x + [t] + run') + [c];
      SplitAppend(x, t, run');
      SplitSnocLetter(x + [t] + run', c);
      var init := Split(x) + [run'];
      assert init[..|init| - 1] == Split(x);
      assert run' + [c] == run;
    }
  }

  /**
   * The split is the only way to cut `s` into terminator-free pieces at its
   * terminators: any such decomposition is `Split(s)` with `Terminators(s)`.
   */
  lemma {:induction false} SplitUnique(pieces: seq<string>, seps: string)
    requires |pieces| == |seps| + 1
    requires forall k :: 0 <= k < |pieces| ==> TerminatorFree(pieces[k])
    requires AllTerminators(seps)
    ensures Split(Join(pieces, seps)) == pieces
    ensures Terminators(Join(pieces, seps)) == seps
    decreases |seps|
  {
    if |seps| == 0 {
      SplitFree(pieces[0]);
      assert pieces == [pieces[0]];
    } else {
      var ps := pieces[..|pieces| - 1];
      var ts := seps[..|seps| - 1];
      var last := pieces[|pieces| - 1];
      var t := seps[|seps| - 1];
      forall k | 0 <= k < |ps| ensures TerminatorFree(ps[k]) {
        assert ps[k] == pieces[k];
      }
      SplitUnique(ps, ts);
      var x := Join(ps, ts);
      assert Join(pieces, seps) == x + [t] + last;
      SplitAppend(x, t, last);
      assert ps + [last] == pieces;
      assert ts + [t] == seps;
    }
  }

  // ---------------------------------------------------------------------
  // The last sentence

  /** The last piece of the split: the maximal terminator-free suffix. */
  function LastPiece(s: string): string {
    Split(s)[|Split(s)| - 1]
  }

  /** Every terminator-free suffix of `s` lies within the last piece. */
  lemma {:induction false} LastPieceLongest(s: string, i: int)
    requires 0 <= i <= |s| && TerminatorFree(s[i..])
    ensures |LastPiece(s)| >= |s| - i
    decreases |s|
  {
    if i < |s| {
      var s' := s[..|s| - 1];
      var c := s[|s| - 1];
      assert s == s' + [c];
      assert !IsTerminator(s[i..][|s| - 1 - i]);
      LastSentenceAfterLetter(s', c);
      assert s'[i..] == s[i..|s| - 1];
      LastPieceLongest(s', i);
    }
  }

  /** The last piece never reaches back past a terminator. */
  lemma {:induction false} LastPieceShortest(s: string, i: int)
    requires 0 <= i <= |s| && (i == 0 || IsTerminator(s[i - 1]))
    ensures |LastPiece(s)| <= |s| - i
    decreases |s|
  {
    if s != [] {
      var s' := s[..|s| - 1];
      var c := s[|s| - 1];
      assert s == s' + [c];
      if !IsTerminator(c) {
        assert i < |s|;
        LastSentenceAfterLetter(s', c);
        LastPieceShortest(s', i);
      }
    }
  }

  lemma {:induction false} LastPieceIsSuffix(s: string)
    ensures |LastPiece(s)| <= |s|
    ensures LastPiece(s) == s[|s| - |LastPiece(s)|..]
    ensures |LastPiece(s)| == |s| || IsTerminator(s[|s| - |LastPiece(s)| - 1])
    decreases |s|
  {
    if s != [] {
      var s' := s[..|s| - 1];
      var c := s[|s| - 1];
      assert s == s' + [c];
      LastPieceIsSuffix(s');
      var init := Split(s');
      if IsTerminator(c) {
        SplitSnocTerminator(s', c);
        assert LastPiece(s) == "";
      } else {
        SplitSnocLetter(s', c);
        var p := LastPiece(s');
        assert LastPiece(s) == p + [c];
        assert s[|s| - |p| - 1..] == s'[|s'| - |p|..] + [c];
      }
    }
  }

  /** A split of a snapshot ending in a terminator ends in an empty piece. */
  lemma NonEmptyAfterTerminator(s: string, c: char)
    requires IsTerminator(c)
    ensures NonEmptyPieces(Split(s + [c])) == NonEmptyPieces(Split(s))
  {
    assert (s + [c])[..|s|] == s;
    var init := Split(s);
    assert (init + [""])[..|init|] == init;
  }

  /**
   * The quirk of consecutive terminators: a terminator after a terminator
   * yields the same last sentence again.
   */
  lemma RepeatedTerminator(s: string, c: char)
    requires IsTerminator(c)
    ensures LastSentence(s + [c]) == LastSentence(s)
  {
    NonEmptyAfterTerminator(s, c);
  }

  /** After a non-terminator the last sentence is the grown last piece. */
  lemma LastSentenceAfterLetter(s: string, c: char)
    requires !IsTerminator(c)
    ensures LastSentence(s + [c]) == Some(LastPiece(s) + [c])
  {
    assert (s + [c])[..|s|] == s;
    var init := Split(s);
    var pieces := init[..|init| - 1] + [init[|init| - 1] + [c]];
    assert pieces[..|pieces| - 1] == init[..|init| - 1];
  }

  /** There is no sentence to take exactly when every character is a terminator. */
  lemma {:induction false} NoSentenceIff(s: string)
    ensures LastSentence(s).None? <==> AllTerminators(s)
    decreases |s|
  {
    if s != [] {
      var s' := s[..|s| - 1];
      var c := s[|s| - 1];
      assert s == s' + [c];
      if IsTerminator(c) {
        RepeatedTerminator(s', c);
        NoSentenceIff(s');
        assert AllTerminators(s) <==> AllTerminators(s');
      } else {
        LastSentenceAfterLetter(s', c);
      }
    }
  }

  /**
   * `s[i..j]` is the final sentence of `s`: a terminator-free non-empty run
   * that starts the string or follows a terminator, after which only
   * terminators remain.
   */
  ghost predicate FinalRun(s: string, i: int, j: int) {
    0 <= i < j <= |s| && TerminatorFree(s[i..j]) && AllTerminators(s[j..])
    && (i == 0 || IsTerminator(s[i - 1]))
  }

  lemma AllTerminatorsSnoc(x: string, c: char)
    requires AllTerminators(x) && IsTerminator(c)
    ensures AllTerminators(x + [c])
  {
    forall k | 0 <= k < |x + [c]| ensures IsTerminator((x + [c])[k]) {
      if k < |x| {
        assert (x + [c])[k] == x[k];
      }
    }
  }

  lemma TerminatorFreeSnoc(x: string, c: char)
    requires TerminatorFree(x) && !IsTerminator(c)
    ensures TerminatorFree(x + [c])
  {
    forall k | 0 <= k < |x + [c]| ensures !IsTerminator((x + [c])[k]) {
      if k < |x| {
        assert (x + [c])[k] == x[k];
      }
    }
  }

  /** A final run stays final when a terminator is appended. */
  lemma FinalRunAfterTerminator(s': string, c: char, i: int, j: int)
    requires FinalRun(s', i, j) && IsTerminator(c)
    ensures FinalRun(s' + [c], i, j) && (s' + [c])[i..j] == s'[i..j]
  {
    var s := s' + [c];
    assert s[j..] == s'[j..] + [c];
    AllTerminatorsSnoc(s'[j..], c);
    assert s[i..j] == s'[i..j];
    assert i == 0 || s[i - 1] == s'[i - 1];
  }

  /** After a non-terminator, the grown last piece is the final run. */
  lemma FinalRunAfterLetter(s': string, c: char)
    requires !IsTerminator(c)
    ensures var i := |s'| - |LastPiece(s')|;
      0 <= i && FinalRun(s' + [c], i, |s'| + 1) && (s' + [c])[i..] == LastPiece(s') + [c]
  {
    var s := s' + [c];
    LastPieceIsSuffix(s');
    var piece := LastPiece(s');
    var i := |s'| - |piece|;
    assert s[i..|s|] == piece + [c];
    TerminatorFreeSnoc(piece, c);
    assert s[|s|..] == [];
    assert i == 0 || s[i - 1] == s'[i - 1];
  }

  lemma {:induction false} FinalRunOfLastSentence(s: string)
    requires LastSentence(s).Some?
    ensures exists i, j :: FinalRun(s, i, j) && LastSentence(s).value == s[i..j]
    decreases |s|
  {
    var s' := s[..|s| - 1];
    var c := s[|s| - 1];
    assert s == s' + [c];
    if IsTerminator(c) {
      RepeatedTerminator(s', c);
      FinalRunOfLastSentence(s');
      var i, j :| FinalRun(s', i, j) && LastSentence(s').value == s'[i..j];
      FinalRunAfterTerminator(s', c, i, j);
    } else {
      LastSentenceAfterLetter(s', c);
      FinalRunAfterLetter(s', c);
      var i := |s'| - |LastPiece(s')|;
      assert s[i..|s|] == s[i..];
    }
  }

  lemma {:induction false} LastSentenceOfFinalRun(s: string, i: int, j: int)
    requires FinalRun(s, i, j)
    ensures LastSentence(s) == Some(s[i..j])
    decreases |s|
  {
    var s' := s[..|s| - 1];
    var c := s[|s| - 1];
    assert s == s' + [c];
    if j < |s| {
      assert IsTerminator(s[j..][|s| - 1 - j]);
      RepeatedTerminator(s', c);
      assert s'[j..] == s[j..|s| - 1];
      assert s'[i..j] == s[i..j];
      LastSentenceOfFinalRun(s', i, j);
    } else {
      assert !IsTerminator(s[i..j][j - 1 - i]);
      LastSentenceAfterLetter(s', c);
      LastPieceIsSuffix(s');
      assert s[i..j] == s'[i..] + [c];
      assert TerminatorFree(s'[i..]) by {
        forall k | 0 <= k < |s'[i..]| ensures !IsTerminator(s'[i..][k]) {
          assert s'[i..][k] == s[i..j][k];
        }
      }
      LastPieceLongest(s', i);
      LastPieceShortest(s', i);
    }
  }

  /**
   * The last sentence, described without the split: it is exactly the
   * final run of the snapshot, in both directions.
   */
  lemma LastSentenceIsFinalRun(s: string)
    ensures LastSentence(s).Some? ==> exists i, j :: FinalRun(s, i, j) && LastSentence(s).value == s[i..j]
    ensures forall i, j :: FinalRun(s, i, j) ==> LastSentence(s) == Some(s[i..j])
  {
    if LastSentence(s).Some? {
      FinalRunOfLastSentence(s);
    }
    forall i, j | FinalRun(s, i, j) ensures LastSentence(s) == Some(s[i..j]) {
      LastSentenceOfFinalRun(s, i, j);
    }
  }
}
