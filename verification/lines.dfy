/** Splitting and joining text at a separator: the common ground of every packet format. */
module Lines {
  import opened Common
  import opened Utf16

  const NEWLINE: unit := 10
  const RETURN: unit := 13
  const COLON: unit := 58
  const BAR: unit := 124

  /** find: the first place of the separator at or after `from`, or the length. */
  function Find(t: Text, sep: unit, from: nat): (i: nat)
    requires from <= |t|
    ensures from <= i <= |t|
    ensures i < |t| ==> t[i] == sep
    ensures forall k :: from <= k < i ==> t[k] != sep
    decreases |t| - from
  {
    if from == |t| || t[from] == sep then from else Find(t, sep, from + 1)
  }

  /** split: the pieces between separators, empty ones included. */
  function SplitFrom(t: Text, sep: unit, from: nat): (parts: seq<Text>)
    requires from <= |t|
    ensures parts != []
    decreases |t| - from
  {
    var i := Find(t, sep, from);
    if i == |t| then [t[from..]] else [t[from..i]] + SplitFrom(t, sep, i + 1)
  }

  function Split(t: Text, sep: unit): (parts: seq<Text>)
    ensures parts != []
  {
    SplitFrom(t, sep, 0)
  }

  function Join(parts: seq<Text>, sep: unit): Text {
    if parts == [] then []
    else if |parts| == 1 then parts[0]
    else parts[0] + [sep] + Join(parts[1..], sep)
  }

  predicate Free(t: Text, sep: unit) {
    forall i :: 0 <= i < |t| ==> t[i] != sep
  }

  predicate AllFree(parts: seq<Text>, sep: unit) {
    forall i :: 0 <= i < |parts| ==> Free(parts[i], sep)
  }

  lemma {:induction false} FindAfter(t: Text, sep: unit, from: nat, piece: Text)
    requires from + |piece| <= |t| && t[from..from + |piece|] == piece && Free(piece, sep)
    requires from + |piece| < |t| ==> t[from + |piece|] == sep
    ensures Find(t, sep, from) == from + |piece|
  {
    var i := Find(t, sep, from);
    assert forall k :: from <= k < from + |piece| ==> t[k] == piece[k - from];
  }

  lemma PieceThenRest(t: Text, from: nat, piece: Text, sep: unit, rest: Text)
    requires from <= |t| && t[from..] == piece + [sep] + rest
    ensures from + |piece| < |t| && t[from..from + |piece|] == piece
    ensures t[from + |piece|] == sep && t[from + |piece| + 1..] == rest
  {
    assert piece + [sep] + rest == piece + ([sep] + rest);
    SuffixSplit(t, from, piece, [sep] + rest);
    assert t[from + |piece|..][0] == sep;
    assert t[from + |piece|..][1..] == rest;
  }

  lemma LastPiece(t: Text, sep: unit, from: nat, parts: seq<Text>)
    requires |parts| == 1 && AllFree(parts, sep)
    requires from <= |t| && t[from..] == Join(parts, sep)
    ensures SplitFrom(t, sep, from) == parts
  {
    var piece := parts[0];
    assert t[from..from + |piece|] == t[from..] == piece;
    FindAfter(t, sep, from, piece);
  }

  lemma PieceAndRest(t: Text, sep: unit, from: nat, parts: seq<Text>)
    requires |parts| > 1 && AllFree(parts, sep)
    requires from <= |t| && t[from..] == Join(parts, sep)
    ensures var next := from + |parts[0]| + 1;
            && next <= |t| && t[next..] == Join(parts[1..], sep)
            && (SplitFrom(t, sep, next) == parts[1..] ==> SplitFrom(t, sep, from) == parts)
  {
    PieceThenRest(t, from, parts[0], sep, Join(parts[1..], sep));
    FindAfter(t, sep, from, parts[0]);
    assert parts == [parts[0]] + parts[1..];
  }

  /** Pieces without the separator survive joining and splitting, wherever in a text they stand at the end. */
  lemma {:induction false} SplitJoinFrom(t: Text, sep: unit, from: nat, parts: seq<Text>)
    requires parts != [] && AllFree(parts, sep)
    requires from <= |t| && t[from..] == Join(parts, sep)
    ensures SplitFrom(t, sep, from) == parts
    decreases |parts|
  {
    if |parts| == 1 {
      LastPiece(t, sep, from, parts);
    } else {
      PieceAndRest(t, sep, from, parts);
      SplitJoinFrom(t, sep, from + |parts[0]| + 1, parts[1..]);
    }
  }

  lemma SplitJoin(parts: seq<Text>, sep: unit)
    requires parts != [] && AllFree(parts, sep)
    ensures Split(Join(parts, sep), sep) == parts
  {
    SplitJoinFrom(Join(parts, sep), sep, 0, parts);
  }

  /** And joining the pieces of any text gives the text back. */
  lemma {:induction false} JoinSplitFrom(t: Text, sep: unit, from: nat)
    requires from <= |t|
    ensures Join(SplitFrom(t, sep, from), sep) == t[from..]
    decreases |t| - from
  {
    var i := Find(t, sep, from);
    if i < |t| {
      JoinSplitFrom(t, sep, i + 1);
      JoinCons(t[from..i], SplitFrom(t, sep, i + 1), sep);
      PieceAndSeparator(t, from, i);
    }
  }

  lemma PieceAndSeparator(t: Text, from: nat, i: nat)
    requires from <= i < |t|
    ensures t[from..] == t[from..i] + [t[i]] + t[i + 1..]
  {
  }

  lemma JoinCons(piece: Text, rest: seq<Text>, sep: unit)
    requires rest != []
    ensures Join([piece] + rest, sep) == piece + [sep] + Join(rest, sep)
  {
    assert ([piece] + rest)[1..] == rest;
  }

  predicate AllEmpty(parts: seq<Text>) {
    forall i :: 0 <= i < |parts| ==> parts[i] == []
  }

  /** Nothing but separators is left exactly when all that is left to split off is empty. */
  lemma {:induction false} OnlySeparators(t: Text, sep: unit, from: nat)
    requires from <= |t|
    ensures AllEmpty(SplitFrom(t, sep, from)) <==> forall k :: from <= k < |t| ==> t[k] == sep
    decreases |t| - from
  {
    var i := Find(t, sep, from);
    var parts := SplitFrom(t, sep, from);
    if i == |t| {
      assert parts[0] == t[from..];
    } else {
      OnlySeparators(t, sep, i + 1);
      assert parts[0] == t[from..i];
      assert parts == [parts[0]] + SplitFrom(t, sep, i + 1);
      var rest := SplitFrom(t, sep, i + 1);
      assert forall k :: 0 <= k < |rest| ==> rest[k] == parts[k + 1];
    }
  }

  lemma {:induction false} JoinAppend(parts: seq<Text>, last: Text, sep: unit)
    requires parts != []
    ensures Join(parts + [last], sep) == Join(parts, sep) + [sep] + last
  {
    if |parts| == 1 {
      assert (parts + [last])[1..] == [last];
    } else {
      assert (parts + [last])[1..] == parts[1..] + [last];
      JoinAppend(parts[1..], last, sep);
    }
  }

  lemma FirstPiece(t: Text, sep: unit)
    ensures var parts, i := Split(t, sep), Find(t, sep, 0);
            parts[0] == t[..i] && parts[1..] == if i == |t| then [] else SplitFrom(t, sep, i + 1)
  {
  }

  /** Lines that each end with a newline, as writers append them. */
  function Terminated(lines: seq<Text>): Text {
    if lines == [] then [] else Terminated(lines[..|lines| - 1]) + lines[|lines| - 1] + [NEWLINE]
  }

  lemma TerminatedAppend(lines: seq<Text>, line: Text)
    ensures Terminated(lines + [line]) == Terminated(lines) + line + [NEWLINE]
  {
    assert (lines + [line])[..|lines|] == lines;
  }

  lemma {:induction false} TerminatedConcat(a: seq<Text>, b: seq<Text>)
    ensures Terminated(a + b) == Terminated(a) + Terminated(b)
  {
    if b == [] {
      assert a + b == a;
    } else {
      assert (a + b)[..|a + b| - 1] == a + b[..|b| - 1];
      TerminatedConcat(a, b[..|b| - 1]);
    }
  }

  lemma {:induction false} TerminatedIsJoin(lines: seq<Text>)
    ensures Terminated(lines) == Join(lines + [[]], NEWLINE)
  {
    if lines == [] {
      assert lines + [[]] == [[]];
    } else {
      var front, last := lines[..|lines| - 1], lines[|lines| - 1];
      TerminatedIsJoin(front);
      assert lines == front + [last];
      JoinAppend(lines, [], NEWLINE);
      LastLine(front, last);
    }
  }

  lemma LastLine(front: seq<Text>, last: Text)
    requires Terminated(front) == Join(front + [[]], NEWLINE)
    ensures Join(front + [last], NEWLINE) == Terminated(front) + last
  {
    if front == [] {
      assert front + [last] == [last] && front + [[]] == [[]];
    } else {
      JoinAppend(front, last, NEWLINE);
      JoinAppend(front, [], NEWLINE);
      assert Join(front, NEWLINE) + [NEWLINE] + [] == Join(front, NEWLINE) + [NEWLINE];
    }
  }

  /** Splitting such a text gives its lines and one empty piece at the end. */
  lemma SplitTerminated(lines: seq<Text>)
    requires AllFree(lines, NEWLINE)
    ensures Split(Terminated(lines), NEWLINE) == lines + [[]]
  {
    TerminatedIsJoin(lines);
    SplitJoin(lines + [[]], NEWLINE);
  }

  /** Reading each of a list, or none. */
  function MapAll<A, B>(f: A -> Option<B>, xs: seq<A>): Option<seq<B>> {
    if xs == [] then Some([])
    else
      var front, last := MapAll(f, xs[..|xs| - 1]), f(xs[|xs| - 1]);
      if front.None? || last.None? then None else Some(front.value + [last.value])
  }

  lemma {:induction false} MapAllSucceeds<A, B>(f: A -> Option<B>, xs: seq<A>, ys: seq<B>)
    requires |xs| == |ys| && forall i :: 0 <= i < |xs| ==> f(xs[i]) == Some(ys[i])
    ensures MapAll(f, xs) == Some(ys)
  {
    if xs != [] {
      MapAllSucceeds(f, xs[..|xs| - 1], ys[..|xs| - 1]);
      assert ys == ys[..|xs| - 1] + [ys[|xs| - 1]];
    }
  }

  lemma {:induction false} MapAllFails<A, B>(f: A -> Option<B>, xs: seq<A>, i: nat)
    requires i < |xs| && f(xs[i]).None?
    ensures MapAll(f, xs).None?
  {
    if i < |xs| - 1 {
      MapAllFails(f, xs[..|xs| - 1], i);
    }
  }

  lemma MapAllStep<A, B>(f: A -> Option<B>, xs: seq<A>, i: nat)
    requires i < |xs|
    ensures MapAll(f, xs[..i + 1])
            == if MapAll(f, xs[..i]).None? || f(xs[i]).None? then None
                else Some(MapAll(f, xs[..i]).value + [f(xs[i]).value])
  {
    assert xs[..i + 1][..i] == xs[..i];
  }

  /** Where all succeed, each result is its own element's. */
  lemma {:induction false} MapAllGives<X, Y>(f: X -> Option<Y>, xs: seq<X>)
    requires MapAll(f, xs).Some?
    ensures var ys := MapAll(f, xs).value;
            |ys| == |xs| && forall i :: 0 <= i < |xs| ==> f(xs[i]) == Some(ys[i])
  {
    if xs != [] {
      MapAllGives(f, xs[..|xs| - 1]);
    }
  }
}
