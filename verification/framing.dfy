/**
 Packets of one entry to a line, read by a cursor: what the lines say, and how far the cursor has got in them.
 Separators never occur in what they separate.
 */
module Framing {
  import opened Common
  import opened Utf16
  import opened Lines
  import opened Decimal

  /** What of the lines is still ahead of the cursor; past the last line there is none. */
  ghost predicate Ahead(wire: Text, done: nat, cursor: nat) {
    var parts := Split(wire, NEWLINE);
    && cursor <= |wire|
    && 1 <= done <= |parts|
    && (done < |parts| ==> parts[done..] == SplitFrom(wire, NEWLINE, cursor))
    && (done == |parts| ==> cursor == |wire|)
  }

  lemma NextLine(wire: Text, done: nat, cursor: nat)
    requires Ahead(wire, done, cursor)
    ensures var parts, end := Split(wire, NEWLINE), Find(wire, NEWLINE, cursor);
            && (done == |parts| ==> end == cursor)
            && (done < |parts| ==>
                  && parts[done] == wire[cursor..end]
                  && Ahead(wire, done + 1, if end == |wire| then end else end + 1))
  {
    var parts, end := Split(wire, NEWLINE), Find(wire, NEWLINE, cursor);
    if done < |parts| {
      assert parts[done] == parts[done..][0];
      assert parts[done + 1..] == parts[done..][1..];
      if end == |wire| {
        assert |parts[done..]| == 1;
      } else {
        assert parts[done..][1..] == SplitFrom(wire, NEWLINE, end + 1);
      }
    }
  }

  /** The lines after the first are these entries, none of them empty. */
  ghost predicate Entries<V(!new)>(wire: Text, values: seq<V>, parse: Text -> Option<V>) {
    var parts := Split(wire, NEWLINE);
    && |parts| >= |values| + 1
    && forall k :: 1 <= k <= |values| ==> parts[k] != [] && parse(parts[k]) == Some(values[k - 1])
  }

  /** The entries in a row, each from the cursor to the end of its line, up to the first that is refused. */
  method ReadEntries<V(!new)>(wire: Text, n: nat, start: nat, parse: Text -> Option<V>)
      returns (values: Option<seq<V>>, cursor: nat)
    requires Ahead(wire, 1, start)
    ensures values.None? ==> forall vs: seq<V> :: |vs| == n ==> !Entries(wire, vs, parse)
    ensures values.Some? ==> |values.value| == n && Ahead(wire, n + 1, cursor) && Entries(wire, values.value, parse)
  {
    var done: seq<V> := [];
    cursor := start;
    while |done| < n
      invariant |done| <= n && Ahead(wire, |done| + 1, cursor) && Entries(wire, done, parse)
      decreases n - |done|
    {
      NextLine(wire, |done| + 1, cursor);
      var lineEnd := Find(wire, NEWLINE, cursor);
      if lineEnd == cursor {
        EntryRefused(wire, n, |done|, parse);
        return None, cursor;
      }
      var value := parse(wire[cursor..lineEnd]);
      if value.None? {
        EntryRefused(wire, n, |done|, parse);
        return None, cursor;
      }
      done := done + [value.value];
      cursor := if lineEnd == |wire| then |wire| else lineEnd + 1;
    }
    values := Some(done);
  }

  lemma EntryRefused<V(!new)>(wire: Text, n: nat, i: nat, parse: Text -> Option<V>)
    requires i < n
    requires var parts := Split(wire, NEWLINE); |parts| <= i + 1 || parts[i + 1] == [] || parse(parts[i + 1]).None?
    ensures forall vs: seq<V> :: |vs| == n ==> !Entries(wire, vs, parse)
  {
    var parts := Split(wire, NEWLINE);
    forall vs: seq<V> | |vs| == n ensures !Entries(wire, vs, parse) {
      if |parts| > i + 1 {
        assert !(parts[i + 1] != [] && parse(parts[i + 1]) == Some(vs[i + 1 - 1]));
      }
    }
  }

  /** The lines determine the entries. */
  lemma OneList<V(!new)>(wire: Text, values: seq<V>, parse: Text -> Option<V>)
    requires Entries(wire, values, parse)
    ensures forall vs: seq<V> :: |vs| == |values| && Entries(wire, vs, parse) ==> vs == values
  {
    var parts := Split(wire, NEWLINE);
    forall vs: seq<V> | |vs| == |values| && Entries(wire, vs, parse) ensures vs == values {
      forall i | 0 <= i < |vs| ensures vs[i] == values[i] {
        assert parse(parts[i + 1]) == Some(vs[i + 1 - 1]) && parse(parts[i + 1]) == Some(values[i + 1 - 1]);
      }
    }
  }

  method OnlyNewlinesLeft(wire: Text, start: nat) returns (only: bool)
    requires start <= |wire|
    ensures only <==> forall k :: start <= k < |wire| ==> wire[k] == NEWLINE
  {
    var cursor := start;
    while cursor < |wire| && wire[cursor] == NEWLINE
      invariant start <= cursor <= |wire|
      invariant forall k :: start <= k < cursor ==> wire[k] == NEWLINE
    {
      cursor := cursor + 1;
    }
    only := cursor == |wire|;
  }

  /** No separator occurs in hex, nor in a decimal. */
  lemma HexIsFree(b: seq<byte>, sep: unit)
    requires Nibble(sep) < 0
    ensures Free(HexOf(b), sep)
  {
    HexRoundTrip(b);
  }

  lemma DecimalIsFree(n: int, sep: unit)
    requires !IsDigit(sep) && sep != MINUS
    ensures Free(PrintInt(n), sep)
  {
    PrintIsCanonical(if n < 0 then -n else n);
  }
}
