/**
 The Q1 query result: accumulated row by row while SQLite steps, bounded in rows and in bytes, and taken apart again by
 parseQueryResultWire of extendscript/esdb.jsx. Texts of DOUBLE values stay abstract: `printDouble` is the adapter's
 printer, `isDouble` whether the facade takes a text for a number.
 */
module QueryResult {
  import opened Common
  import opened Utf16
  import opened Lines
  import opened Framing
  import opened Decimal
  import opened Integers
  import opened ParameterPacket
  import TextCodec
  import Utf8

  const ROW_MAX: nat := 10000
  const WIRE_MAX: nat := 16 * 1024 * 1024
  const HEADER_MAX: nat := 128
  const COLUMN_MAX: nat := 32767

  type DoublePrinter = seq<byte> -> Text

  /** A value with a payload of the size its type asks for, as SQL results have them. */
  predicate Sendable(v: Value) {
    match v.valueType
    case NullType => v.payload == []
    case BoolType => |v.payload| == 1
    case Int32Type => |v.payload| == 4
    case Int64Type => |v.payload| == 8
    case DoubleType => |v.payload| == 8
    case Utf8Type => Utf8.WellFormed(v.payload)
    case BytesType => true
    case _ => false
  }

  function Signed32(u: nat): (n: int)
    requires u < 0x1_0000_0000
    ensures InInt32(n) && (u - n) % 0x1_0000_0000 == 0
  {
    if u <= 0x7fff_ffff then u else u - 0x1_0000_0000
  }

  lemma IntegerPayload(payload: seq<byte>)
    requires |payload| == 4 || |payload| == 8
    ensures LittleEndian(payload) < if |payload| == 4 then 0x1_0000_0000 else TWO_64
  {
    WritesBack(payload);
    Pow256Of8();
    assert Pow256(2) == 0x1_0000;
    assert Pow256(4) == 0x1_0000_0000;
  }

  function IntegerIn(payload: seq<byte>): int
    requires |payload| == 4 || |payload| == 8
  {
    IntegerPayload(payload);
    if |payload| == 4 then Signed32(LittleEndian(payload)) else ToSigned(LittleEndian(payload))
  }

  /** The payload part of value_wire. */
  function PayloadText(v: Value, printDouble: DoublePrinter): Text
    requires Sendable(v)
  {
    match v.valueType
    case NullType => []
    case BoolType => [if v.payload[0] != 0 then 49 else 48]
    case Int32Type => PrintInt(IntegerIn(v.payload))
    case Int64Type => PrintInt(IntegerIn(v.payload))
    case DoubleType => printDouble(v.payload)
    case _ => HexOf(v.payload)
  }

  /** One cell of a row: type and payload, without the version prefix. */
  function Cell(v: Value, printDouble: DoublePrinter): Text
    requires Sendable(v)
  {
    [48 + TypeNumber(v.valueType), COLON] + PayloadText(v, printDouble)
  }

  function Cells(row: seq<Value>, printDouble: DoublePrinter): (cells: seq<Text>)
    requires forall i :: 0 <= i < |row| ==> Sendable(row[i])
    ensures |cells| == |row| && forall i :: 0 <= i < |row| ==> cells[i] == Cell(row[i], printDouble)
  {
    seq(|row|, i requires 0 <= i < |row| => Cell(row[i], printDouble))
  }

  /** "R:" and the cells. */
  function RowLine(row: seq<Value>, printDouble: DoublePrinter): Text
    requires forall i :: 0 <= i < |row| ==> Sendable(row[i])
  {
    [82, COLON] + Join(Cells(row, printDouble), BAR)
  }

  function HexNames(names: seq<seq<byte>>): (hex: seq<Text>)
    ensures |hex| == |names| && forall i :: 0 <= i < |names| ==> hex[i] == HexOf(names[i])
  {
    seq(|names|, i requires 0 <= i < |names| => HexOf(names[i]))
  }

  /** "N:" and the column names in hex. */
  function NamesLine(names: seq<seq<byte>>): Text {
    [78, COLON] + Join(HexNames(names), BAR)
  }

  predicate SendableRow(row: seq<Value>) {
    forall i :: 0 <= i < |row| ==> Sendable(row[i])
  }

  predicate SendableRows(rows: seq<seq<Value>>) {
    forall i :: 0 <= i < |rows| ==> SendableRow(rows[i])
  }

  function RowLines(rows: seq<seq<Value>>, printDouble: DoublePrinter): (lines: seq<Text>)
    requires SendableRows(rows)
    ensures |lines| == |rows| && forall i :: 0 <= i < |rows| ==> lines[i] == RowLine(rows[i], printDouble)
  {
    seq(|rows|, i requires 0 <= i < |rows| => RowLine(rows[i], printDouble))
  }

  predicate NamesTooLong(names: seq<seq<byte>>) {
    |NamesLine(names)| + 1 + HEADER_MAX > WIRE_MAX
  }

  /** More than the reply may hold, leaving room for the header. */
  ghost predicate TooLong(names: seq<seq<byte>>, rows: seq<seq<Value>>, printDouble: DoublePrinter) {
    SendableRows(rows) ==> |NamesLine(names)| + 1 + |Terminated(RowLines(rows, printDouble))| + HEADER_MAX > WIRE_MAX
  }

  // ---- the accumulating context ----

  class QueryWireContext {
    var names: Text
    var rows: Text
    var columnCount: nat
    var returnedRows: nat
    const maxRows: nat
    var namesReady: bool
    var truncated: bool
    var failed: bool
    const printDouble: DoublePrinter
    /** The rows that went into `rows`, and the column names that went into `names`. */
    ghost var sent: seq<seq<Value>>
    ghost var columns: seq<seq<byte>>

    ghost predicate Valid()
      reads this
    {
      && SendableRows(sent)
      && rows == Terminated(RowLines(sent, printDouble))
      && returnedRows == |sent| <= maxRows
      && columnCount == |columns|
      && (namesReady ==> names == NamesLine(columns) + [NEWLINE])
      && (!namesReady ==> sent == [] && columns == [])
      && (truncated ==> namesReady)
      && (namesReady ==> |names| + |rows| + HEADER_MAX <= WIRE_MAX)
    }

    constructor (maxRows: nat, printDouble: DoublePrinter)
      ensures Valid() && sent == [] && !namesReady && !truncated && !failed
      ensures this.maxRows == maxRows && this.printDouble == printDouble
    {
      names, rows, columnCount, returnedRows := [], [], 0, 0;
      namesReady, truncated, failed := false, false, false;
      this.maxRows, this.printDouble := maxRows, printDouble;
      sent, columns := [], [];
    }

    /** set_query_column_names */
    method SetColumnNames(names': seq<seq<byte>>) returns (ok: bool)
      requires Valid() && !namesReady
      modifies this`names, this`columnCount, this`namesReady, this`columns
      ensures Valid()
      ensures ok ==> namesReady && columns == names'
      ensures !ok ==> !namesReady && names == old(names) && columns == old(columns) && NamesTooLong(names')
    {
      var text := BuildNames(names');
      if |text| + HEADER_MAX > WIRE_MAX {
        return false;
      }
      columnCount, names, namesReady := |names'|, text, true;
      columns := names';
      return true;
    }

    /** append_query_row_wire; a row is taken whole or not at all, and once one is not, no more are offered. */
    method AppendRow(names': seq<seq<byte>>, row: seq<Value>) returns (stop: bool)
      requires Valid() && SendableRow(row) && |row| == |names'| && (namesReady ==> columns == names')
      modifies this
      ensures Valid()
      ensures old(namesReady) ==> namesReady
      ensures namesReady ==> columns == names'
      ensures old(failed) ==> failed
      ensures failed && !old(failed) ==> NamesTooLong(names')
      ensures !stop ==> failed == old(failed) && old(returnedRows) < maxRows
      ensures stop && !failed && names' != [] ==>
                old(returnedRows) == maxRows || TooLong(names', old(sent) + [row], printDouble)
      ensures stop ==> namesReady || failed || names' == []
      ensures !stop ==> namesReady && sent == old(sent) + [row] && truncated == old(truncated)
      ensures stop ==> sent == old(sent)
    {
      if |row| == 0 {
        return true;
      }
      if !namesReady {
        var ok := SetColumnNames(names');
        if !ok {
          failed := true;
          return true;
        }
      }
      if returnedRows >= maxRows {
        truncated := true;
        return true;
      }
      var line := BuildRow(row, printDouble);
      RowLinesAppend(sent, row, printDouble);
      if |names| + |rows| + |line| + HEADER_MAX > WIRE_MAX {
        truncated := true;
        return true;
      }
      rows := rows + line;
      returnedRows := returnedRows + 1;
      sent := sent + [row];
      return false;
    }
  }

  method BuildNames(names: seq<seq<byte>>) returns (line: Text)
    ensures line == NamesLine(names) + [NEWLINE]
  {
    ghost var pieces := HexNames(names);
    line := [78, COLON];
    for column := 0 to |names|
      invariant line == [78, COLON] + Join(pieces[..column], BAR)
    {
      NextPiece(pieces, column);
      if column != 0 {
        line := line + [BAR];
      }
      line := line + HexOf(names[column]);
    }
    assert pieces[..|names|] == pieces;
    line := line + [NEWLINE];
  }

  method BuildRow(row: seq<Value>, printDouble: DoublePrinter) returns (line: Text)
    requires SendableRow(row)
    ensures line == RowLine(row, printDouble) + [NEWLINE]
  {
    ghost var pieces := Cells(row, printDouble);
    line := [82, COLON];
    for column := 0 to |row|
      invariant line == [82, COLON] + Join(pieces[..column], BAR)
    {
      NextPiece(pieces, column);
      if column != 0 {
        line := line + [BAR];
      }
      line := line + Cell(row[column], printDouble);
    }
    assert pieces[..|row|] == pieces;
    line := line + [NEWLINE];
  }

  /** Appending a separator, except before the first piece, and the piece. */
  lemma NextPiece(pieces: seq<Text>, i: nat)
    requires i < |pieces|
    ensures Join(pieces[..i + 1], BAR) == Join(pieces[..i], BAR) + (if i == 0 then [] else [BAR]) + pieces[i]
  {
    assert pieces[..i + 1] == pieces[..i] + [pieces[i]];
    if i == 0 {
      assert pieces[..1] == [pieces[0]] && pieces[..0] == [];
    } else {
      JoinAppend(pieces[..i], pieces[i], BAR);
    }
  }

  lemma RowLinesAppend(sent: seq<seq<Value>>, row: seq<Value>, printDouble: DoublePrinter)
    requires SendableRows(sent) && SendableRow(row)
    ensures SendableRows(sent + [row])
    ensures Terminated(RowLines(sent + [row], printDouble))
            == Terminated(RowLines(sent, printDouble)) + (RowLine(row, printDouble) + [NEWLINE])
  {
    var all := sent + [row];
    assert RowLines(all, printDouble) == RowLines(sent, printDouble) + [RowLine(row, printDouble)];
    TerminatedAppend(RowLines(sent, printDouble), RowLine(row, printDouble));
  }

  // ---- the query ----

  function HeaderFields(columns: nat, returned: nat, total: nat, changes: nat): seq<Text> {
    [Print(columns), Print(returned), Print(total), Print(changes), [if returned < total then 49 else 48]]
  }

  /** "Q1:" and five fields; the last says whether rows are missing. */
  function HeaderLine(columns: nat, returned: nat, total: nat, changes: nat): Text {
    [81, 49, 58] + Join(HeaderFields(columns, returned, total, changes), COLON)
  }

  function AllLines(names: seq<seq<byte>>, sent: seq<seq<Value>>, total: nat, changes: nat,
                    printDouble: DoublePrinter): seq<Text>
    requires SendableRows(sent)
  {
    [HeaderLine(|names|, |sent|, total, changes), NamesLine(names)] + RowLines(sent, printDouble)
  }

  lemma {:induction false} PrintLength(n: nat, digits: nat)
    requires digits > 0 && n < Pow10(digits)
    ensures |Print(n)| <= digits
  {
    if n >= 10 {
      PrintLength(n / 10, digits - 1);
    }
  }

  lemma HeaderLength(columns: nat, returned: nat, total: nat, changes: nat)
    requires columns <= COLUMN_MAX && returned <= ROW_MAX && total <= REVISION_MAX && changes <= REVISION_MAX
    ensures |HeaderLine(columns, returned, total, changes)| + 1 <= HEADER_MAX
  {
    assert Pow10(5) == 100000 && Pow10(10) == 10000000000;
    assert Pow10(15) == 1000000000000000;
    assert Pow10(19) == 10000000000000000000;
    PrintLength(columns, 5);
    PrintLength(returned, 5);
    PrintLength(total, 19);
    PrintLength(changes, 19);
    var f := HeaderFields(columns, returned, total, changes);
    assert Join(f[4..], COLON) == f[4] && Join(f[3..], COLON) == f[3] + [COLON] + Join(f[4..], COLON);
    assert Join(f[2..], COLON) == f[2] + [COLON] + Join(f[3..], COLON);
    assert Join(f[1..], COLON) == f[1] + [COLON] + Join(f[2..], COLON);
  }

  lemma WireIsTerminated(header: Text, names: Text, lines: seq<Text>)
    ensures header + [NEWLINE] + (names + [NEWLINE]) + Terminated(lines) == Terminated([header, names] + lines)
  {
    TerminatedConcat([header, names], lines);
    assert [header, names][..1] == [header] && [header][..0] == [];
    assert Terminated([header]) == header + [NEWLINE];
  }

  /** Where the rows end: `returned` of them were taken, and the next, if any, was refused for a reason. */
  ghost predicate Taken(context: QueryWireContext, names: seq<seq<byte>>, rows: seq<seq<Value>>, returned: nat)
    reads context
  {
    && returned <= |rows| && context.sent == rows[..returned]
    && (!context.failed && returned < |rows| && names != [] ==>
          returned == context.maxRows || TooLong(names, rows[..returned + 1], context.printDouble))
  }

  /** One row of the query handed to the context. */
  method OfferRow(context: QueryWireContext, names: seq<seq<byte>>, rows: seq<seq<Value>>, i: nat) returns (stop: bool)
    requires context.Valid() && (context.namesReady ==> context.columns == names)
    requires i < |rows| && context.sent == rows[..i] && SendableRow(rows[i]) && |rows[i]| == |names|
    modifies context
    ensures context.Valid() && (context.namesReady ==> context.columns == names)
    ensures old(context.namesReady) ==> context.namesReady
    ensures old(context.failed) ==> context.failed
    ensures context.failed && !old(context.failed) ==> NamesTooLong(names)
    ensures stop ==> Taken(context, names, rows, i) && (context.namesReady || context.failed || names == [])
    ensures !stop ==>
              && context.sent == rows[..i + 1] && context.namesReady
              && context.truncated == old(context.truncated) && context.failed == old(context.failed)
  {
    assert rows[..i + 1] == rows[..i] + [rows[i]];
    stop := context.AppendRow(names, rows[i]);
  }

  /** The row loop of esdb_query: every row is counted, and offered until one is refused. */
  method StepRows(context: QueryWireContext, names: seq<seq<byte>>, rows: seq<seq<Value>>, reliable: bool)
    returns (ok: bool, total: nat, ghost returned: nat)
    requires context.Valid() && context.sent == [] && !context.truncated
             && (context.namesReady ==> context.columns == names)
    requires forall i :: 0 <= i < |rows| ==> SendableRow(rows[i]) && |rows[i]| == |names|
    modifies context
    ensures context.Valid() && (context.namesReady ==> context.columns == names)
    ensures old(context.failed) ==> context.failed
    ensures context.failed ==> old(context.failed) || NamesTooLong(names)
    ensures old(context.namesReady) ==> context.namesReady
    ensures returned <= |rows| && (reliable ==> ok)
    ensures ok ==> total == |rows| && Taken(context, names, rows, returned)
    ensures ok && !context.failed && rows != [] && names != [] ==> context.namesReady
    ensures ok && context.truncated ==> returned < total
    ensures rows == [] ==> context.namesReady == old(context.namesReady)
  {
    total, returned := 0, 0;
    ghost var namesTooLong := NamesTooLong(names);
    var deliver := true;
    while total < |rows|
      invariant context.Valid() && total <= |rows| && returned <= total
      invariant context.namesReady ==> context.columns == names
      invariant old(context.failed) ==> context.failed
      invariant context.failed ==> old(context.failed) || namesTooLong
      invariant old(context.namesReady) ==> context.namesReady
      invariant total == 0 ==> context.namesReady == old(context.namesReady)
      invariant deliver ==> returned == total && context.sent == rows[..returned] && !context.truncated
      invariant !deliver ==> returned < total && Taken(context, names, rows, returned)
      invariant !context.failed && total > 0 && names != [] ==> context.namesReady
    {
      var failing := Fails(reliable);
      if failing {
        return false, total, returned;
      }
      total := total + 1;
      if deliver {
        var stop := OfferRow(context, names, rows, total - 1);
        if stop {
          deliver := false;
        } else {
          returned := returned + 1;
        }
      }
    }
    ok := true;
  }

  /** The reply once the rows are in. */
  method FormReply(context: QueryWireContext, total: nat, changes: nat)
      returns (wire: Text, ghost shown: seq<seq<byte>>)
    requires context.Valid() && context.columnCount <= COLUMN_MAX && context.maxRows <= ROW_MAX
    requires |context.sent| <= total <= REVISION_MAX && changes <= REVISION_MAX
    requires context.truncated ==> |context.sent| < total
    modifies context
    ensures context.sent == old(context.sent) && SendableRows(context.sent)
    ensures shown == if old(context.namesReady) then old(context.columns) else []
    ensures wire == Terminated(AllLines(shown, context.sent, total, changes, context.printDouble))
    ensures |wire| <= WIRE_MAX
  {
    if !context.namesReady {
      context.names, context.columnCount := [78, COLON, NEWLINE], 0;
      assert NamesLine([]) == [78, COLON];
    }
    shown := if context.namesReady then context.columns else [];
    HeaderLength(context.columnCount, context.returnedRows, total, changes);
    var truncated := context.truncated || total > context.returnedRows;
    var fields := [Print(context.columnCount), Print(context.returnedRows), Print(total), Print(changes),
                   [if truncated then 49 else 48]];
    var header := [81, 49, 58] + Join(fields, COLON);
    assert header == HeaderLine(|shown|, |context.sent|, total, changes);
    WireIsTerminated(header, NamesLine(shown), RowLines(context.sent, context.printDouble));
    wire := header + [NEWLINE] + context.names + context.rows;
  }

  /**
   querySql after its arguments are checked: SQLite's rows go into the reply as long as they fit, and are only counted
   from then on. `primed` is whether the names could be read before the first row. None is an error reply.
   */
  method QuerySql(names: seq<seq<byte>>, rows: seq<seq<Value>>, maxRows: nat, changes: nat, primed: bool,
                  reliable: bool, printDouble: DoublePrinter)
    returns (wire: Option<Text>, ghost shown: seq<seq<byte>>, ghost returned: nat)
    requires |names| <= COLUMN_MAX && maxRows <= ROW_MAX && |rows| <= REVISION_MAX && changes <= REVISION_MAX
    requires forall i :: 0 <= i < |rows| ==> SendableRow(rows[i]) && |rows[i]| == |names|
    ensures returned <= |rows|
    ensures reliable && !NamesTooLong(names) ==> wire.Some?
    ensures wire.Some? ==> returned <= maxRows && |wire.value| <= WIRE_MAX
    ensures wire.Some? ==> wire.value == Terminated(AllLines(shown, rows[..returned], |rows|, changes, printDouble))
    ensures wire.Some? ==> shown == if primed || rows != [] then names else []
    ensures wire.Some? && returned < |rows| && names != [] ==>
              returned == maxRows || TooLong(names, rows[..returned + 1], printDouble)
  {
    var context := new QueryWireContext(maxRows, printDouble);
    if primed {
      var ok := context.SetColumnNames(names);
      if !ok {
        context.failed := true;
      }
    }
    var ok, total;
    ok, total, returned := StepRows(context, names, rows, reliable);
    if !ok || context.failed {
      return None, [], returned;
    }
    var text;
    text, shown := FormReply(context, total, changes);
    wire := Some(text);
  }

  // ---- the facade's parser ----

  /** decodeStoreValue. Structured values need a codec of the host's and are not part of SQL results. */
  function StoreValue(t: ValueType, payload: Text, isDouble: Text -> bool): Option<Js> {
    match t
    case NullType => Some(JsNull)
    case BoolType => if payload == [48] then Some(JsBool(false)) else if payload == [49] then Some(JsBool(true))
        else None
    case Int32Type => if SignedSyntax(payload) && InInt32(IntOf(payload)) then Some(JsInteger(IntOf(payload))) else None
    case Int64Type => if SignedSyntax(payload) && InInt64(IntOf(payload)) then Some(JsInt64(PrintInt(IntOf(payload))))
        else None
    case DoubleType => if isDouble(payload) then Some(JsDouble(payload)) else None
    case Utf8Type => if Receivable(payload) then Some(JsString(FromHex(payload))) else None
    case BytesType => if IsHex(payload) then Some(JsBytes(Upper(payload))) else None
    case _ => None
  }

  /** parseQueryValueField */
  function CellValue(field: Text, isDouble: Text -> bool): Option<Js> {
    var split := Find(field, COLON, 0);
    if split == 0 || split == |field| || !Canonical(field[..split]) || ValueOf(field[..split]) > 8 then None
    else StoreValue(TypeOf(ValueOf(field[..split])), field[split + 1..], isDouble)
  }

  method DecodeStoreValue(t: ValueType, payload: Text, isDouble: Text -> bool) returns (value: Option<Js>)
    ensures value == StoreValue(t, payload, isDouble)
  {
    match t
    case NullType => return Some(JsNull);
    case BoolType => return if payload == [48] then Some(JsBool(false)) else if payload == [49] then Some(JsBool(true))
        else None;
    case Int32Type => return if SignedSyntax(payload) && InInt32(IntOf(payload)) then Some(JsInteger(IntOf(payload)))
        else None;
    case Int64Type =>
      var text := CanonicalInt64(payload);
      return if text.Some? then Some(JsInt64(text.value)) else None;
    case DoubleType => return if isDouble(payload) then Some(JsDouble(payload)) else None;
    case Utf8Type =>
      var text := TextCodec.Utf8FromHex(payload);
      return if text.Some? then Some(JsString(text.value)) else None;
    case BytesType => return if IsHex(payload) then Some(JsBytes(Upper(payload))) else None;
    case _ => return None;
  }

  method ParseField(field: Text, isDouble: Text -> bool) returns (value: Option<Js>)
    ensures value == CellReader(isDouble)(field)
  {
    var split := Find(field, COLON, 0);
    if split == 0 || split == |field| {
      return None;
    }
    if !Canonical(field[..split]) || ValueOf(field[..split]) > 8 {
      return None;
    }
    value := DecodeStoreValue(TypeOf(ValueOf(field[..split])), field[split + 1..], isDouble);
  }

  function CellReader(isDouble: Text -> bool): Text -> Option<Js> {
    (field: Text) => CellValue(field, isDouble)
  }

  function LineValues(line: Text, columns: nat, isDouble: Text -> bool): Option<seq<Js>> {
    if |line| < 2 || line[..2] != [82, COLON] then None
    else
      var fields := Split(line[2..], BAR);
      if |fields| != columns then None else MapAll(CellReader(isDouble), fields)
  }

  function LineReader(columns: nat, isDouble: Text -> bool): Text -> Option<seq<Js>> {
    (line: Text) => LineValues(line, columns, isDouble)
  }

  method ParseLine(line: Text, columns: nat, isDouble: Text -> bool) returns (row: Option<seq<Js>>)
    ensures row == LineReader(columns, isDouble)(line)
  {
    if |line| < 2 || line[..2] != [82, COLON] {
      return None;
    }
    var fields := Split(line[2..], BAR);
    if |fields| != columns {
      return None;
    }
    ghost var f := CellReader(isDouble);
    var values: seq<Js> := [];
    for j := 0 to |fields|
      invariant MapAll(f, fields[..j]) == Some(values)
    {
      var value := ParseField(fields[j], isDouble);
      MapAllStep(f, fields, j);
      if value.None? {
        MapAllFails(f, fields, j);
        return None;
      }
      values := values + [value.value];
    }
    assert fields[..|fields|] == fields;
    row := Some(values);
  }

  function NonEmpty(lines: seq<Text>): seq<Text> {
    if lines == [] then []
    else NonEmpty(lines[..|lines| - 1]) + if lines[|lines| - 1] == [] then [] else [lines[|lines| - 1]]
  }

  method ParseLines(lines: seq<Text>, columns: nat, isDouble: Text -> bool) returns (rows: Option<seq<seq<Js>>>)
    ensures rows == MapAll(LineReader(columns, isDouble), NonEmpty(lines))
  {
    ghost var f := LineReader(columns, isDouble);
    var done: seq<seq<Js>> := [];
    for i := 0 to |lines|
      invariant MapAll(f, NonEmpty(lines[..i])) == Some(done)
    {
      assert lines[..i + 1][..i] == lines[..i];
      if |lines[i]| > 0 {
        var row := ParseLine(lines[i], columns, isDouble);
        NonEmptyStep(f, lines, i);
        if row.None? {
          return None;
        }
        done := done + [row.value];
      } else {
        assert NonEmpty(lines[..i + 1]) == NonEmpty(lines[..i]) + [] == NonEmpty(lines[..i]);
      }
    }
    assert lines[..|lines|] == lines;
    rows := Some(done);
  }

  lemma NonEmptyStep(f: Text -> Option<seq<Js>>, lines: seq<Text>, i: nat)
    requires i < |lines| && lines[i] != []
    ensures MapAll(f, NonEmpty(lines[..i + 1]))
            == if MapAll(f, NonEmpty(lines[..i])).None? || f(lines[i]).None? then None
               else Some(MapAll(f, NonEmpty(lines[..i])).value + [f(lines[i]).value])
    ensures f(lines[i]).None? ==> MapAll(f, NonEmpty(lines)).None?
  {
    var front := NonEmpty(lines[..i]);
    assert lines[..i + 1][..i] == lines[..i];
    assert NonEmpty(lines[..i + 1]) == front + [lines[i]];
    assert (front + [lines[i]])[..|front|] == front;
    if f(lines[i]).None? {
      NonEmptyKeeps(lines, i);
      MapAllFails(f, NonEmpty(lines), |front|);
    }
  }

  lemma {:induction false} NonEmptyKeeps(lines: seq<Text>, i: nat)
    requires i < |lines| && lines[i] != []
    ensures |NonEmpty(lines[..i])| < |NonEmpty(lines)| && NonEmpty(lines)[|NonEmpty(lines[..i])|] == lines[i]
  {
    var n := |lines| - 1;
    if i < n {
      NonEmptyKeeps(lines[..n], i);
      assert lines[..n][..i] == lines[..i];
    }
  }

  function NameReader(): Text -> Option<Text> {
    (field: Text) => if Receivable(field) then Some(FromHex(field)) else None
  }

  /** The column names after "N:". */
  function ColumnsOf(namesLine: Text, count: nat): Option<seq<Text>> {
    if count == 0 then if namesLine == [] then Some([]) else None
    else
      var fields := Split(namesLine, BAR);
      if |fields| != count then None else MapAll(NameReader(), fields)
  }

  method ParseColumns(namesLine: Text, count: nat) returns (columns: Option<seq<Text>>)
    ensures columns == ColumnsOf(namesLine, count)
  {
    if count == 0 {
      return if |namesLine| == 0 then Some([]) else None;
    }
    var fields := Split(namesLine, BAR);
    if |fields| != count {
      return None;
    }
    ghost var f := NameReader();
    var done: seq<Text> := [];
    for i := 0 to |fields|
      invariant MapAll(f, fields[..i]) == Some(done)
    {
      var name := TextCodec.Utf8FromHex(fields[i]);
      MapAllStep(f, fields, i);
      if name.None? {
        MapAllFails(f, fields, i);
        return None;
      }
      done := done + [name.value];
    }
    assert fields[..|fields|] == fields;
    columns := Some(done);
  }

  datatype Result = Result(columns: seq<Text>, rows: seq<seq<Js>>, returned: nat, total: Text, changes: Text,
                           truncated: bool)

  datatype Header = Header(columns: nat, returned: nat, total: Text, changes: Text, truncated: bool)

  function Bounded(text: Text, maximum: nat): Option<nat> {
    if Canonical(text) && ValueOf(text) <= maximum then Some(ValueOf(text)) else None
  }

  /** The first line, checked field by field. */
  function HeaderOf(line: Text): Option<Header> {
    if |line| < 3 || line[..3] != [81, 49, 58] then None
    else
      var f := Split(line[3..], COLON);
      if |f| != 5 then None
      else
        var columns, returned := Bounded(f[0], COLUMN_MAX), Bounded(f[1], ROW_MAX);
        if columns.None? || returned.None? || Bounded(f[2], REVISION_MAX).None? || Bounded(f[3], REVISION_MAX).None?
            then None
        else if f[4] != [48] && f[4] != [49] then None
        else Some(Header(columns.value, returned.value, f[2], f[3], f[4] == [49]))
  }

  /** canonicalUnsigned, with the greatest revision as its limit. */
  method CanonicalRevision(text: Text) returns (result: Option<Text>)
    ensures result == if Bounded(text, REVISION_MAX).Some? then Some(text) else None
  {
    PrintIsCanonical(REVISION_MAX);
    result := CanonicalUnsigned(text, MAX_REVISION_TEXT);
  }

  method ParseHeader(line: Text) returns (header: Option<Header>)
    ensures header == HeaderOf(line)
  {
    if |line| < 3 || line[..3] != [81, 49, 58] {
      return None;
    }
    var f := Split(line[3..], COLON);
    if |f| != 5 {
      return None;
    }
    var total := CanonicalRevision(f[2]);
    var changes := CanonicalRevision(f[3]);
    var columns, returned := Bounded(f[0], COLUMN_MAX), Bounded(f[1], ROW_MAX);
    if columns.None? || returned.None? || total.None? || changes.None? || (f[4] != [48] && f[4] != [49]) {
      return None;
    }
    header := Some(Header(columns.value, returned.value, total.value, changes.value, f[4] == [49]));
  }

  function ResultOf(lines: seq<Text>, isDouble: Text -> bool): Option<Result>
    requires lines != []
  {
    var h := HeaderOf(lines[0]);
    if h.None? || |lines| < 2 || |lines[1]| < 2 || lines[1][..2] != [78, COLON] then None
    else
      var columns := ColumnsOf(lines[1][2..], h.value.columns);
      var rows := MapAll(LineReader(h.value.columns, isDouble), NonEmpty(lines[2..]));
      if columns.None? || rows.None? || |rows.value| != h.value.returned then None
      else Some(Result(columns.value, rows.value, h.value.returned, h.value.total, h.value.changes, h.value.truncated))
  }

  /** parseQueryResultWire */
  method ParseQueryResultWire(wire: Text, isDouble: Text -> bool) returns (result: Option<Result>)
    ensures result == ResultOf(Split(wire, NEWLINE), isDouble)
  {
    var lines := Split(wire, NEWLINE);
    var h := ParseHeader(lines[0]);
    if h.None? || |lines| < 2 || |lines[1]| < 2 || lines[1][..2] != [78, COLON] {
      return None;
    }
    var columns := ParseColumns(lines[1][2..], h.value.columns);
    if columns.None? {
      return None;
    }
    var rows := ParseLines(lines[2..], h.value.columns, isDouble);
    if rows.None? || |rows.value| != h.value.returned {
      return None;
    }
    result := Some(Result(columns.value, rows.value, h.value.returned, h.value.total, h.value.changes,
        h.value.truncated));
  }

  // ---- whatever the reply says ----

  /** A value that scripts can be handed: what its constructors guarantee. */
  predicate Handed(v: Js, isDouble: Text -> bool) {
    match v
    case JsNull => true
    case JsBool(_) => true
    case JsInteger(n) => InInt32(n)
    case JsInt64(t) => CanonicalSigned(t) && InInt64(IntOf(t))
    case JsDouble(t) => isDouble(t)
    case JsString(s) => Transportable(s)
    case JsBytes(h) => IsHex(h) && Upper(h) == h
    case _ => false
  }

  lemma UpperOnce(hex: Text)
    requires IsHex(hex)
    ensures IsHex(Upper(hex)) && Upper(Upper(hex)) == Upper(hex)
  {
    BytesRoundTrip(hex);
    UpperHex(BytesOf(hex));
  }

  lemma StoreValueIsHanded(t: ValueType, payload: Text, isDouble: Text -> bool)
    requires StoreValue(t, payload, isDouble).Some?
    ensures Handed(StoreValue(t, payload, isDouble).value, isDouble)
  {
    match t
    case Int64Type => PrintIntIsCanonical(IntOf(payload));
    case Utf8Type => HexTextRoundTrip(payload);
    case BytesType => UpperOnce(payload);
    case _ =>
  }

  lemma RowIsHanded(line: Text, columns: nat, isDouble: Text -> bool)
    requires LineReader(columns, isDouble)(line).Some?
    ensures var row := LineReader(columns, isDouble)(line).value;
            |row| == columns && forall j :: 0 <= j < |row| ==> Handed(row[j], isDouble)
  {
    var fields := Split(line[2..], BAR);
    MapAllGives(CellReader(isDouble), fields);
    forall j | 0 <= j < |fields| ensures Handed(LineReader(columns, isDouble)(line).value[j], isDouble) {
      var split := Find(fields[j], COLON, 0);
      StoreValueIsHanded(TypeOf(ValueOf(fields[j][..split])), fields[j][split + 1..], isDouble);
    }
  }

  /** A reply of any origin, if it is accepted, gives a result within the limits whose rows all fit its columns. */
  lemma AcceptedResultFits(lines: seq<Text>, isDouble: Text -> bool)
    requires lines != [] && ResultOf(lines, isDouble).Some?
    ensures var r := ResultOf(lines, isDouble).value;
            && r.returned == |r.rows| <= ROW_MAX && |r.columns| <= COLUMN_MAX
            && Canonical(r.total) && ValueOf(r.total) <= REVISION_MAX
            && Canonical(r.changes) && ValueOf(r.changes) <= REVISION_MAX
            && (forall i :: 0 <= i < |r.columns| ==> Transportable(r.columns[i]))
            && (forall i :: 0 <= i < |r.rows| ==>
                  |r.rows[i]| == |r.columns| && forall j :: 0 <= j < |r.rows[i]| ==> Handed(r.rows[i][j], isDouble))
  {
    var h, r := HeaderOf(lines[0]).value, ResultOf(lines, isDouble).value;
    var rowLines := NonEmpty(lines[2..]);
    ColumnsAreHanded(lines[1][2..], h.columns);
    MapAllGives(LineReader(h.columns, isDouble), rowLines);
    forall i | 0 <= i < |r.rows|
      ensures |r.rows[i]| == |r.columns| && forall j :: 0 <= j < |r.rows[i]| ==> Handed(r.rows[i][j], isDouble)
    {
      RowIsHanded(rowLines[i], h.columns, isDouble);
    }
  }

  lemma ColumnsAreHanded(namesLine: Text, count: nat)
    requires ColumnsOf(namesLine, count).Some?
    ensures var columns := ColumnsOf(namesLine, count).value;
            |columns| == count && forall i :: 0 <= i < |columns| ==> Transportable(columns[i])
  {
    if count > 0 {
      var fields := Split(namesLine, BAR);
      MapAllGives(NameReader(), fields);
      forall i | 0 <= i < |fields| ensures Transportable(ColumnsOf(namesLine, count).value[i]) {
        HexTextRoundTrip(fields[i]);
      }
    }
  }

  // ---- the round trip ----

  /** What the facade should hand out for a value. */
  function Meant(v: Value, printDouble: DoublePrinter): Js
    requires Sendable(v)
  {
    match v.valueType
    case NullType => JsNull
    case BoolType => JsBool(v.payload[0] != 0)
    case Int32Type => JsInteger(IntegerIn(v.payload))
    case Int64Type => JsInt64(PrintInt(IntegerIn(v.payload)))
    case DoubleType => JsDouble(printDouble(v.payload))
    case Utf8Type => JsString(DecodeFrom(v.payload, 0))
    case _ => JsBytes(HexOf(v.payload))
  }

  /**
   What a caller makes of what it is handed for a value: an integer has the payload for its two's complement, a string
   encodes to it, hex is its octets.
   */
  ghost predicate Shows(v: Value, js: Js, printDouble: DoublePrinter) {
    match v.valueType
    case NullType => js == JsNull
    case BoolType => |v.payload| == 1 && js == JsBool(v.payload[0] != 0)
    case Int32Type => js.JsInteger? && InInt32(js.number) && (LittleEndian(v.payload) - js.number) % 0x1_0000_0000 == 0
    case Int64Type =>
      && js.JsInt64? && CanonicalSigned(js.text) && InInt64(IntOf(js.text))
      && (LittleEndian(v.payload) - IntOf(js.text)) % TWO_64 == 0
    case DoubleType => js == JsDouble(printDouble(v.payload))
    case Utf8Type => js.JsString? && Transportable(js.text) && EncodeFrom(js.text, 0) == v.payload
    case BytesType => js.JsBytes? && IsHex(js.hex) && Upper(js.hex) == js.hex && BytesOf(js.hex) == v.payload
    case _ => false
  }

  lemma MeantShows(v: Value, printDouble: DoublePrinter)
    requires Sendable(v)
    ensures Shows(v, Meant(v, printDouble), printDouble)
  {
    match v.valueType
    case Int32Type => IntegerPayload(v.payload);
    case Int64Type =>
      IntegerPayload(v.payload);
      PrintIntIsCanonical(IntegerIn(v.payload));
    case Utf8Type => WellFormedText(v.payload);
    case BytesType =>
      UpperHex(v.payload);
      HexRoundTrip(v.payload);
    case _ =>
  }

  /** Every 64-bit integer that is sent is handed out as its own text. */
  lemma Int64Arrives(n: int, js: Js, printDouble: DoublePrinter)
    requires InInt64(n) && Shows(Value(Int64Type, Payload(ToUnsigned(n), 8)), js, printDouble)
    ensures js == JsInt64(PrintInt(n))
  {
    Pow256Of8();
    ReadsBack(ToUnsigned(n), 8);
    SameResidue(ToUnsigned(n), n, IntOf(js.text));
    SignedIsPrinted(js.text);
  }

  lemma SameResidue(u: nat, m: int, n: int)
    requires InInt64(m) && InInt64(n) && (u - m) % TWO_64 == 0 && (u - n) % TWO_64 == 0
    ensures m == n
  {
    var a, b := (u - m) / TWO_64, (u - n) / TWO_64;
    assert u - m == a * TWO_64 && u - n == b * TWO_64;
  }

  /** Every 32-bit integer that is sent is handed out as that number. */
  lemma Int32Arrives(n: int, payload: seq<byte>, js: Js, printDouble: DoublePrinter)
    requires InInt32(n) && (LittleEndian(payload) - n) % 0x1_0000_0000 == 0
    requires Shows(Value(Int32Type, payload), js, printDouble)
    ensures js == JsInteger(n)
  {
    SameResidue32(LittleEndian(payload), n, js.number);
  }

  lemma SameResidue32(u: nat, m: int, n: int)
    requires InInt32(m) && InInt32(n) && (u - m) % 0x1_0000_0000 == 0 && (u - n) % 0x1_0000_0000 == 0
    ensures m == n
  {
    var a, b := (u - m) / 0x1_0000_0000, (u - n) / 0x1_0000_0000;
    assert u - m == a * 0x1_0000_0000 && u - n == b * 0x1_0000_0000;
  }

  // ---- what goes in comes out ----

  predicate Plain(t: ValueType) {
    t.NullType? || t.BoolType? || t.Int32Type? || t.Int64Type? || t.Utf8Type? || t.BytesType?
  }

  lemma Integer32Text(n: int)
    requires InInt32(n)
    ensures IntegerIn(Payload(Unsigned32(n), 4)) == n
  {
    var payload := Payload(Unsigned32(n), 4);
    assert Pow256(2) == 0x1_0000;
    assert Pow256(4) == 0x1_0000_0000;
    ReadsBack(Unsigned32(n), 4);
    IntegerPayload(payload);
  }

  lemma Integer64Text(n: int)
    requires InInt64(n)
    ensures IntegerIn(Payload(ToUnsigned(n), 8)) == n
  {
    var payload := Payload(ToUnsigned(n), 8);
    Pow256Of8();
    ReadsBack(ToUnsigned(n), 8);
    IntegerPayload(payload);
    SameResidue(ToUnsigned(n), n, IntegerIn(payload));
  }

  /** A text that the adapter takes for a value is what it prints for that value, but for the case of hex. */
  lemma TextOfParsed(t: ValueType, text: Text, readDouble: Text -> Option<seq<byte>>, printDouble: DoublePrinter)
    requires Plain(t) && ParsePayload(t, text, readDouble).Some?
    ensures var v := ParsePayload(t, text, readDouble).value;
            && v.valueType == t && Sendable(v)
            && PayloadText(v, printDouble) == if t.Utf8Type? || t.BytesType? then Upper(text) else text
  {
    match t
    case Int32Type =>
      Integer32Text(IntOf(text));
      SignedIsPrinted(text);
    case Int64Type =>
      Integer64Text(IntOf(text));
      SignedIsPrinted(text);
    case Utf8Type => BytesRoundTrip(text);
    case BytesType => BytesRoundTrip(text);
    case _ =>
  }

  /** And every value it prints it takes back from that text. */
  lemma ParsedText(v: Value, readDouble: Text -> Option<seq<byte>>, printDouble: DoublePrinter)
    requires Sendable(v) && Plain(v.valueType) && (v.valueType.BoolType? ==> v.payload[0] <= 1)
    ensures ParsePayload(v.valueType, PayloadText(v, printDouble), readDouble) == Some(v)
  {
    match v.valueType
    case BoolType => assert v.payload == [v.payload[0]];
    case Int32Type =>
      IntegerPayload(v.payload);
      PrintIntIsCanonical(IntegerIn(v.payload));
      WritesBack(v.payload);
      SamePayload32(v.payload);
    case Int64Type =>
      IntegerPayload(v.payload);
      PrintIntIsCanonical(IntegerIn(v.payload));
      WritesBack(v.payload);
    case Utf8Type => HexRoundTrip(v.payload);
    case BytesType => HexRoundTrip(v.payload);
    case _ =>
  }

  lemma SamePayload32(payload: seq<byte>)
    requires |payload| == 4
    ensures LittleEndian(payload) < 0x1_0000_0000 && Unsigned32(IntegerIn(payload)) == LittleEndian(payload)
  {
    IntegerPayload(payload);
    var u, w := LittleEndian(payload), Unsigned32(IntegerIn(payload));
    var a, b := (u - IntegerIn(payload)) / 0x1_0000_0000, (w - IntegerIn(payload)) / 0x1_0000_0000;
    assert u - IntegerIn(payload) == a * 0x1_0000_0000 && w - IntegerIn(payload) == b * 0x1_0000_0000;
  }

  /** What a caller gets who selects a parameter back: a whole number beyond 32 bits has become an ESDB.Int64. */
  function Selected(v: Js): Js {
    if v.JsInteger? && !InInt32(v.number) then JsInt64(PrintInt(v.number)) else v
  }

  /** A parameter that is bound and selected back is itself. */
  lemma BoundAndSelected(v: Js, readDouble: Text -> Option<seq<byte>>, printDouble: DoublePrinter)
    requires Constructible(v) && Native(v, readDouble).Some? && !v.JsDouble?
    ensures var bound := Native(v, readDouble).value;
            Sendable(bound) && Meant(bound, printDouble) == Selected(v)
  {
    match v
    case JsInt64(t) =>
      Integer64Text(IntOf(t));
      SignedIsPrinted(t);
    case JsInteger(n) =>
      if InInt32(n) {
        Integer32Text(n);
      } else {
        Integer64Text(n);
      }
    case JsString(s) => PairedText(s);
    case JsBytes(h) => BytesRoundTrip(h);
    case _ =>
  }

  /** The rows handed out are, value by value, those that were sent. */
  ghost predicate RowsShow(rows: seq<seq<Value>>, shown: seq<seq<Js>>, printDouble: DoublePrinter) {
    && |shown| == |rows|
    && forall i :: 0 <= i < |rows| ==> RowShows(rows[i], shown[i], printDouble)
  }

  ghost predicate RowShows(row: seq<Value>, shown: seq<Js>, printDouble: DoublePrinter) {
    |shown| == |row| && forall j :: 0 <= j < |row| ==> Shows(row[j], shown[j], printDouble)
  }

  /** The columns handed out encode to the names SQLite gave. */
  ghost predicate NamesShow(names: seq<seq<byte>>, shown: seq<Text>) {
    && |shown| == |names|
    && forall i :: 0 <= i < |names| ==> Transportable(shown[i]) && EncodeFrom(shown[i], 0) == names[i]
  }

  lemma MeantRowsShow(rows: seq<seq<Value>>, printDouble: DoublePrinter)
    requires SendableRows(rows)
    ensures RowsShow(rows, MeantRows(rows, printDouble), printDouble)
  {
    forall i | 0 <= i < |rows| ensures RowShows(rows[i], MeantRows(rows, printDouble)[i], printDouble) {
      forall j | 0 <= j < |rows[i]| ensures Shows(rows[i][j], MeantRow(rows[i], printDouble)[j], printDouble) {
        MeantShows(rows[i][j], printDouble);
      }
    }
  }

  lemma MeantNamesShow(names: seq<seq<byte>>)
    requires ReadableNames(names)
    ensures NamesShow(names, MeantNames(names))
  {
    forall i | 0 <= i < |names|
      ensures Transportable(MeantNames(names)[i]) && EncodeFrom(MeantNames(names)[i], 0) == names[i]
    {
      WellFormedText(names[i]);
    }
  }

  /** All that is assumed of DOUBLE texts: they stay within their cell and the facade takes them for numbers. */
  ghost predicate Clean(printDouble: DoublePrinter, isDouble: Text -> bool) {
    forall b :: |b| == 8 ==> CellText(printDouble(b)) && isDouble(printDouble(b))
  }

  predicate CellText(t: Text) { Free(t, BAR) && Free(t, NEWLINE) }

  lemma HexCellText(b: seq<byte>)
    ensures CellText(HexOf(b))
  {
    HexIsFree(b, BAR);
    HexIsFree(b, NEWLINE);
  }

  lemma IntegerCellText(n: int)
    ensures CellText(PrintInt(n))
  {
    DecimalIsFree(n, BAR);
    DecimalIsFree(n, NEWLINE);
  }

  lemma CellIsClean(v: Value, printDouble: DoublePrinter, isDouble: Text -> bool)
    requires Sendable(v) && Clean(printDouble, isDouble)
    ensures CellText(Cell(v, printDouble))
  {
    match v.valueType
    case Int32Type => IntegerCellText(IntegerIn(v.payload));
    case Int64Type => IntegerCellText(IntegerIn(v.payload));
    case Utf8Type => HexCellText(v.payload);
    case BytesType => HexCellText(v.payload);
    case _ =>
  }

  lemma UpperHex(b: seq<byte>)
    ensures IsHex(HexOf(b)) && Upper(HexOf(b)) == HexOf(b)
  {
    HexRoundTrip(b);
    BytesRoundTrip(HexOf(b));
  }

  lemma PayloadSurvives(v: Value, printDouble: DoublePrinter, isDouble: Text -> bool)
    requires Sendable(v) && Clean(printDouble, isDouble)
    ensures StoreValue(v.valueType, PayloadText(v, printDouble), isDouble) == Some(Meant(v, printDouble))
  {
    match v.valueType
    case Int32Type => PrintIntIsCanonical(IntegerIn(v.payload));
    case Int64Type => PrintIntIsCanonical(IntegerIn(v.payload));
    case Utf8Type => HexRoundTrip(v.payload);
    case BytesType => UpperHex(v.payload);
    case _ =>
  }

  lemma CellSurvives(v: Value, printDouble: DoublePrinter, isDouble: Text -> bool)
    requires Sendable(v) && Clean(printDouble, isDouble)
    ensures CellReader(isDouble)(Cell(v, printDouble)) == Some(Meant(v, printDouble))
  {
    var payload := PayloadText(v, printDouble);
    PayloadSurvives(v, printDouble, isDouble);
    CellParts(v.valueType, payload, isDouble);
    assert Cell(v, printDouble) == [48 + TypeNumber(v.valueType), COLON] + payload;
  }

  lemma CellParts(t: ValueType, payload: Text, isDouble: Text -> bool)
    ensures CellReader(isDouble)([48 + TypeNumber(t), COLON] + payload) == StoreValue(t, payload, isDouble)
  {
    var n := TypeNumber(t);
    var cell := [48 + n, COLON] + payload;
    assert cell[0] == 48 + n && cell[1] == COLON;
    assert Find(cell, COLON, 0) == 1;
    assert cell[..1] == [48 + n] && cell[2..] == payload;
    DigitText(n);
  }

  function MeantRow(row: seq<Value>, printDouble: DoublePrinter): (meant: seq<Js>)
    requires SendableRow(row)
    ensures |meant| == |row| && forall i :: 0 <= i < |row| ==> meant[i] == Meant(row[i], printDouble)
  {
    seq(|row|, i requires 0 <= i < |row| => Meant(row[i], printDouble))
  }

  lemma RowSurvives(row: seq<Value>, printDouble: DoublePrinter, isDouble: Text -> bool)
    requires SendableRow(row) && row != [] && Clean(printDouble, isDouble)
    ensures LineReader(|row|, isDouble)(RowLine(row, printDouble)) == Some(MeantRow(row, printDouble))
    ensures Free(RowLine(row, printDouble), NEWLINE)
  {
    var cells, line := Cells(row, printDouble), RowLine(row, printDouble);
    forall i | 0 <= i < |row| ensures CellText(cells[i])
        && CellReader(isDouble)(cells[i]) == Some(MeantRow(row, printDouble)[i]) {
      CellIsClean(row[i], printDouble, isDouble);
      CellSurvives(row[i], printDouble, isDouble);
    }
    CellsSurvive(cells, MeantRow(row, printDouble), isDouble, [82, COLON]);
  }

  /** Joining cells behind a prefix and splitting them off again. */
  lemma CellsSurvive(cells: seq<Text>, values: seq<Js>, isDouble: Text -> bool, prefix: Text)
    requires cells != [] && |cells| == |values| && prefix == [82, COLON]
    requires forall i :: 0 <= i < |cells| ==> CellText(cells[i]) && CellReader(isDouble)(cells[i]) == Some(values[i])
    ensures LineReader(|cells|, isDouble)(prefix + Join(cells, BAR)) == Some(values)
    ensures Free(prefix + Join(cells, BAR), NEWLINE)
  {
    var line := prefix + Join(cells, BAR);
    assert line[..2] == prefix && line[2..] == Join(cells, BAR);
    SplitJoin(cells, BAR);
    MapAllSucceeds(CellReader(isDouble), cells, values);
    JoinIsFree(cells, BAR, NEWLINE);
  }

  lemma {:induction false} JoinIsFree(pieces: seq<Text>, sep: unit, c: unit)
    requires AllFree(pieces, c) && sep != c
    ensures Free(Join(pieces, sep), c)
  {
    if |pieces| > 1 {
      JoinIsFree(pieces[1..], sep, c);
    }
  }

  predicate ReadableNames(names: seq<seq<byte>>) {
    forall i :: 0 <= i < |names| ==> Utf8.WellFormed(names[i])
  }

  function MeantNames(names: seq<seq<byte>>): (meant: seq<Text>)
    requires ReadableNames(names)
    ensures |meant| == |names| && forall i :: 0 <= i < |names| ==> meant[i] == DecodeFrom(names[i], 0)
  {
    seq(|names|, i requires 0 <= i < |names| => DecodeFrom(names[i], 0))
  }

  lemma NamesSurvive(names: seq<seq<byte>>)
    requires ReadableNames(names)
    ensures ColumnsOf(NamesLine(names)[2..], |names|) == Some(MeantNames(names))
    ensures NamesLine(names)[..2] == [78, COLON] && Free(NamesLine(names), NEWLINE)
  {
    var hex := HexNames(names);
    assert NamesLine(names)[2..] == Join(hex, BAR);
    forall i | 0 <= i < |names| ensures CellText(hex[i]) && NameReader()(hex[i]) == Some(MeantNames(names)[i]) {
      HexCellText(names[i]);
      HexRoundTrip(names[i]);
    }
    JoinIsFree(hex, BAR, NEWLINE);
    if names == [] {
      assert MeantNames(names) == [];
    } else {
      SplitJoin(hex, BAR);
      MapAllSucceeds(NameReader(), hex, MeantNames(names));
    }
  }

  lemma CountSurvives(n: nat, maximum: nat)
    requires n <= maximum
    ensures Bounded(Print(n), maximum) == Some(n) && Free(Print(n), COLON) && Free(Print(n), NEWLINE)
  {
    PrintIsCanonical(n);
  }

  lemma HeaderSurvives(columns: nat, returned: nat, total: nat, changes: nat)
    requires columns <= COLUMN_MAX && returned <= ROW_MAX && total <= REVISION_MAX && changes <= REVISION_MAX
    ensures HeaderOf(HeaderLine(columns, returned, total, changes))
            == Some(Header(columns, returned, Print(total), Print(changes), returned < total))
    ensures Free(HeaderLine(columns, returned, total, changes), NEWLINE)
  {
    var line, f := HeaderLine(columns, returned, total, changes), HeaderFields(columns, returned, total, changes);
    CountSurvives(columns, COLUMN_MAX);
    CountSurvives(returned, ROW_MAX);
    CountSurvives(total, REVISION_MAX);
    CountSurvives(changes, REVISION_MAX);
    assert AllFree(f, COLON) && AllFree(f, NEWLINE);
    assert line[..3] == [81, 49, 58] && line[3..] == Join(f, COLON);
    SplitJoin(f, COLON);
    JoinIsFree(f, COLON, NEWLINE);
  }

  function MeantRows(rows: seq<seq<Value>>, printDouble: DoublePrinter): (meant: seq<seq<Js>>)
    requires SendableRows(rows)
    ensures |meant| == |rows| && forall i :: 0 <= i < |rows| ==> meant[i] == MeantRow(rows[i], printDouble)
  {
    seq(|rows|, i requires 0 <= i < |rows| => MeantRow(rows[i], printDouble))
  }

  lemma {:induction false} AllNonEmpty(lines: seq<Text>)
    requires forall i :: 0 <= i < |lines| ==> lines[i] != []
    ensures NonEmpty(lines) == lines && NonEmpty(lines + [[]]) == lines
  {
    if lines != [] {
      AllNonEmpty(lines[..|lines| - 1]);
    }
    assert (lines + [[]])[..|lines|] == lines;
  }

  lemma RowsSurvive(rows: seq<seq<Value>>, columns: nat, printDouble: DoublePrinter, isDouble: Text -> bool)
    requires SendableRows(rows) && Clean(printDouble, isDouble)
    requires columns > 0 && forall i :: 0 <= i < |rows| ==> |rows[i]| == columns
    ensures MapAll(LineReader(columns, isDouble), NonEmpty(RowLines(rows, printDouble) + [[]]))
            == Some(MeantRows(rows, printDouble))
    ensures AllFree(RowLines(rows, printDouble), NEWLINE)
  {
    var lines := RowLines(rows, printDouble);
    forall i | 0 <= i < |rows|
      ensures lines[i] != [] && Free(lines[i], NEWLINE)
              && LineReader(columns, isDouble)(lines[i]) == Some(MeantRows(rows, printDouble)[i])
    {
      RowSurvives(rows[i], printDouble, isDouble);
    }
    AllNonEmpty(lines);
    MapAllSucceeds(LineReader(columns, isDouble), lines, MeantRows(rows, printDouble));
  }

  lemma NoRowsSurvive(columns: nat, printDouble: DoublePrinter, isDouble: Text -> bool)
    ensures MapAll(LineReader(columns, isDouble), NonEmpty(RowLines([], printDouble) + [[]]))
            == Some(MeantRows([], printDouble))
  {
    assert RowLines([], printDouble) == [];
    AllNonEmpty([]);
  }

  /** The facade recovers the columns, the rows that were sent, and all the counts. */
  lemma ReplyIsRead(names: seq<seq<byte>>, sent: seq<seq<Value>>, total: nat, changes: nat, printDouble: DoublePrinter,
                    isDouble: Text -> bool)
    requires ReadableNames(names) && SendableRows(sent) && Clean(printDouble, isDouble)
    requires |names| <= COLUMN_MAX && |sent| <= ROW_MAX && total <= REVISION_MAX && changes <= REVISION_MAX
    requires forall i :: 0 <= i < |sent| ==> |sent[i]| == |names|
    requires names == [] ==> sent == []
    ensures ResultOf(Split(Terminated(AllLines(names, sent, total, changes, printDouble)), NEWLINE), isDouble)
            == Some(Result(MeantNames(names), MeantRows(sent, printDouble), |sent|, Print(total), Print(changes),
                |sent| < total))
  {
    var lines := AllLines(names, sent, total, changes, printDouble);
    HeaderSurvives(|names|, |sent|, total, changes);
    NamesSurvive(names);
    if sent == [] {
      NoRowsSurvive(|names|, printDouble, isDouble);
    } else {
      RowsSurvive(sent, |names|, printDouble, isDouble);
    }
    LinesAreRead(lines[0], lines[1], RowLines(sent, printDouble), isDouble,
                 Result(MeantNames(names), MeantRows(sent, printDouble), |sent|, Print(total), Print(changes),
                     |sent| < total));
  }

  lemma AfterTwo(header: Text, names: Text, rest: seq<Text>)
    ensures var pieces := [header, names] + rest; pieces[0] == header && pieces[1] == names && pieces[2..] == rest
  {
  }

  /** Lines that can each be read make a reply that can. */
  lemma LinesAreRead(header: Text, names: Text, rowLines: seq<Text>, isDouble: Text -> bool, result: Result)
    requires Free(header, NEWLINE) && Free(names, NEWLINE) && AllFree(rowLines, NEWLINE)
    requires HeaderOf(header) == Some(Header(|result.columns|, result.returned, result.total, result.changes,
             result.truncated))
    requires |names| >= 2 && names[..2] == [78, COLON]
             && ColumnsOf(names[2..], |result.columns|) == Some(result.columns)
    requires MapAll(LineReader(|result.columns|, isDouble), NonEmpty(rowLines + [[]])) == Some(result.rows)
    requires |result.rows| == result.returned
    ensures ResultOf(Split(Terminated([header, names] + rowLines), NEWLINE), isDouble) == Some(result)
  {
    var lines := [header, names] + rowLines;
    SplitTerminated(lines);
    var pieces := lines + [[]];
    assert pieces == [header, names] + (rowLines + [[]]);
    AfterTwo(header, names, rowLines + [[]]);
    PiecesAreRead(pieces, isDouble, result);
  }

  lemma PiecesAreRead(pieces: seq<Text>, isDouble: Text -> bool, result: Result)
    requires |pieces| >= 2 && |result.rows| == result.returned
    requires HeaderOf(pieces[0]) == Some(Header(|result.columns|, result.returned, result.total, result.changes,
             result.truncated))
    requires |pieces[1]| >= 2 && pieces[1][..2] == [78, COLON]
    requires ColumnsOf(pieces[1][2..], |result.columns|) == Some(result.columns)
    requires MapAll(LineReader(|result.columns|, isDouble), NonEmpty(pieces[2..])) == Some(result.rows)
    ensures ResultOf(pieces, isDouble) == Some(result)
  {
  }

  /**
   From SQLite's rows to the caller: the rows handed out are a prefix of the query's, `truncated` says exactly whether
   any are missing, and the reply never exceeds its limit. Column names are lost only when they could not be read
   early and no row came.
   */
  method QueryRoundTrip(names: seq<seq<byte>>, rows: seq<seq<Value>>, maxRows: nat, changes: nat, primed: bool,
                        reliable: bool, printDouble: DoublePrinter, isDouble: Text -> bool)
    returns (wire: Option<Text>, result: Option<Result>, ghost returned: nat)
    requires ReadableNames(names) && Clean(printDouble, isDouble)
    requires |names| <= COLUMN_MAX && maxRows <= ROW_MAX && |rows| <= REVISION_MAX && changes <= REVISION_MAX
    requires SendableRows(rows) && (forall i :: 0 <= i < |rows| ==> |rows[i]| == |names|)
             && (names == [] ==> rows == [])
    ensures returned <= |rows|
    ensures result.Some? <==> wire.Some?
    ensures reliable && !NamesTooLong(names) ==> result.Some?
    ensures result.Some? ==>
              && returned <= maxRows && |wire.value| <= WIRE_MAX
              && result.value.rows == MeantRows(rows[..returned], printDouble) && result.value.returned == returned
              && result.value.columns == (if primed || rows != [] then MeantNames(names) else [])
              && result.value.total == Print(|rows|) && result.value.changes == Print(changes)
              && (result.value.truncated <==> returned < |rows|)
    ensures result.Some? ==>
              && RowsShow(rows[..returned], result.value.rows, printDouble)
              && (if primed || rows != [] then NamesShow(names, result.value.columns) else result.value.columns == [])
  {
    MeantNamesShow(names);
    ghost var shown;
    wire, shown, returned := QuerySql(names, rows, maxRows, changes, primed, reliable, printDouble);
    if wire.None? {
      return None, None, returned;
    }
    ReplyIsRead(shown, rows[..returned], |rows|, changes, printDouble, isDouble);
    MeantRowsShow(rows[..returned], printDouble);
    result := ParseQueryResultWire(wire.value, isDouble);
  }
}
