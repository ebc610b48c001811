/**
 The patch packet of the memory Store: keys with typed values, a number or a text lane each. The adapter reads counts
 and types with strtoul and strtol and numbers with strtod; what those make of a text is a parameter (`Library`),
 assumed only to read back what the facade prints.
 */
module PatchPacket {
  import opened Common
  import opened Utf16
  import opened Lines
  import opened Framing
  import opened Decimal
  import opened Integers
  import opened ParameterPacket
  import TextCodec
  import Utf8

  const PATCH_MAX: nat := 1024
  const PATCH_WIRE_MAX: nat := 16 * 1024 * 1024
  const N: unit := 78
  const T: unit := 84

  /** A C double: its 64 bits, and the integer it is, if any. */
  datatype Real = Real(bits: seq<byte>, whole: Option<int>)

  datatype Library = Library(readCount: Text -> Option<nat>, readType: Text -> Option<int>,
                             readNumber: Text -> Option<Real>)

  /** The library functions read back canonical texts. */
  ghost predicate Conforms(lib: Library) {
    && (forall n: nat :: n <= PATCH_MAX ==> lib.readCount(Print(n)) == Some(n))
    && (forall n: nat :: n <= 8 ==> lib.readType(Print(n)) == Some(n))
    && (forall n: int :: InInt32(n) ==>
         lib.readNumber(PrintInt(n)).Some? && lib.readNumber(PrintInt(n)).value.whole == Some(n))
  }

  datatype PatchField = PatchField(valueType: ValueType, lane: unit, payload: Text)

  /** encodeStoreValue: unlike a SQL parameter, a whole number beyond 32 bits travels as a DOUBLE. */
  function PatchFieldOf(v: Js): Option<PatchField> {
    match v
    case JsNull => Some(PatchField(NullType, T, []))
    case JsInt64(t) => Some(PatchField(Int64Type, T, t))
    case JsBytes(h) => Some(PatchField(BytesType, T, h))
    case JsBool(flag) => Some(PatchField(BoolType, N, [if flag then 49 else 48]))
    case JsInteger(n) => Some(PatchField(if InInt32(n) then Int32Type else DoubleType, N, PrintInt(n)))
    case JsDouble(t) => Some(PatchField(DoubleType, N, t))
    case JsString(s) => if Transportable(s) then Some(PatchField(Utf8Type, T, ToHex(s))) else None
    case JsStructured(isArray, json) =>
      if Transportable(json) then Some(PatchField(if isArray then ArrayType else ObjectType, T, ToHex(json))) else None
    case JsUndefined => None
  }

  function NumberValue(t: ValueType, number: Option<Real>): Option<Value> {
    if number.None? then None
    else
      match t
      case BoolType =>
        if number.value.whole == Some(0) then Some(Value(BoolType, [0]))
        else if number.value.whole == Some(1) then Some(Value(BoolType, [1])) else None
      case Int32Type =>
        if number.value.whole.Some? && InInt32(number.value.whole.value)
        then Some(Value(Int32Type, Payload(Unsigned32(number.value.whole.value), 4))) else None
      case DoubleType => Some(Value(DoubleType, number.value.bits))
      case _ => None
  }

  /** make_text_value */
  function TextValue(t: ValueType, payload: Text): Option<Value> {
    if t.BoolType? || t.Int32Type? || t.DoubleType? then None else ParsePayload(t, payload, _ => None)
  }

  function LaneValue(t: ValueType, lane: unit, payload: Text, lib: Library): Option<Value> {
    if lane == N then NumberValue(t, lib.readNumber(payload))
    else if lane == T then TextValue(t, payload)
    else None
  }

  datatype Pair = Pair(key: seq<byte>, value: Value)

  /** The key of an entry: hex of at least one octet, none of them NUL. */
  function KeyOf(hex: Text): Option<seq<byte>> {
    if !IsHex(hex) || hex == [] || 0 in BytesOf(hex) then None else Some(BytesOf(hex))
  }

  /** One line: key, type, lane and payload between colons. */
  function ParsePair(line: Text, lib: Library): Option<Pair> {
    var first := Find(line, COLON, 0);
    if first == |line| then None
    else
      var second := Find(line, COLON, first + 1);
      if second == |line| || second == first + 1 then None
      else
        var third := Find(line, COLON, second + 1);
        if third == |line| || third != second + 2 then None
        else
          var key, number := KeyOf(line[..first]), lib.readType(line[first + 1..second]);
          if key.None? || number.None? || number.value < 0 || number.value > 8 then None
          else
            var value := LaneValue(TypeOf(number.value), line[second + 1], line[third + 1..], lib);
            if value.None? then None else Some(Pair(key.value, value.value))
  }

  /**
   A line with a colon at `first` after the key, at `second` after the number of its type, and after its lane, which is
   one character; whatever follows is the payload.
   */
  predicate Divided(line: Text, first: nat, second: nat) {
    && first + 1 < second && second + 2 < |line|
    && line[first] == COLON && line[second] == COLON && line[second + 2] == COLON
    && (forall k :: 0 <= k < first ==> line[k] != COLON)
    && (forall k :: first < k < second ==> line[k] != COLON)
    && line[second + 1] != COLON
  }

  /** The pair that such parts make, if they make one. */
  function Made(hex: Text, number: Text, lane: unit, payload: Text, lib: Library): Option<Pair> {
    var key, n := KeyOf(hex), lib.readType(number);
    if key.None? || n.None? || n.value < 0 || n.value > 8 then None
    else PairOf(key, LaneValue(TypeOf(n.value), lane, payload, lib))
  }

  /** Only such a line is accepted. */
  lemma AcceptedIsDivided(line: Text, lib: Library) returns (first: nat, second: nat)
    requires ParsePair(line, lib).Some?
    ensures Divided(line, first, second)
  {
    first := Find(line, COLON, 0);
    second := Find(line, COLON, first + 1);
  }

  /** And it is read for its parts. */
  lemma DividedIsMade(line: Text, first: nat, second: nat, lib: Library)
    requires Divided(line, first, second)
    ensures ParsePair(line, lib)
            == Made(line[..first], line[first + 1..second], line[second + 1], line[second + 3..], lib)
  {
    assert Find(line, COLON, 0) == first;
    assert Find(line, COLON, first + 1) == second;
    assert Find(line, COLON, second + 1) == second + 2;
  }

  function PairReader(lib: Library): Text -> Option<Pair> {
    (line: Text) => ParsePair(line, lib)
  }

  // ---- whole packets ----

  predicate OnlyReturns(t: Text) {
    forall i :: 0 <= i < |t| ==> t[i] == RETURN
  }

  predicate AllReturns(pieces: seq<Text>) {
    forall i :: 0 <= i < |pieces| ==> OnlyReturns(pieces[i])
  }

  predicate IsBreak(c: unit) { c == NEWLINE || c == RETURN }

  lemma {:induction false} OnlyBreaks(t: Text, from: nat)
    requires from <= |t|
    ensures AllReturns(SplitFrom(t, NEWLINE, from)) <==> forall k :: from <= k < |t| ==> IsBreak(t[k])
    decreases |t| - from
  {
    var i := Find(t, NEWLINE, from);
    PieceReturns(t, from, i);
    if i < |t| {
      OnlyBreaks(t, i + 1);
      var rest := SplitFrom(t, NEWLINE, i + 1);
      FirstReturns(t[from..i], rest);
    } else {
      assert t[from..i] == t[from..];
      assert SplitFrom(t, NEWLINE, from) == [t[from..i]] + [];
      FirstReturns(t[from..i], []);
    }
  }

  lemma PieceReturns(t: Text, from: nat, i: nat)
    requires from <= i <= |t| && Free(t[from..i], NEWLINE)
    ensures OnlyReturns(t[from..i]) <==> forall k :: from <= k < i ==> IsBreak(t[k])
  {
    assert forall k :: from <= k < i ==> t[k] == t[from..i][k - from];
    assert forall j :: 0 <= j < i - from ==> t[from..i][j] == t[from + j];
  }

  lemma FirstReturns(piece: Text, rest: seq<Text>)
    ensures AllReturns([piece] + rest) <==> OnlyReturns(piece) && AllReturns(rest)
  {
    var all := [piece] + rest;
    assert all[0] == piece && forall i :: 0 <= i < |rest| ==> rest[i] == all[i + 1];
  }

  /** A header with a count, that many entries, and nothing but line breaks of either kind after. */
  ghost predicate IsPatch(wire: Text, pairs: seq<Pair>, lib: Library) {
    var parts := Split(wire, NEWLINE);
    && |wire| <= PATCH_WIRE_MAX
    && PatchCount(parts[0], lib) == Some(|pairs|)
    && Entries(wire, pairs, PairReader(lib))
    && AllReturns(parts[|pairs| + 1..])
  }

  function PatchCount(header: Text, lib: Library): Option<nat> {
    if |header| < 3 || header[..3] != P1 then None
    else
      var count := lib.readCount(header[3..]);
      if count.Some? && count.value <= PATCH_MAX then count else None
  }

  lemma RestOfPatch(wire: Text, done: nat, cursor: nat)
    requires Ahead(wire, done, cursor)
    ensures AllReturns(Split(wire, NEWLINE)[done..]) <==> forall k :: cursor <= k < |wire| ==> IsBreak(wire[k])
  {
    OnlyBreaks(wire, cursor);
  }

  method OnlyBreaksLeft(wire: Text, start: nat) returns (only: bool)
    requires start <= |wire|
    ensures only <==> forall k :: start <= k < |wire| ==> IsBreak(wire[k])
  {
    var cursor := start;
    while cursor < |wire|
      invariant start <= cursor <= |wire|
      invariant forall k :: start <= k < cursor ==> IsBreak(wire[k])
    {
      if wire[cursor] != NEWLINE && wire[cursor] != RETURN {
        assert !IsBreak(wire[cursor]);
        return false;
      }
      cursor := cursor + 1;
    }
    only := true;
  }

  /** storePatch up to the Store call: it accepts exactly these packets, and hands on exactly their entries. */
  method ParsePatch(wire: Text, lib: Library) returns (result: Option<seq<Pair>>)
    ensures result.Some? ==> IsPatch(wire, result.value, lib)
    ensures result.None? ==> forall pairs :: !IsPatch(wire, pairs, lib)
  {
    if |wire| > PATCH_WIRE_MAX {
      return None;
    }
    ghost var parts := Split(wire, NEWLINE);
    var headerEnd := Find(wire, NEWLINE, 0);
    var header := if headerEnd == |wire| then wire else wire[..headerEnd];
    assert header == parts[0];
    var count := PatchCount(header, lib);
    if count.None? {
      return None;
    }
    var cursor := if headerEnd == |wire| then |wire| else headerEnd + 1;
    var pairs;
    pairs, cursor := ReadEntries(wire, count.value, cursor, PairReader(lib));
    if pairs.None? {
      return None;
    }
    OneList(wire, pairs.value, PairReader(lib));
    RestOfPatch(wire, count.value + 1, cursor);
    var only := OnlyBreaksLeft(wire, cursor);
    if !only {
      return None;
    }
    result := pairs;
  }

  // ---- the facade, and the round trip ----

  /** A key the facade prints: any text with an encoding but the empty one, U+0000 included. */
  predicate KeyText(key: Text) {
    key != [] && Transportable(key)
  }

  function PairText(hex: Text, f: PatchField): Text {
    hex + [COLON] + [48 + TypeNumber(f.valueType), COLON, f.lane, COLON] + f.payload
  }

  datatype KeyValue = KeyValue(key: Text, value: Js)

  predicate Patchable(e: KeyValue) {
    KeyText(e.key) && Constructible(e.value) && PatchFieldOf(e.value).Some?
  }

  function LineOf(e: KeyValue): Text
    requires Patchable(e)
  {
    PairText(ToHex(e.key), PatchFieldOf(e.value).value)
  }

  function KeyBytes(e: KeyValue): seq<byte>
    requires Patchable(e)
  {
    EncodeFrom(e.key, 0)
  }

  predicate AllPatchable(entries: seq<KeyValue>) {
    |entries| <= PATCH_MAX && forall i :: 0 <= i < |entries| ==> Patchable(entries[i])
  }

  function LinesOf(entries: seq<KeyValue>): (lines: seq<Text>)
    requires AllPatchable(entries)
    ensures |lines| == |entries| && forall i :: 0 <= i < |entries| ==> lines[i] == LineOf(entries[i])
  {
    seq(|entries|, i requires 0 <= i < |entries| => LineOf(entries[i]))
  }

  /** The packet: a header, and a line for each entry. */
  function PatchText(entries: seq<KeyValue>): Text
    requires AllPatchable(entries)
  {
    P1 + Print(|entries|) + [NEWLINE] + Join(LinesOf(entries), NEWLINE)
  }

  /** Store.patch of the facade. Keys of an object are distinct, which nothing here needs. None is an error thrown. */
  method PatchWire(entries: seq<KeyValue>) returns (wire: Option<Text>)
    requires forall i :: 0 <= i < |entries| ==> Constructible(entries[i].value)
    ensures wire.Some? <==> AllPatchable(entries)
    ensures wire.Some? ==> wire.value == PatchText(entries)
  {
    if |entries| > PATCH_MAX {
      return None;
    }
    var built: seq<Text> := [];
    for i := 0 to |entries|
      invariant |built| == i
      invariant forall k :: 0 <= k < i ==> Patchable(entries[k]) && built[k] == LineOf(entries[k])
    {
      var key := TextCodec.Utf8ToHex(entries[i].key);
      var f := PatchFieldOf(entries[i].value);
      if |entries[i].key| == 0 || key.None? || f.None? {
        assert !Patchable(entries[i]);
        return None;
      }
      built := built + [PairText(key.value, f.value)];
    }
    assert built == LinesOf(entries);
    wire := Some(P1 + Print(|entries|) + [NEWLINE] + Join(built, NEWLINE));
  }

  /** The value the Store should end up with. */
  function StoreNative(v: Js, lib: Library): Option<Value>
    requires Constructible(v)
  {
    match v
    case JsInteger(n) =>
      if InInt32(n) then Some(Value(Int32Type, Payload(Unsigned32(n), 4)))
          else NumberValue(DoubleType, lib.readNumber(PrintInt(n)))
    case JsDouble(t) => NumberValue(DoubleType, lib.readNumber(t))
    case JsStructured(isArray, json) =>
      if Transportable(json) then Some(Value(if isArray then ArrayType else ObjectType, EncodeFrom(json, 0))) else None
    case _ => Native(v, _ => None)
  }

  /**
   The entry the native side ends up with, if any: none for a key with an octet 0, which the adapter refuses, and none
   for a number that the library cannot read.
   */
  function Arriving(e: KeyValue, lib: Library): Option<Pair>
    requires Patchable(e)
  {
    PairOf(if 0 in KeyBytes(e) then None else Some(KeyBytes(e)), StoreNative(e.value, lib))
  }

  function PairOf(key: Option<seq<byte>>, value: Option<Value>): Option<Pair> {
    if key.None? || value.None? then None else Some(Pair(key.value, value.value))
  }

  /** What can be bound as a SQL parameter is stored as the same value, but for numbers beyond 32 bits. */
  lemma StoredAsBound(v: Js, lib: Library)
    requires Constructible(v) && !v.JsDouble? && !v.JsStructured? && (v.JsInteger? ==> InInt32(v.number))
    ensures StoreNative(v, lib) == Native(v, _ => None)
  {
    assert v.JsInteger? ==> StoreNative(v, lib) == Some(Value(Int32Type, Payload(Unsigned32(v.number), 4)));
  }

  /** The texts of numbers, and of whole numbers beyond 32 bits, are for the library to read. */
  predicate NumberIsRead(v: Js, lib: Library) {
    match v
    case JsDouble(t) => lib.readNumber(t).Some?
    case JsInteger(n) => InInt32(n) || lib.readNumber(PrintInt(n)).Some?
    case _ => true
  }

  /** An entry arrives if and only if its key encodes no octet 0 and its number, if it is one, can be read. */
  lemma ArrivesIff(e: KeyValue, lib: Library)
    requires Patchable(e)
    ensures Arriving(e, lib).Some? <==> 0 !in KeyBytes(e) && NumberIsRead(e.value, lib)
  {
    assert PatchFieldOf(e.value).Some?;
  }

  lemma HexTextValue(t: ValueType, s: Text)
    requires Transportable(s) && (t.Utf8Type? || t.ArrayType? || t.ObjectType?)
    ensures TextValue(t, ToHex(s)) == Some(Value(t, EncodeFrom(s, 0)))
  {
    TextRoundTrip(s);
    HexRoundTrip(EncodeFrom(s, 0));
    ReceivedValue(t, ToHex(s));
  }

  lemma ReceivedValue(t: ValueType, hex: Text)
    requires Receivable(hex) && (t.Utf8Type? || t.ArrayType? || t.ObjectType?)
    ensures TextValue(t, hex) == Some(Value(t, BytesOf(hex)))
  {
  }

  lemma NumberSurvives(v: Js, lib: Library)
    requires Conforms(lib) && Constructible(v) && (v.JsBool? || v.JsInteger? || v.JsDouble?)
    ensures NumberValue(PatchFieldOf(v).value.valueType, lib.readNumber(PatchFieldOf(v).value.payload))
            == StoreNative(v, lib)
  {
    if v.JsBool? {
      var n := if v.flag then 1 else 0;
      assert PrintInt(n) == [48 + n] && InInt32(n);
    } else if v.JsInteger? && InInt32(v.number) {
      assert lib.readNumber(PrintInt(v.number)).value.whole == Some(v.number);
    }
  }

  lemma LaneSurvives(v: Js, lib: Library)
    requires Conforms(lib) && Constructible(v) && PatchFieldOf(v).Some?
    ensures var f := PatchFieldOf(v).value; LaneValue(f.valueType, f.lane, f.payload, lib) == StoreNative(v, lib)
  {
    if v.JsBool? || v.JsInteger? || v.JsDouble? {
      NumberSurvives(v, lib);
    } else if v.JsString? {
      HexTextValue(Utf8Type, v.text);
    } else if v.JsStructured? {
      HexTextValue(if v.isArray then ArrayType else ObjectType, v.json);
    } else {
      TextLane(v, lib);
    }
  }

  lemma TextLane(v: Js, lib: Library)
    requires Constructible(v) && (v.JsNull? || v.JsInt64? || v.JsBytes?)
    ensures var f := PatchFieldOf(v).value; LaneValue(f.valueType, f.lane, f.payload, lib) == StoreNative(v, lib)
  {
  }

  /** A line is cut at the same three colons it was put together with, since hex has none. */
  lemma LineParts(hex: Text, n: nat, lane: unit, payload: Text)
    requires n <= 8 && Free(hex, COLON) && lane != COLON
    ensures var line := hex + [COLON] + [48 + n, COLON, lane, COLON] + payload;
            var first := |hex|;
            && Divided(line, first, first + 2) && line[..first] == hex
            && line[first + 1..first + 2] == Print(n) && line[first + 3] == lane && line[first + 5..] == payload
  {
    var line, first := hex + [COLON] + [48 + n, COLON, lane, COLON] + payload, |hex|;
    assert line[..first] == hex && line[0..first] == hex;
    assert line[first] == COLON && line[first + 1] == 48 + n && line[first + 2] == COLON;
    assert line[first + 3] == lane && line[first + 4] == COLON;
    assert forall k :: 0 <= k < first ==> line[k] == hex[k];
    assert line[first + 1..first + 2] == [48 + n] == Print(n);
    assert line[first + 5..] == payload;
  }

  lemma KeySurvives(key: Text)
    requires KeyText(key)
    ensures var b := EncodeFrom(key, 0);
            KeyOf(ToHex(key)) == if 0 in b then None else Some(b)
    ensures Free(ToHex(key), COLON)
  {
    HexRoundTrip(EncodeFrom(key, 0));
    HexIsFree(EncodeFrom(key, 0), COLON);
  }

  /** Each entry is read as the key and value it was printed from, and refused exactly when it cannot arrive. */
  lemma PairSurvives(e: KeyValue, lib: Library)
    requires Conforms(lib) && Patchable(e)
    ensures PairReader(lib)(LineOf(e)) == Arriving(e, lib)
  {
    var f := PatchFieldOf(e.value).value;
    KeySurvives(e.key);
    LaneSurvives(e.value, lib);
    assert f.lane == N || f.lane == T;
    PartsAreAPair(ToHex(e.key), f, lib);
  }

  lemma PartsAreAPair(hex: Text, f: PatchField, lib: Library)
    requires Conforms(lib) && Free(hex, COLON) && f.lane != COLON
    ensures PairReader(lib)(PairText(hex, f)) == PairOf(KeyOf(hex), LaneValue(f.valueType, f.lane, f.payload, lib))
  {
    LineParts(hex, TypeNumber(f.valueType), f.lane, f.payload);
    ReadsTypes(f.valueType, lib);
    PartsParse(PairText(hex, f), |hex|, f, lib);
  }

  lemma ReadsTypes(t: ValueType, lib: Library)
    requires Conforms(lib)
    ensures lib.readType(Print(TypeNumber(t))) == Some(TypeNumber(t)) && TypeOf(TypeNumber(t)) == t
  {
  }

  /** Parsing a line whose colons and type are where they should be. */
  lemma PartsParse(line: Text, first: nat, f: PatchField, lib: Library)
    requires Divided(line, first, first + 2) && line[first + 3] == f.lane && line[first + 5..] == f.payload
    requires var n := TypeNumber(f.valueType);
             lib.readType(line[first + 1..first + 2]) == Some(n) && TypeOf(n) == f.valueType
    ensures PairReader(lib)(line) == PairOf(KeyOf(line[..first]), LaneValue(f.valueType, f.lane, f.payload, lib))
  {
    DividedIsMade(line, first, first + 2, lib);
  }

  lemma PatchPayloadIsFree(v: Js)
    requires Constructible(v) && PatchFieldOf(v).Some?
    ensures Free(PatchFieldOf(v).value.payload, NEWLINE)
  {
    match v
    case JsInteger(n) => DecimalIsFree(n, NEWLINE);
    case JsString(s) => HexIsFree(EncodeFrom(s, 0), NEWLINE);
    case JsStructured(_, s) => HexIsFree(EncodeFrom(s, 0), NEWLINE);
    case _ =>
  }

  lemma PairLineIsALine(e: KeyValue)
    requires Patchable(e)
    ensures LineOf(e) != [] && Free(LineOf(e), NEWLINE)
  {
    var f := PatchFieldOf(e.value).value;
    HexIsFree(EncodeFrom(e.key, 0), NEWLINE);
    PatchPayloadIsFree(e.value);
    assert f.lane == N || f.lane == T;
    PairTextIsFree(ToHex(e.key), f);
  }

  lemma PairTextIsFree(hex: Text, f: PatchField)
    requires Free(hex, NEWLINE) && Free(f.payload, NEWLINE) && f.lane != NEWLINE
    ensures PairText(hex, f) != [] && Free(PairText(hex, f), NEWLINE)
  {
  }

  /** Which entries a printed patch of at most 16 MiB holds: those that arrive, and none at all if one does not. */
  lemma {:induction false} PatchRoundTrip(entries: seq<KeyValue>, pairs: seq<Pair>, lib: Library)
    requires Conforms(lib) && AllPatchable(entries) && |PatchText(entries)| <= PATCH_WIRE_MAX
    ensures IsPatch(PatchText(entries), pairs, lib)
            <==> |pairs| == |entries| && forall i :: 0 <= i < |entries| ==> Arriving(entries[i], lib) == Some(pairs[i])
  {
    var lines := LinesOf(entries);
    forall i | 0 <= i < |lines|
      ensures lines[i] != [] && Free(lines[i], NEWLINE) && PairReader(lib)(lines[i]) == Arriving(entries[i], lib)
    {
      PairLineIsALine(entries[i]);
      PairSurvives(entries[i], lib);
    }
    LinesDecide(lines, pairs, lib);
  }

  /** The lines decide. An empty patch is a header and one empty line. */
  lemma LinesDecide(lines: seq<Text>, pairs: seq<Pair>, lib: Library)
    requires Conforms(lib) && |lines| <= PATCH_MAX
    requires forall i :: 0 <= i < |lines| ==> lines[i] != [] && Free(lines[i], NEWLINE)
    requires |P1 + Print(|lines|) + [NEWLINE] + Join(lines, NEWLINE)| <= PATCH_WIRE_MAX
    ensures IsPatch(P1 + Print(|lines|) + [NEWLINE] + Join(lines, NEWLINE), pairs, lib)
            <==> |pairs| == |lines| && forall i :: 0 <= i < |lines| ==> PairReader(lib)(lines[i]) == Some(pairs[i])
  {
    var n := |lines|;
    var header := P1 + Print(n);
    var wire := header + [NEWLINE] + Join(lines, NEWLINE);
    DecimalIsFree(n, NEWLINE);
    PatchLines(header, lines);
    HeaderOfPatch(header, n, lib);
    PatchParts(header, lines);
    if |pairs| == n {
      EntriesAreLines(wire, lines, pairs, PairReader(lib));
    }
  }

  lemma EntriesAreLines(wire: Text, lines: seq<Text>, pairs: seq<Pair>, parse: Text -> Option<Pair>)
    requires |pairs| == |lines| && |Split(wire, NEWLINE)| >= |lines| + 1
    requires forall k :: 1 <= k <= |lines| ==> Split(wire, NEWLINE)[k] == lines[k - 1] != []
    ensures Entries(wire, pairs, parse) <==> forall i :: 0 <= i < |lines| ==> parse(lines[i]) == Some(pairs[i])
  {
    var parts := Split(wire, NEWLINE);
    if Entries(wire, pairs, parse) {
      forall i | 0 <= i < |lines| ensures parse(lines[i]) == Some(pairs[i]) {
        assert parse(parts[i + 1]) == Some(pairs[i + 1 - 1]);
      }
    }
  }

  lemma HeaderOfPatch(header: Text, n: nat, lib: Library)
    requires Conforms(lib) && n <= PATCH_MAX && header == P1 + Print(n)
    ensures PatchCount(header, lib) == Some(n)
  {
    assert header[..3] == P1 && header[3..] == Print(n);
  }

  function Body(lines: seq<Text>): seq<Text> {
    if lines == [] then [[]] else lines
  }

  lemma PatchLines(header: Text, lines: seq<Text>)
    requires Free(header, NEWLINE) && AllFree(lines, NEWLINE)
    ensures Split(header + [NEWLINE] + Join(lines, NEWLINE), NEWLINE) == [header] + Body(lines)
  {
    assert Join(Body(lines), NEWLINE) == Join(lines, NEWLINE);
    JoinCons(header, Body(lines), NEWLINE);
    SplitJoin([header] + Body(lines), NEWLINE);
  }

  lemma PatchParts(header: Text, lines: seq<Text>)
    ensures var parts, n := [header] + Body(lines), |lines|;
            && parts[0] == header && |parts| >= n + 1 && AllReturns(parts[n + 1..])
            && forall k :: 1 <= k <= n ==> parts[k] == lines[k - 1]
  {
    if lines != [] {
      assert ([header] + Body(lines))[|lines| + 1..] == [];
    } else {
      assert ([header] + Body(lines))[1..] == [[]];
    }
  }

  /**
   From the facade's patch to the entries the Store is given, through both loops: they are those meant, and they
   arrive if and only if every entry can be printed, the packet fits, no key encodes an octet 0 and every number can
   be read.
   */
  method SendPatch(entries: seq<KeyValue>, lib: Library) returns (received: Option<seq<Pair>>)
    requires Conforms(lib) && forall i :: 0 <= i < |entries| ==> Constructible(entries[i].value)
    ensures received.Some? <==>
              && AllPatchable(entries) && |PatchText(entries)| <= PATCH_WIRE_MAX
              && forall i :: 0 <= i < |entries| ==> 0 !in KeyBytes(entries[i]) && NumberIsRead(entries[i].value, lib)
    ensures received.Some? ==>
              && |received.value| == |entries|
              && forall i :: 0 <= i < |entries| ==> Arriving(entries[i], lib) == Some(received.value[i])
  {
    var wire := PatchWire(entries);
    if wire.None? {
      return None;
    }
    received := ParsePatch(wire.value, lib);
    AllArriveIff(entries, lib);
    if |wire.value| <= PATCH_WIRE_MAX {
      AllArriveTogether(entries, lib);
      if received.Some? {
        PatchRoundTrip(entries, received.value, lib);
      }
    }
  }

  lemma AllArriveIff(entries: seq<KeyValue>, lib: Library)
    requires AllPatchable(entries)
    ensures (forall i :: 0 <= i < |entries| ==> Arriving(entries[i], lib).Some?)
            <==> forall i :: 0 <= i < |entries| ==> 0 !in KeyBytes(entries[i]) && NumberIsRead(entries[i].value, lib)
  {
    forall i | 0 <= i < |entries|
      ensures Arriving(entries[i], lib).Some? <==> 0 !in KeyBytes(entries[i]) && NumberIsRead(entries[i].value, lib)
    {
      ArrivesIff(entries[i], lib);
    }
  }

  /** If every entry arrives there is a list of pairs that the packet is read as. */
  lemma AllArriveTogether(entries: seq<KeyValue>, lib: Library)
    requires Conforms(lib) && AllPatchable(entries) && |PatchText(entries)| <= PATCH_WIRE_MAX
    ensures (forall i :: 0 <= i < |entries| ==> Arriving(entries[i], lib).Some?)
            ==> exists pairs :: IsPatch(PatchText(entries), pairs, lib)
  {
    if forall i :: 0 <= i < |entries| ==> Arriving(entries[i], lib).Some? {
      var pairs := seq(|entries|, i requires 0 <= i < |entries| && Arriving(entries[i], lib).Some? =>
                         Arriving(entries[i], lib).value);
      PatchRoundTrip(entries, pairs, lib);
      assert IsPatch(PatchText(entries), pairs, lib);
    }
  }

  /** The key "a" U+0000: the facade prints it, the adapter refuses it, and the whole patch with it. */
  lemma NulKeyIsLost(lib: Library)
    requires Conforms(lib)
    ensures var e := KeyValue([97, 0], JsNull);
            Patchable(e) && Arriving(e, lib) == None && (forall pairs :: !IsPatch(PatchText([e]), pairs, lib))
  {
    var e := KeyValue([97, 0], JsNull);
    assert EncodeFrom(e.key, 1) == [0] + EncodeFrom(e.key, 2);
    assert EncodeFrom(e.key, 0) == [97] + ([0] + []);
    assert KeyBytes(e)[1] == 0;
    assert AllPatchable([e]);
    forall pairs ensures !IsPatch(PatchText([e]), pairs, lib) {
      if |PatchText([e])| <= PATCH_WIRE_MAX {
        PatchRoundTrip([e], pairs, lib);
        assert Arriving([e][0], lib) == None;
      }
    }
  }
}
