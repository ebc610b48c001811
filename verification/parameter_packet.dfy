/**
 The P1 parameter packet: written by queryParameterPacket of extendscript/esdb.jsx, read by a cursor in the
 ExternalObject adapter. Texts of DOUBLE values stay abstract: `readDouble` is whatever the adapter makes of them.
 */
module ParameterPacket {
  import opened Common
  import opened Utf16
  import opened Lines
  import opened Framing
  import opened Decimal
  import opened Integers
  import TextCodec
  import Utf8

  const PARAMETER_MAX: nat := 1024
  const WIRE_MAX_BYTES: nat := 8 * 1024 * 1024

  /**
   A SQL parameter as the facade tells them apart. A number is an integer when it is whole, safe and not minus zero.
   */
  datatype Js =
    | JsNull
    | JsBool(flag: bool)
    | JsInteger(number: int)
    | JsDouble(text: Text)
    | JsInt64(text: Text)
    | JsString(text: Text)
    | JsBytes(hex: Text)
    | JsStructured(isArray: bool, json: Text)
    | JsUndefined

  /** What the constructors of these values guarantee. */
  predicate Constructible(v: Js) {
    match v
    case JsInteger(n) => 0 - SAFE_MAX <= n <= SAFE_MAX
    case JsDouble(t) => t != [] && Free(t, NEWLINE)
    case JsInt64(t) => CanonicalSigned(t) && InInt64(IntOf(t))
    case JsBytes(h) => IsHex(h) && Upper(h) == h
    case _ => true
  }

  predicate InInt32(n: int) { -0x8000_0000 <= n <= 0x7fff_ffff }

  /** "V1:" */
  const V1: Text := [86, 49, 58]
  /** "P1:" */
  const P1: Text := [80, 49, 58]

  function TypeNumber(t: ValueType): (n: nat)
    ensures n <= 8
  {
    match t
    case NullType => 0
    case BoolType => 1
    case Int32Type => 2
    case Int64Type => 3
    case DoubleType => 4
    case Utf8Type => 5
    case BytesType => 6
    case ArrayType => 7
    case ObjectType => 8
  }

  function TypeOf(n: nat): (t: ValueType)
    requires n <= 8
    ensures TypeNumber(t) == n
  {
    match n
    case 0 => NullType
    case 1 => BoolType
    case 2 => Int32Type
    case 3 => Int64Type
    case 4 => DoubleType
    case 5 => Utf8Type
    case 6 => BytesType
    case 7 => ArrayType
    case _ => ObjectType
  }

  function Entry(t: ValueType, payload: Text): Text {
    V1 + [48 + TypeNumber(t), COLON] + payload
  }

  datatype Field = Field(valueType: ValueType, payload: Text)

  /** The type a parameter is sent as and the text of its payload, when it can be sent. */
  function FieldOf(v: Js): Option<Field> {
    match v
    case JsNull => Some(Field(NullType, []))
    case JsInt64(t) => Some(Field(Int64Type, t))
    case JsBytes(h) => Some(Field(BytesType, h))
    case JsBool(flag) => Some(Field(BoolType, [if flag then 49 else 48]))
    case JsInteger(n) => Some(Field(if InInt32(n) then Int32Type else Int64Type, PrintInt(n)))
    case JsDouble(t) => Some(Field(DoubleType, t))
    case JsString(s) => if Transportable(s) then Some(Field(Utf8Type, ToHex(s))) else None
    case JsStructured(_, _) => None
    case JsUndefined => None
  }

  function Printed(v: Js): Option<Text> {
    match FieldOf(v)
    case None => None
    case Some(f) => Some(Entry(f.valueType, f.payload))
  }

  method EncodeWholeNumber(n: int) returns (line: Text)
    requires 0 - SAFE_MAX <= n <= SAFE_MAX
    ensures line == Entry(if InInt32(n) then Int32Type else Int64Type, PrintInt(n))
  {
    if -2147483648 <= n <= 2147483647 {
      return V1 + [50, COLON] + PrintInt(n);
    }
    PrintIntIsCanonical(n);
    var canonical := CanonicalInt64(PrintInt(n));
    line := V1 + [51, COLON] + canonical.value;
  }

  /** The numbers of the types are the digits 0 to 6 of the facade's own table. */
  method EncodeQueryParameter(v: Js) returns (line: Option<Text>)
    requires Constructible(v)
    ensures line == Printed(v)
  {
    match v
    case JsNull => return Some(V1 + [48, COLON] + []);
    case JsInt64(t) => return Some(V1 + [51, COLON] + t);
    case JsBytes(h) => return Some(V1 + [54, COLON] + h);
    case JsBool(flag) => return Some(V1 + [49, COLON] + [if flag then 49 else 48]);
    case JsInteger(n) =>
      var text := EncodeWholeNumber(n);
      return Some(text);
    case JsDouble(t) => return Some(V1 + [52, COLON] + t);
    case JsString(s) =>
      var hex := TextCodec.Utf8ToHex(s);
      return if hex.Some? then Some(V1 + [53, COLON] + hex.value) else None;
    case JsStructured(_, _) => return None;
    case JsUndefined => return None;
  }

  /** The two's complement of a 32-bit integer. */
  function Unsigned32(n: int): (u: nat)
    requires InInt32(n)
    ensures u < 0x1_0000_0000 && (u - n) % 0x1_0000_0000 == 0
  {
    if n >= 0 then n else n + 0x1_0000_0000
  }

  /** The value the native side is meant to end up with. */
  function Native(v: Js, readDouble: Text -> Option<seq<byte>>): Option<Value>
    requires Constructible(v)
  {
    match v
    case JsNull => Some(Value(NullType, []))
    case JsInt64(t) => Some(Value(Int64Type, Payload(ToUnsigned(IntOf(t)), 8)))
    case JsBytes(h) => Some(Value(BytesType, BytesOf(h)))
    case JsBool(flag) => Some(Value(BoolType, [if flag then 1 else 0]))
    case JsInteger(n) =>
      Some(if InInt32(n) then Value(Int32Type, Payload(Unsigned32(n), 4))
          else Value(Int64Type, Payload(ToUnsigned(n), 8)))
    case JsDouble(t) => var bits := readDouble(t); if bits.Some? then Some(Value(DoubleType, bits.value)) else None
    case JsString(s) => if Transportable(s) then Some(Value(Utf8Type, EncodeFrom(s, 0))) else None
    case JsStructured(_, _) => None
    case JsUndefined => None
  }

  /** parse_query_value_wire, once the type is known. */
  function ParsePayload(t: ValueType, payload: Text, readDouble: Text -> Option<seq<byte>>): Option<Value> {
    match t
    case NullType => if payload == [] then Some(Value(NullType, [])) else None
    case BoolType => if payload == [48] then Some(Value(BoolType, [0]))
        else if payload == [49] then Some(Value(BoolType, [1])) else None
    case Int32Type =>
      if CanonicalSigned(payload) && InInt32(IntOf(payload))
          then Some(Value(Int32Type, Payload(Unsigned32(IntOf(payload)), 4))) else None
    case Int64Type =>
      if CanonicalSigned(payload) && InInt64(IntOf(payload))
          then Some(Value(Int64Type, Payload(ToUnsigned(IntOf(payload)), 8))) else None
    case DoubleType => var bits := readDouble(payload); if bits.Some? then Some(Value(DoubleType, bits.value)) else None
    case BytesType => if IsHex(payload) then Some(Value(BytesType, BytesOf(payload))) else None
    case _ => if IsHex(payload) && Utf8.WellFormed(BytesOf(payload)) then Some(Value(t, BytesOf(payload))) else None
  }

  /** parse_query_value_wire */
  function ParseEntry(wire: Text, readDouble: Text -> Option<seq<byte>>): Option<Value> {
    if |wire| < 5 || wire[..3] != V1 then None
    else
      var separator := Find(wire, COLON, 3);
      if separator == |wire| then None
      else
        var number := wire[3..separator];
        if !Canonical(number) || ValueOf(number) > 8 then None
        else ParsePayload(TypeOf(ValueOf(number)), wire[separator + 1..], readDouble)
  }

  lemma DigitText(n: nat)
    requires n <= 8
    ensures Canonical([48 + n]) && ValueOf([48 + n]) == n
  {
    assert Print(n) == [48 + n];
    PrintIsCanonical(n);
  }

  lemma EntryParses(t: ValueType, payload: Text, readDouble: Text -> Option<seq<byte>>)
    ensures ParseEntry(Entry(t, payload), readDouble) == ParsePayload(t, payload, readDouble)
  {
    var wire, n := Entry(t, payload), TypeNumber(t);
    assert wire[..3] == V1;
    assert wire[3] == 48 + n && wire[4] == COLON;
    assert Find(wire, COLON, 3) == 4;
    assert wire[3..4] == [48 + n] && wire[5..] == payload;
    DigitText(n);
  }

  /** The adapter accepts nothing but a type's own digit and a payload of that type. */
  lemma EntryIsItsParts(wire: Text, readDouble: Text -> Option<seq<byte>>) returns (t: ValueType, payload: Text)
    requires ParseEntry(wire, readDouble).Some?
    ensures wire == Entry(t, payload) && ParsePayload(t, payload, readDouble) == ParseEntry(wire, readDouble)
  {
    var separator := Find(wire, COLON, 3);
    var number := wire[3..separator];
    t, payload := TypeOf(ValueOf(number)), wire[separator + 1..];
    CanonicalIsPrinted(number);
    assert number == [48 + ValueOf(number)];
    assert wire == wire[..3] + number + [COLON] + payload;
  }

  lemma TextPayload(hex: Text, readDouble: Text -> Option<seq<byte>>)
    requires Receivable(hex)
    ensures ParsePayload(Utf8Type, hex, readDouble) == Some(Value(Utf8Type, BytesOf(hex)))
  {
  }

  lemma StringField(s: Text, readDouble: Text -> Option<seq<byte>>)
    requires Transportable(s)
    ensures ParsePayload(Utf8Type, ToHex(s), readDouble) == Some(Value(Utf8Type, EncodeFrom(s, 0)))
  {
    TextRoundTrip(s);
    HexRoundTrip(EncodeFrom(s, 0));
    TextPayload(ToHex(s), readDouble);
  }

  lemma IntegerField(n: int, readDouble: Text -> Option<seq<byte>>)
    requires Constructible(JsInteger(n))
    ensures ParsePayload(if InInt32(n) then Int32Type else Int64Type, PrintInt(n), readDouble)
            == Native(JsInteger(n), readDouble)
  {
    PrintIntIsCanonical(n);
  }

  lemma OtherField(v: Js, readDouble: Text -> Option<seq<byte>>)
    requires Constructible(v) && FieldOf(v).Some? && !v.JsString? && !v.JsInteger?
    ensures ParsePayload(FieldOf(v).value.valueType, FieldOf(v).value.payload, readDouble) == Native(v, readDouble)
  {
  }

  /** Each entry the facade prints is read as the value it stands for. */
  lemma EntryRoundTrip(v: Js, readDouble: Text -> Option<seq<byte>>)
    requires Constructible(v) && Printed(v).Some?
    ensures ParseEntry(Printed(v).value, readDouble) == Native(v, readDouble)
  {
    var f := FieldOf(v).value;
    if v.JsString? {
      StringField(v.text, readDouble);
    } else if v.JsInteger? {
      IntegerField(v.number, readDouble);
    } else {
      OtherField(v, readDouble);
    }
    EntryParses(f.valueType, f.payload, readDouble);
  }

  /** The adapter's reader of one entry. */
  function EntryReader(readDouble: Text -> Option<seq<byte>>): Text -> Option<Value> {
    (line: Text) => ParseEntry(line, readDouble)
  }

  // ---- whole packets ----

  /**
   What the adapter accepts, told by lines: a header with a count, that many entries, and nothing but empty lines after.
   */
  ghost predicate IsPacket(wire: Text, values: seq<Value>, parse: Text -> Option<Value>) {
    var parts, n := Split(wire, NEWLINE), |values|;
    && |wire| <= WIRE_MAX_BYTES
    && HeaderCount(parts[0]) == Some(n)
    && Entries(wire, values, parse)
    && AllEmpty(parts[n + 1..])
  }

  function HeaderCount(header: Text): (count: Option<nat>)
    ensures count.Some? ==> count.value <= PARAMETER_MAX
  {
    if |header| < 4 || header[..3] != P1 || !Canonical(header[3..]) || ValueOf(header[3..]) > PARAMETER_MAX then None
    else Some(ValueOf(header[3..]))
  }

  method ReadHeader(header: Text) returns (count: Option<nat>)
    ensures count == HeaderCount(header)
  {
    if |header| < 4 || header[..3] != P1 {
      return None;
    }
    count := ParseU32Decimal(header[3..]);
    if count.Some? && count.value > PARAMETER_MAX {
      return None;
    }
  }

  lemma RestOfLines(wire: Text, done: nat, cursor: nat)
    requires Ahead(wire, done, cursor)
    ensures AllEmpty(Split(wire, NEWLINE)[done..]) <==> forall k :: cursor <= k < |wire| ==> wire[k] == NEWLINE
  {
    OnlySeparators(wire, NEWLINE, cursor);
  }

  /** parse_query_parameter_wire accepts exactly these packets, and gives exactly their values. */
  method ParseQueryParameterWire(wire: Text, readDouble: Text -> Option<seq<byte>>) returns (result: Option<seq<Value>>)
    ensures result.Some? ==> IsPacket(wire, result.value, EntryReader(readDouble))
    ensures result.None? ==> forall values :: !IsPacket(wire, values, EntryReader(readDouble))
  {
    if |wire| > WIRE_MAX_BYTES {
      return None;
    }
    var parse := EntryReader(readDouble);
    ghost var parts := Split(wire, NEWLINE);
    var headerEnd := Find(wire, NEWLINE, 0);
    var header := if headerEnd == |wire| then wire else wire[..headerEnd];
    assert header == parts[0];
    var count := ReadHeader(header);
    if count.None? {
      return None;
    }
    var cursor := if headerEnd == |wire| then |wire| else headerEnd + 1;
    var values;
    values, cursor := ReadEntries(wire, count.value, cursor, parse);
    if values.None? {
      return None;
    }
    OneList(wire, values.value, parse);
    RestOfLines(wire, count.value + 1, cursor);
    var only := OnlyNewlinesLeft(wire, cursor);
    if !only {
      return None;
    }
    result := values;
  }

  function Header(count: nat): Text {
    P1 + Print(count)
  }

  predicate AllPrintable(values: seq<Js>) {
    |values| <= PARAMETER_MAX && forall i :: 0 <= i < |values| ==> Printed(values[i]).Some?
  }

  function LinesOf(values: seq<Js>): (lines: seq<Text>)
    requires AllPrintable(values)
    ensures |lines| == |values| && forall i :: 0 <= i < |values| ==> Printed(values[i]) == Some(lines[i])
  {
    seq(|values|, i requires 0 <= i < |values| => Printed(values[i]).value)
  }

  function PacketText(values: seq<Js>): Text
    requires AllPrintable(values)
  {
    Join([Header(|values|)] + LinesOf(values), NEWLINE)
  }

  method QueryParameterPacket(values: seq<Js>) returns (packet: Option<Text>)
    requires forall i :: 0 <= i < |values| ==> Constructible(values[i])
    ensures packet.Some? <==> AllPrintable(values)
    ensures packet.Some? ==> packet.value == PacketText(values)
  {
    if |values| > PARAMETER_MAX {
      return None;
    }
    var lines := [Header(|values|)];
    for i := 0 to |values|
      invariant |lines| == i + 1 && lines[0] == Header(|values|)
      invariant forall k :: 0 <= k < i ==> Printed(values[k]) == Some(lines[k + 1])
    {
      var line := EncodeQueryParameter(values[i]);
      if line.None? {
        return None;
      }
      lines := lines + [line.value];
    }
    assert lines == [Header(|values|)] + LinesOf(values);
    packet := Some(Join(lines, NEWLINE));
  }

  // ---- the round trip ----

  lemma EntryIsALine(v: Js)
    requires Constructible(v) && Printed(v).Some?
    ensures Printed(v).value != [] && Free(Printed(v).value, NEWLINE)
  {
    match v
    case JsInteger(n) =>
      DecimalIsFree(n, NEWLINE);
    case JsString(s) => HexIsFree(EncodeFrom(s, 0), NEWLINE);
    case _ =>
  }

  /**
   Every parameter list the facade can print within the size limit is accepted, and the adapter ends up with exactly the
   values meant, in order.
   */
  lemma PacketRoundTrip(values: seq<Js>, natives: seq<Value>, readDouble: Text -> Option<seq<byte>>)
    requires AllPrintable(values) && forall i :: 0 <= i < |values| ==> Constructible(values[i])
    requires |natives| == |values| && forall i :: 0 <= i < |values| ==>
               Native(values[i], readDouble) == Some(natives[i])
    requires |PacketText(values)| <= WIRE_MAX_BYTES
    ensures IsPacket(PacketText(values), natives, EntryReader(readDouble))
  {
    var n, lines := |values|, LinesOf(values);
    var parts := [Header(n)] + lines;
    DecimalIsFree(n, NEWLINE);
    PrintIsCanonical(n);
    forall i | 0 <= i < |parts| ensures Free(parts[i], NEWLINE) {
      if i > 0 {
        EntryIsALine(values[i - 1]);
      }
    }
    SplitJoin(parts, NEWLINE);
    assert Header(n)[3..] == Print(n) && Header(n)[..3] == P1;
    forall k | 1 <= k <= n ensures parts[k] != [] && EntryReader(readDouble)(parts[k]) == Some(natives[k - 1]) {
      EntryIsALine(values[k - 1]);
      EntryRoundTrip(values[k - 1], readDouble);
    }
  }

  /** A text is a packet of one list of values at most. */
  lemma PacketIsUnique(wire: Text, values: seq<Value>, others: seq<Value>, parse: Text -> Option<Value>)
    requires IsPacket(wire, values, parse) && IsPacket(wire, others, parse)
    ensures values == others
  {
    OneList(wire, values, parse);
  }

  /** From the facade's parameters to the adapter's values, through both loops. */
  method SendParameters(values: seq<Js>, ghost natives: seq<Value>, readDouble: Text -> Option<seq<byte>>)
    returns (received: Option<seq<Value>>)
    requires forall i :: 0 <= i < |values| ==> Constructible(values[i])
    requires |natives| == |values|
    requires forall i :: 0 <= i < |values| && Printed(values[i]).Some? ==>
               Native(values[i], readDouble) == Some(natives[i])
    ensures received == if AllPrintable(values) && |PacketText(values)| <= WIRE_MAX_BYTES then Some(natives) else None
  {
    var packet := QueryParameterPacket(values);
    if packet.None? {
      return None;
    }
    received := ParseQueryParameterWire(packet.value, readDouble);
    if |packet.value| <= WIRE_MAX_BYTES {
      PacketRoundTrip(values, natives, readDouble);
      PacketIsUnique(packet.value, received.value, natives, EntryReader(readDouble));
    }
  }
}
