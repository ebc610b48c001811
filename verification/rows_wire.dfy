/**
 The U1 rows reply: printed by the ORM bridge, taken apart by the ES3 client token by token and decoded column by
 column. None stands for a thrown error.
 */
module RowsWire {
  import opened Common
  import opened Utf16
  import opened Lines
  import Framing
  import opened Decimal
  import opened Integers
  import TextCodec
  import Utf8

  /** A user row as the bridge reads it from SQLite: two 64-bit integers and two texts. */
  datatype UserRow = UserRow(id: int, name: seq<byte>, email: seq<byte>, createdAt: int)

  predicate Readable(row: UserRow) {
    InInt64(row.id) && InInt64(row.createdAt) && Utf8.WellFormed(row.name) && Utf8.WellFormed(row.email)
  }

  datatype Field = Field(tag: Text, value: Text)

  datatype Decoded = Decoded(id: Integers.Decoded, name: Text, email: Text, createdAt: Integers.Decoded)

  const FOUR: Text := [52]
  const I: Text := [105]
  const E: Text := [101]
  const T: Text := [116]

  /** The octets of a text that is all ASCII. */
  function AsciiBytes(t: Text): (b: seq<byte>)
    requires forall i :: 0 <= i < |t| ==> t[i] < 0x80
    ensures |b| == |t| && forall i :: 0 <= i < |t| ==> b[i] == t[i]
  {
    seq(|t|, i requires 0 <= i < |t| => t[i])
  }

  lemma {:induction false} DecimalIsAscii(n: nat)
    ensures forall i :: 0 <= i < |Print(n)| ==> Print(n)[i] < 0x80
  {
    PrintIsCanonical(n);
  }

  function IntegerBytes(n: int): seq<byte> {
    DecimalIsAscii(if n < 0 then -n else n);
    AsciiBytes(PrintInt(n))
  }

  // ---- printing ----

  function IntegerField(n: int): seq<Text> { [I, HexOf(IntegerBytes(n))] }

  function TextField(b: seq<byte>): seq<Text> { [T, HexOf(b)] }

  /** A tag and a hex payload for each field. */
  function FieldTokens(fields: seq<Field>): (tokens: seq<Text>)
    ensures |tokens| == 2 * |fields|
  {
    if fields == [] then [] else [fields[0].tag, fields[0].value] + FieldTokens(fields[1..])
  }

  function RowFields(row: UserRow): (fields: seq<Field>)
    ensures |fields| == 4
  {
    [Field(I, HexOf(IntegerBytes(row.id))), Field(T, HexOf(row.name)), Field(T, HexOf(row.email)),
        Field(I, HexOf(IntegerBytes(row.createdAt)))]
  }

  /** A row as tokens: its field count, then its fields. */
  function RowTokens(row: UserRow): seq<Text> {
    [FOUR] + FieldTokens(RowFields(row))
  }

  /** Lists of fields as tokens: each a count and its fields. */
  function TokensOf(lists: seq<seq<Field>>): seq<Text> {
    if lists == [] then [] else [Print(|lists[0]|)] + FieldTokens(lists[0]) + TokensOf(lists[1..])
  }

  function AllFields(rows: seq<UserRow>): (lists: seq<seq<Field>>)
    ensures |lists| == |rows| && forall i :: 0 <= i < |rows| ==> lists[i] == RowFields(rows[i])
  {
    if rows == [] then [] else [RowFields(rows[0])] + AllFields(rows[1..])
  }

  function Tokens(rows: seq<UserRow>): seq<Text> {
    TokensOf(AllFields(rows))
  }

  /** "U1:L:" and the number of rows. */
  function Head(count: nat): Text {
    [85, 49, 58, 76, 58] + Print(count)
  }

  method AppendField(out: Text, tag: unit, data: seq<byte>, ghost tokens: seq<Text>) returns (out': Text)
    requires tokens != [] && out == Join(tokens, BAR)
    ensures out' == Join(tokens + [[tag], HexOf(data)], BAR)
  {
    out' := out + [BAR] + [tag] + [BAR];
    if |data| > 0 {
      out' := out' + HexOf(data);
    }
    JoinAppend(tokens, [tag], BAR);
    JoinAppend(tokens + [[tag]], HexOf(data), BAR);
    assert tokens + [[tag]] + [HexOf(data)] == tokens + [[tag], HexOf(data)];
    assert data == [] ==> out' == out' + HexOf(data);
  }

  function Pair(f: Field): seq<Text> { [f.tag, f.value] }

  lemma FourFields(a: Field, b: Field, c: Field, d: Field)
    ensures FieldTokens([a, b, c, d]) == Pair(a) + Pair(b) + Pair(c) + Pair(d)
  {
    assert [a, b, c, d][1..] == [b, c, d] && [b, c, d][1..] == [c, d] && [c, d][1..] == [d] && [d][1..] == [];
    assert FieldTokens([d]) == Pair(d);
    assert FieldTokens([c, d]) == Pair(c) + Pair(d);
    assert FieldTokens([b, c, d]) == Pair(b) + (Pair(c) + Pair(d));
  }

  lemma FieldsInTurn(tokens: seq<Text>, a: Field, b: Field, c: Field, d: Field)
    ensures tokens + [FOUR] + Pair(a) + Pair(b) + Pair(c) + Pair(d) == tokens + ([FOUR] + FieldTokens([a, b, c, d]))
  {
    FourFields(a, b, c, d);
  }

  lemma RowTokensInTurn(tokens: seq<Text>, row: UserRow)
    ensures tokens + [FOUR] + IntegerField(row.id) + TextField(row.name) + TextField(row.email)
            + IntegerField(row.createdAt)
            == tokens + RowTokens(row)
  {
    var f := RowFields(row);
    FieldsInTurn(tokens, f[0], f[1], f[2], f[3]);
    assert [f[0], f[1], f[2], f[3]] == f;
  }

  method AppendRow(out: Text, row: UserRow, ghost tokens: seq<Text>) returns (out': Text)
    requires tokens != [] && out == Join(tokens, BAR)
    ensures out' == Join(tokens + RowTokens(row), BAR)
  {
    JoinAppend(tokens, FOUR, BAR);
    out' := out + [BAR] + FOUR;
    ghost var t := tokens + [FOUR];
    out' := AppendField(out', 105, IntegerBytes(row.id), t);
    t := t + IntegerField(row.id);
    out' := AppendField(out', 116, row.name, t);
    t := t + TextField(row.name);
    out' := AppendField(out', 116, row.email, t);
    t := t + TextField(row.email);
    out' := AppendField(out', 105, IntegerBytes(row.createdAt), t);
    RowTokensInTurn(tokens, row);
  }

  lemma {:induction false} TokensOfAppend(lists: seq<seq<Field>>, last: seq<Field>)
    ensures TokensOf(lists + [last]) == TokensOf(lists) + ([Print(|last|)] + FieldTokens(last))
  {
    if lists == [] {
      assert lists + [last] == [last] && [last][1..] == [];
    } else {
      assert (lists + [last])[1..] == lists[1..] + [last];
      TokensOfAppend(lists[1..], last);
    }
  }

  lemma {:induction false} AllFieldsAppend(rows: seq<UserRow>, row: UserRow)
    ensures AllFields(rows + [row]) == AllFields(rows) + [RowFields(row)]
  {
    if rows == [] {
      assert rows + [row] == [row] && [row][1..] == [];
    } else {
      assert (rows + [row])[1..] == rows[1..] + [row];
      AllFieldsAppend(rows[1..], row);
    }
  }

  lemma TokensAppend(rows: seq<UserRow>, row: UserRow)
    ensures Tokens(rows + [row]) == Tokens(rows) + RowTokens(row)
  {
    AllFieldsAppend(rows, row);
    TokensOfAppend(AllFields(rows), RowFields(row));
    assert Print(4) == FOUR;
  }

  lemma TokensStep(head: Text, rows: seq<UserRow>, i: nat)
    requires i < |rows|
    ensures [head] + Tokens(rows[..i]) + RowTokens(rows[i]) == [head] + Tokens(rows[..i + 1])
  {
    assert rows[..i + 1] == rows[..i] + [rows[i]];
    TokensAppend(rows[..i], rows[i]);
  }

  /** rows_wire */
  method PrintRows(rows: seq<UserRow>) returns (wire: Text)
    ensures wire == Join([Head(|rows|)] + Tokens(rows), BAR)
  {
    wire := Head(|rows|);
    assert [Head(|rows|)] + Tokens(rows[..0]) == [Head(|rows|)];
    for i := 0 to |rows|
      invariant wire == Join([Head(|rows|)] + Tokens(rows[..i]), BAR)
    {
      wire := AppendRow(wire, rows[i], [Head(|rows|)] + Tokens(rows[..i]));
      TokensStep(Head(|rows|), rows, i);
    }
    assert rows[..|rows|] == rows;
  }

  // ---- parsing ----

  /** parseUnsigned with the largest safe integer as its limit. */
  method ParseUnsigned(text: Text) returns (n: Option<nat>)
    ensures n == Count(text)
  {
    if !Canonical(text) {
      return None;
    }
    PrintIsCanonical(SAFE_MAX);
    LengthThenText(text, SAFE_TEXT);
    if |text| > |SAFE_TEXT| || (|text| == |SAFE_TEXT| && TextBelow(SAFE_TEXT, text)) {
      return None;
    }
    n := Some(ValueOf(text));
  }

  function Count(text: Text): Option<nat> {
    if Canonical(text) && ValueOf(text) <= SAFE_MAX then Some(ValueOf(text)) else None
  }

  function FieldsAt(tokens: seq<Text>, cursor: nat, n: nat): (fields: seq<Field>)
    requires cursor + 2 * n <= |tokens|
    ensures |fields| == n
  {
    seq(n, j requires 0 <= j < n => Field(tokens[cursor + 2 * j], tokens[cursor + 2 * j + 1]))
  }

  /** `n` rows and nothing more are on the tokens from the cursor on. */
  function RowsAt(tokens: seq<Text>, cursor: nat, n: nat): Option<seq<seq<Field>>>
    requires cursor <= |tokens|
    decreases n
  {
    if n == 0 then if cursor == |tokens| then Some([]) else None
    else if cursor == |tokens| then None
    else
      var count := Count(tokens[cursor]);
      if count.None? || cursor + 1 + 2 * count.value > |tokens| then None
      else
        Prepend([FieldsAt(tokens, cursor + 1, count.value)], RowsAt(tokens, cursor + 1 + 2 * count.value, n - 1))
  }

  /** The loop of parseRows, over the tokens after the head. */
  method ReadRows(tokens: seq<Text>, n: nat) returns (rows: Option<seq<seq<Field>>>)
    ensures rows == RowsAt(tokens, 0, n)
  {
    var cursor := 0;
    var done: seq<seq<Field>> := [];
    PrependNothing(RowsAt(tokens, 0, n));
    while |done| < n
      invariant |done| <= n && cursor <= |tokens|
      invariant RowsAt(tokens, 0, n) == Prepend(done, RowsAt(tokens, cursor, n - |done|))
      decreases n - |done|
    {
      if cursor >= |tokens| {
        return None;
      }
      var count := ParseUnsigned(tokens[cursor]);
      if count.None? || cursor + 1 + 2 * count.value > |tokens| {
        return None;
      }
      cursor := cursor + 1;
      var fields: seq<Field> := [];
      ghost var start := cursor;
      while |fields| < count.value
        invariant |fields| <= count.value && cursor == start + 2 * |fields|
        invariant fields == FieldsAt(tokens, start, count.value)[..|fields|]
        decreases count.value - |fields|
      {
        fields := fields + [Field(tokens[cursor], tokens[cursor + 1])];
        cursor := cursor + 2;
      }
      assert FieldsAt(tokens, start, count.value) == fields;
      RowsAtStep(tokens, start - 1, n - |done|, count.value);
      PrependOne(done, fields, RowsAt(tokens, cursor, n - |done| - 1));
      done := done + [fields];
    }
    if cursor != |tokens| {
      return None;
    }
    assert done + [] == done;
    rows := Some(done);
  }

  function Prepend(done: seq<seq<Field>>, rest: Option<seq<seq<Field>>>): Option<seq<seq<Field>>> {
    if rest.None? then None else Some(done + rest.value)
  }

  lemma PrependNothing(rest: Option<seq<seq<Field>>>)
    ensures Prepend([], rest) == rest
  {
    if rest.Some? {
      assert [] + rest.value == rest.value;
    }
  }

  lemma RowsAtStep(tokens: seq<Text>, cursor: nat, n: nat, count: nat)
    requires n > 0 && cursor < |tokens| && Count(tokens[cursor]) == Some(count) && cursor + 1 + 2 * count <= |tokens|
    ensures RowsAt(tokens, cursor, n)
            == Prepend([FieldsAt(tokens, cursor + 1, count)], RowsAt(tokens, cursor + 1 + 2 * count, n - 1))
  {
    var c := Count(tokens[cursor]);
    assert c.value == count;
    assert n != 0 && cursor != |tokens| && c.Some? && cursor + 1 + 2 * c.value <= |tokens|;
    assert RowsAt(tokens, cursor, n)
        == Prepend([FieldsAt(tokens, cursor + 1, c.value)], RowsAt(tokens, cursor + 1 + 2 * c.value, n - 1));
  }

  lemma PrependOne(done: seq<seq<Field>>, fields: seq<Field>, rest: Option<seq<seq<Field>>>)
    ensures Prepend(done, Prepend([fields], rest)) == Prepend(done + [fields], rest)
  {
    if rest.Some? {
      assert done + ([fields] + rest.value) == (done + [fields]) + rest.value;
    }
  }

  /** parseWire and parseRows, on a rows reply. */
  function RowsOf(wire: Text): Option<seq<seq<Field>>> {
    var bar := Find(wire, BAR, 0);
    if bar < 5 || wire[..5] != [85, 49, 58, 76, 58] then None
    else
      var count := Count(wire[5..bar]);
      if count.None? then None
      else RowsAt(if bar == |wire| then [] else SplitFrom(wire, BAR, bar + 1), 0, count.value)
  }

  method ParseRows(wire: Text) returns (rows: Option<seq<seq<Field>>>)
    ensures rows == RowsOf(wire)
  {
    var bar := Find(wire, BAR, 0);
    if bar < 5 || wire[..5] != [85, 49, 58, 76, 58] {
      return None;
    }
    var count := ParseUnsigned(wire[5..bar]);
    if count.None? {
      return None;
    }
    var tokens := if bar == |wire| then [] else SplitFrom(wire, BAR, bar + 1);
    rows := ReadRows(tokens, count.value);
  }

  // ---- decoding ----

  predicate Safe(n: int) { 0 - SAFE_MAX <= n <= SAFE_MAX }

  function IntegerOf(text: Text, exact: bool): Option<Integers.Decoded> {
    if CanonicalSigned(text) && InInt64(IntOf(text)) && (exact || Safe(IntOf(text)))
    then Some(if exact then Exact(text) else Number(IntOf(text))) else None
  }

  /** decodeField of an integer column; 'e' asks for the exact text whatever the mode. */
  function IntegerColumn(f: Field, exact: bool): Option<Integers.Decoded> {
    if f.tag != I && f.tag != E then None
    else if !Receivable(f.value) then None
    else IntegerOf(FromHex(f.value), exact || f.tag == E)
  }

  method DecodeIntegerField(f: Field, exact: bool) returns (value: Option<Integers.Decoded>)
    ensures value == IntegerColumn(f, exact)
  {
    if f.tag != I && f.tag != E {
      return None;
    }
    var text := TextCodec.HexToUtf8(f.value);
    if text.None? {
      return None;
    }
    value := Int64FromWire(text.value, if f.tag == E then true else exact);
  }

  function TextColumn(f: Field): Option<Text> {
    if f.tag != T || !Receivable(f.value) then None else Some(FromHex(f.value))
  }

  method DecodeTextField(f: Field) returns (value: Option<Text>)
    ensures value == TextColumn(f)
  {
    if f.tag != T {
      return None;
    }
    value := TextCodec.HexToUtf8(f.value);
  }

  /** decodeRow, for the columns of a user: none of them may be null. */
  function RowOf(fields: seq<Field>, exact: bool): Option<Decoded> {
    if |fields| != 4 then None
    else
      var id, name, email, createdAt :=
        IntegerColumn(fields[0], exact), TextColumn(fields[1]), TextColumn(fields[2]), IntegerColumn(fields[3], exact);
      if id.None? || name.None? || email.None? || createdAt.None? then None
      else Some(Decoded.Decoded(id.value, name.value, email.value, createdAt.value))
  }

  method DecodeRow(fields: seq<Field>, exact: bool) returns (row: Option<Decoded>)
    ensures row == RowOf(fields, exact)
  {
    if |fields| != 4 {
      return None;
    }
    var id := DecodeIntegerField(fields[0], exact);
    var name := DecodeTextField(fields[1]);
    var email := DecodeTextField(fields[2]);
    var createdAt := DecodeIntegerField(fields[3], exact);
    if id.None? || name.None? || email.None? || createdAt.None? {
      return None;
    }
    row := Some(Decoded.Decoded(id.value, name.value, email.value, createdAt.value));
  }

  /** What an integer column is decoded to is the canonical text in its hex, or the number of that text. */
  ghost predicate IntegerSays(f: Field, exact: bool, value: Integers.Decoded) {
    && (f.tag == I || f.tag == E)
    && match value
       case Exact(text) =>
         && (exact || f.tag == E) && CanonicalSigned(text) && InInt64(IntOf(text))
         && Upper(f.value) == HexOf(IntegerBytes(IntOf(text)))
       case Number(n) =>
         !exact && f.tag == I && 0 - SAFE_MAX <= n <= SAFE_MAX && Upper(f.value) == HexOf(IntegerBytes(n))
  }

  ghost predicate TextSays(f: Field, text: Text) {
    f.tag == T && Transportable(text) && Upper(f.value) == HexOf(EncodeFrom(text, 0))
  }

  lemma {:induction false} AsciiEncodes(t: Text, i: nat)
    requires i <= |t| && forall k :: 0 <= k < |t| ==> t[k] < 0x80
    ensures PairedFrom(t, i) && EncodeFrom(t, i) == AsciiBytes(t)[i..]
    decreases |t| - i
  {
    if i < |t| {
      AsciiEncodes(t, i + 1);
      assert PointAt(t, i) == t[i] && Octets(t[i]) == [t[i]];
      assert AsciiBytes(t)[i..] == [AsciiBytes(t)[i]] + AsciiBytes(t)[i + 1..];
    }
  }

  lemma IntegerColumnSays(f: Field, exact: bool)
    requires IntegerColumn(f, exact).Some?
    ensures IntegerSays(f, exact, IntegerColumn(f, exact).value)
  {
    var text := FromHex(f.value);
    var n := IntOf(text);
    HexTextRoundTrip(f.value);
    SignedIsPrinted(text);
    DecimalIsAscii(if n < 0 then -n else n);
    AsciiEncodes(text, 0);
    assert AsciiBytes(text)[0..] == IntegerBytes(n);
  }

  lemma TextColumnSays(f: Field)
    requires TextColumn(f).Some?
    ensures TextSays(f, TextColumn(f).value)
  {
    HexTextRoundTrip(f.value);
  }

  /** A row that is decoded says, column by column, what its fields say, and there is nothing else in them. */
  lemma RowSaysItsFields(fields: seq<Field>, exact: bool)
    requires RowOf(fields, exact).Some?
    ensures var row := RowOf(fields, exact).value;
            && |fields| == 4
            && IntegerSays(fields[0], exact, row.id) && TextSays(fields[1], row.name)
            && TextSays(fields[2], row.email) && IntegerSays(fields[3], exact, row.createdAt)
  {
    IntegerColumnSays(fields[0], exact);
    TextColumnSays(fields[1]);
    TextColumnSays(fields[2]);
    IntegerColumnSays(fields[3], exact);
  }

  // ---- the round trip ----

  function IntegerAs(n: int, exact: bool): Integers.Decoded {
    if exact then Exact(PrintInt(n)) else Number(n)
  }

  /** What the client should hand to its caller. */
  function Meant(row: UserRow, exact: bool): Decoded
    requires Readable(row)
  {
    Decoded.Decoded(IntegerAs(row.id, exact), DecodeFrom(row.name, 0), DecodeFrom(row.email, 0),
        IntegerAs(row.createdAt, exact))
  }

  /** The client's row is the bridge's: texts that encode to the same octets, the same integers as text or number. */
  ghost predicate RowShows(row: UserRow, shown: Decoded, exact: bool) {
    && Transportable(shown.name) && EncodeFrom(shown.name, 0) == row.name
    && Transportable(shown.email) && EncodeFrom(shown.email, 0) == row.email
    && shown.id == (if exact then Exact(PrintInt(row.id)) else Number(row.id))
    && shown.createdAt == (if exact then Exact(PrintInt(row.createdAt)) else Number(row.createdAt))
  }

  lemma MeantShows(row: UserRow, exact: bool)
    requires Readable(row)
    ensures RowShows(row, Meant(row, exact), exact)
  {
    WellFormedText(row.name);
    WellFormedText(row.email);
  }

  predicate SafeRow(row: UserRow) { Safe(row.id) && Safe(row.createdAt) }

  lemma AsciiCharacter(b: seq<byte>, i: nat)
    requires i < |b| && b[i] < 0x80
    ensures Utf8.CharSize(b, i) == 1 && CodePointAt(b, i) == b[i] && UnitsOf(b[i]) == [b[i]]
  {
  }

  lemma {:induction false} AsciiDecodes(b: seq<byte>, i: nat, t: Text)
    requires |b| == |t| && i <= |b| && forall k :: 0 <= k < |b| ==> b[k] == t[k] && b[k] < 0x80
    ensures Utf8.WellFormedFrom(b, i) && DecodeFrom(b, i) == t[i..]
    decreases |b| - i
  {
    if i < |b| {
      AsciiDecodes(b, i + 1, t);
      AsciiCharacter(b, i);
      DecodeStep(b, i, b[i]);
      assert t[i..] == [t[i]] + t[i + 1..];
    }
  }

  /** Hex of ASCII text is received as that text. */
  lemma AsciiSurvives(t: Text)
    requires forall i :: 0 <= i < |t| ==> t[i] < 0x80
    ensures Receivable(HexOf(AsciiBytes(t))) && FromHex(HexOf(AsciiBytes(t))) == t
  {
    var b := AsciiBytes(t);
    HexRoundTrip(b);
    AsciiDecodes(b, 0, t);
    assert t[0..] == t;
  }

  lemma IntegerSurvives(n: int, exact: bool)
    requires InInt64(n)
    ensures IntegerColumn(Field(I, HexOf(IntegerBytes(n))), exact)
            == if exact || Safe(n) then Some(IntegerAs(n, exact)) else None
  {
    DecimalIsAscii(if n < 0 then -n else n);
    AsciiSurvives(PrintInt(n));
    PrintIntIsCanonical(n);
  }

  lemma TextSurvives(b: seq<byte>)
    requires Utf8.WellFormed(b)
    ensures TextColumn(Field(T, HexOf(b))) == Some(DecodeFrom(b, 0))
  {
    HexRoundTrip(b);
  }

  lemma RowSurvives(row: UserRow, exact: bool)
    requires Readable(row)
    ensures RowOf(RowFields(row), exact) == if exact || SafeRow(row) then Some(Meant(row, exact)) else None
  {
    IntegerSurvives(row.id, exact);
    IntegerSurvives(row.createdAt, exact);
    TextSurvives(row.name);
    TextSurvives(row.email);
  }

  lemma {:induction false} FieldsAreAt(tokens: seq<Text>, cursor: nat, fields: seq<Field>, n: nat)
    requires n == |fields| && cursor + 2 * n <= |tokens| && tokens[cursor..cursor + 2 * n] == FieldTokens(fields)
    ensures FieldsAt(tokens, cursor, n) == fields
    decreases n
  {
    if n > 0 {
      var t := tokens[cursor..cursor + 2 * n];
      assert t[0] == tokens[cursor] && t[1] == tokens[cursor + 1];
      assert t[2..] == tokens[cursor + 2..cursor + 2 + 2 * (n - 1)];
      FieldsAreAt(tokens, cursor + 2, fields[1..], n - 1);
      forall j | 0 <= j < n ensures FieldsAt(tokens, cursor, n)[j] == fields[j] {
        if j > 0 {
          assert FieldsAt(tokens, cursor + 2, n - 1)[j - 1] == fields[1..][j - 1];
        }
      }
    }
  }

  /** The first list on the tokens, and where the rest begins. */
  lemma FirstList(tokens: seq<Text>, cursor: nat, head: Text, fields: seq<Field>, rest: seq<Text>)
    requires Count(head) == Some(|fields|) && cursor <= |tokens|
    requires tokens[cursor..] == [head] + FieldTokens(fields) + rest
    ensures var next := cursor + 1 + 2 * |fields|;
            && next <= |tokens| && tokens[next..] == rest
            && tokens[cursor] == head && FieldsAt(tokens, cursor + 1, |fields|) == fields
  {
    ListParts(tokens, cursor, head, FieldTokens(fields), rest);
    FieldsAreAt(tokens, cursor + 1, fields, |fields|);
  }

  lemma CountOfPrint(n: nat)
    requires n <= SAFE_MAX
    ensures Count(Print(n)) == Some(n)
  {
    PrintIsCanonical(n);
  }

  lemma ListParts(tokens: seq<Text>, cursor: nat, head: Text, body: seq<Text>, rest: seq<Text>)
    requires cursor <= |tokens| && tokens[cursor..] == [head] + body + rest
    ensures cursor + 1 + |body| <= |tokens|
    ensures tokens[cursor] == head && tokens[cursor + 1..cursor + 1 + |body|] == body
            && tokens[cursor + 1 + |body|..] == rest
  {
    assert [head] + body + rest == [head] + (body + rest);
    SuffixSplit(tokens, cursor, [head], body + rest);
    assert tokens[cursor..cursor + 1][0] == tokens[cursor];
    SuffixSplit(tokens, cursor + 1, body, rest);
  }

  lemma ListThenRest(tokens: seq<Text>, cursor: nat, lists: seq<seq<Field>>)
    requires lists != [] && |lists[0]| <= SAFE_MAX && cursor <= |tokens| && tokens[cursor..] == TokensOf(lists)
    ensures var n := |lists[0]|;
            && cursor + 1 + 2 * n <= |tokens| && tokens[cursor + 1 + 2 * n..] == TokensOf(lists[1..])
            && Count(tokens[cursor]) == Some(n) && FieldsAt(tokens, cursor + 1, n) == lists[0]
  {
    CountOfPrint(|lists[0]|);
    FirstList(tokens, cursor, Print(|lists[0]|), lists[0], TokensOf(lists[1..]));
  }

  /** The tokens from the cursor on are those of the lists. */
  ghost predicate ReadAs(tokens: seq<Text>, cursor: nat, lists: seq<seq<Field>>)
    requires cursor <= |tokens|
  {
    RowsAt(tokens, cursor, |lists|) == Some(lists)
  }

  lemma NextList(tokens: seq<Text>, cursor: nat, lists: seq<seq<Field>>)
    requires lists != [] && |lists[0]| <= SAFE_MAX && cursor <= |tokens| && tokens[cursor..] == TokensOf(lists)
    ensures var next := cursor + 1 + 2 * |lists[0]|;
            && next <= |tokens| && tokens[next..] == TokensOf(lists[1..])
            && (ReadAs(tokens, next, lists[1..]) ==> ReadAs(tokens, cursor, lists))
  {
    ListThenRest(tokens, cursor, lists);
    ListReadFirst(tokens, cursor, lists);
  }

  lemma ListReadFirst(tokens: seq<Text>, cursor: nat, lists: seq<seq<Field>>)
    requires lists != [] && cursor < |tokens| && cursor + 1 + 2 * |lists[0]| <= |tokens|
    requires Count(tokens[cursor]) == Some(|lists[0]|) && FieldsAt(tokens, cursor + 1, |lists[0]|) == lists[0]
    ensures ReadAs(tokens, cursor + 1 + 2 * |lists[0]|, lists[1..]) ==> ReadAs(tokens, cursor, lists)
  {
    RowsAtStep(tokens, cursor, |lists|, |lists[0]|);
    HeadAndRest(lists);
  }

  /** Counting and cutting tokens inverts writing them. */
  lemma {:induction false} TokensAreLists(tokens: seq<Text>, cursor: nat, lists: seq<seq<Field>>)
    requires cursor <= |tokens| && tokens[cursor..] == TokensOf(lists)
    requires forall i :: 0 <= i < |lists| ==> |lists[i]| <= SAFE_MAX
    ensures ReadAs(tokens, cursor, lists)
    decreases |lists|
  {
    if lists == [] {
      NoLists(tokens, cursor, lists);
    } else {
      NextList(tokens, cursor, lists);
      TokensAreLists(tokens, cursor + 1 + 2 * |lists[0]|, lists[1..]);
    }
  }

  lemma NoLists(tokens: seq<Text>, cursor: nat, lists: seq<seq<Field>>)
    requires lists == [] && cursor <= |tokens| && tokens[cursor..] == TokensOf(lists)
    ensures ReadAs(tokens, cursor, lists)
  {
    assert |tokens[cursor..]| == 0;
  }

  lemma HeadAndRest(lists: seq<seq<Field>>)
    requires lists != []
    ensures Prepend([lists[0]], Some(lists[1..])) == Some(lists)
  {
    assert lists == [lists[0]] + lists[1..];
  }

  lemma HeadCounts(n: nat)
    requires n <= SAFE_MAX
    ensures Free(Head(n), BAR) && Head(n)[..5] == [85, 49, 58, 76, 58] && Count(Head(n)[5..]) == Some(n)
  {
    PrintIsCanonical(n);
    assert Head(n)[5..] == Print(n);
    forall k | 0 <= k < |Head(n)| ensures Head(n)[k] != BAR {
      assert k >= 5 ==> Head(n)[k] == Print(n)[k - 5] && IsDigit(Print(n)[k - 5]);
    }
  }

  lemma {:induction false} FieldTokensAreFree(fields: seq<Field>)
    requires forall i :: 0 <= i < |fields| ==> FreeField(fields[i])
    ensures AllFree(FieldTokens(fields), BAR)
  {
    if fields != [] {
      FieldTokensAreFree(fields[1..]);
    }
  }

  lemma HexFieldIsFree(tag: Text, b: seq<byte>)
    requires Free(tag, BAR)
    ensures FreeField(Field(tag, HexOf(b)))
  {
    Framing.HexIsFree(b, BAR);
  }

  lemma FourFree(a: Field, b: Field, c: Field, d: Field)
    requires FreeField(a) && FreeField(b) && FreeField(c) && FreeField(d)
    ensures FreeList([a, b, c, d])
  {
  }

  lemma RowFieldsAreFree(row: UserRow)
    ensures FreeList(RowFields(row))
  {
    var f := RowFields(row);
    HexFieldIsFree(I, IntegerBytes(row.id));
    HexFieldIsFree(T, row.name);
    HexFieldIsFree(T, row.email);
    HexFieldIsFree(I, IntegerBytes(row.createdAt));
    FourFree(f[0], f[1], f[2], f[3]);
    assert f == [f[0], f[1], f[2], f[3]];
  }

  predicate FreeField(f: Field) { Free(f.tag, BAR) && Free(f.value, BAR) }

  predicate FreeList(fields: seq<Field>) {
    forall i :: 0 <= i < |fields| ==> FreeField(fields[i])
  }

  lemma {:induction false} TokensOfAreFree(lists: seq<seq<Field>>)
    requires forall i :: 0 <= i < |lists| ==> FreeList(lists[i])
    ensures AllFree(TokensOf(lists), BAR)
  {
    if lists != [] {
      FieldTokensAreFree(lists[0]);
      Framing.DecimalIsFree(|lists[0]|, BAR);
      TokensOfAreFree(lists[1..]);
    }
  }

  /** Lists of fields survive the wire, whatever is in the fields. */
  lemma ListsSurvive(lists: seq<seq<Field>>)
    requires |lists| <= SAFE_MAX && forall i :: 0 <= i < |lists| ==> FreeList(lists[i]) && |lists[i]| <= SAFE_MAX
    ensures RowsOf(Join([Head(|lists|)] + TokensOf(lists), BAR)) == Some(lists)
  {
    var n, tokens := |lists|, TokensOf(lists);
    var parts := [Head(n)] + tokens;
    var wire := Join(parts, BAR);
    HeadCounts(n);
    TokensOfAreFree(lists);
    SplitJoin(parts, BAR);
    assert parts[1..] == tokens && tokens[0..] == tokens;
    HeadOfWire(wire, n);
    TokensAreLists(tokens, 0, lists);
  }

  /** The reply of the bridge is taken apart into exactly the fields that were put in. */
  lemma FieldsSurvive(rows: seq<UserRow>)
    requires |rows| <= SAFE_MAX
    ensures RowsOf(Join([Head(|rows|)] + Tokens(rows), BAR)) == Some(AllFields(rows))
  {
    forall i | 0 <= i < |rows| ensures FreeList(AllFields(rows)[i]) {
      RowFieldsAreFree(rows[i]);
    }
    ListsSurvive(AllFields(rows));
  }

  lemma {:induction false} FieldsAreTokens(tokens: seq<Text>, cursor: nat, n: nat)
    requires cursor + 2 * n <= |tokens|
    ensures FieldTokens(FieldsAt(tokens, cursor, n)) == tokens[cursor..cursor + 2 * n]
    decreases n
  {
    if n > 0 {
      var fields := FieldsAt(tokens, cursor, n);
      FieldsAreTokens(tokens, cursor + 2, n - 1);
      assert fields[1..] == FieldsAt(tokens, cursor + 2, n - 1);
      TwoTokens(tokens, cursor, cursor + 2 * n);
    }
  }

  lemma TwoTokens(tokens: seq<Text>, cursor: nat, to: nat)
    requires cursor + 2 <= to <= |tokens|
    ensures tokens[cursor..to] == [tokens[cursor], tokens[cursor + 1]] + tokens[cursor + 2..to]
  {
  }

  /** Lists that can be read off the tokens are lists whose tokens they are. */
  lemma {:induction false} ListsAreTokens(tokens: seq<Text>, cursor: nat, n: nat)
    requires cursor <= |tokens| && RowsAt(tokens, cursor, n).Some?
    ensures var lists := RowsAt(tokens, cursor, n).value;
            |lists| == n && TokensOf(lists) == tokens[cursor..]
    decreases n
  {
    if n > 0 {
      var count := Count(tokens[cursor]).value;
      var next := cursor + 1 + 2 * count;
      ListsAreTokens(tokens, next, n - 1);
      FieldsAreTokens(tokens, cursor + 1, count);
      CanonicalIsPrinted(tokens[cursor]);
      ListCut(tokens, cursor, n, count, RowsAt(tokens, next, n - 1).value);
    }
  }

  lemma ListCut(tokens: seq<Text>, cursor: nat, n: nat, count: nat, rest: seq<seq<Field>>)
    requires n > 0 && cursor < |tokens| && cursor + 1 + 2 * count <= |tokens|
    requires Count(tokens[cursor]) == Some(count) && Print(count) == tokens[cursor]
    requires RowsAt(tokens, cursor + 1 + 2 * count, n - 1) == Some(rest) && |rest| == n - 1
    requires TokensOf(rest) == tokens[cursor + 1 + 2 * count..]
    requires FieldTokens(FieldsAt(tokens, cursor + 1, count)) == tokens[cursor + 1..cursor + 1 + 2 * count]
    ensures var lists := RowsAt(tokens, cursor, n);
            lists.Some? && |lists.value| == n && TokensOf(lists.value) == tokens[cursor..]
  {
    var fields := FieldsAt(tokens, cursor + 1, count);
    RowsAtStep(tokens, cursor, n, count);
    var lists := [fields] + rest;
    assert lists[1..] == rest && lists[0] == fields;
    assert tokens[cursor..] == [tokens[cursor]] + tokens[cursor + 1..cursor + 1 + 2 * count]
                               + tokens[cursor + 1 + 2 * count..];
  }

  /** The client accepts no other text than one printed from the fields it takes out. */
  lemma AcceptedIsPrinted(wire: Text)
    requires RowsOf(wire).Some?
    ensures var lists := RowsOf(wire).value; wire == Join([Head(|lists|)] + TokensOf(lists), BAR)
  {
    var bar := Find(wire, BAR, 0);
    var count := Count(wire[5..bar]).value;
    CanonicalIsPrinted(wire[5..bar]);
    assert wire[..bar] == Head(count) by {
      assert wire[..bar] == wire[..5] + wire[5..bar];
    }
    var tokens := if bar == |wire| then [] else SplitFrom(wire, BAR, bar + 1);
    ListsAreTokens(tokens, 0, count);
    assert tokens[0..] == tokens;
    JoinSplitFrom(wire, BAR, 0);
    FirstPiece(wire, BAR);
    var parts := Split(wire, BAR);
    assert parts == [parts[0]] + parts[1..];
    assert wire[0..] == wire;
  }

  lemma HeadOfWire(wire: Text, n: nat)
    requires n <= SAFE_MAX && Split(wire, BAR)[0] == Head(n)
    ensures RowsOf(wire) == RowsAt(Split(wire, BAR)[1..], 0, n)
  {
    FirstPiece(wire, BAR);
    HeadCounts(n);
    var bar := Find(wire, BAR, 0);
    assert wire[..5] == wire[..bar][..5] && wire[5..bar] == wire[..bar][5..];
  }

  function RowReader(exact: bool): seq<Field> -> Option<Decoded> {
    (fields: seq<Field>) => RowOf(fields, exact)
  }

  /** Reading a whole reply: parse it, then decode every row. */
  method ReadReply(wire: Text, exact: bool) returns (rows: Option<seq<Decoded>>)
    ensures rows == if RowsOf(wire).None? then None else MapAll(RowReader(exact), RowsOf(wire).value)
  {
    var parsed := ParseRows(wire);
    if parsed.None? {
      return None;
    }
    rows := DecodeRows(parsed.value, exact);
  }

  method DecodeRows(parsed: seq<seq<Field>>, exact: bool) returns (rows: Option<seq<Decoded>>)
    ensures rows == MapAll(RowReader(exact), parsed)
  {
    ghost var f := RowReader(exact);
    var done: seq<Decoded> := [];
    for i := 0 to |parsed|
      invariant MapAll(f, parsed[..i]) == Some(done)
    {
      var row := DecodeRow(parsed[i], exact);
      if row.None? {
        MapAllFails(f, parsed, i);
        return None;
      }
      assert parsed[..i + 1][..i] == parsed[..i];
      done := done + [row.value];
    }
    assert parsed[..|parsed|] == parsed;
    rows := Some(done);
  }

  lemma RowIsRead(row: UserRow, exact: bool)
    requires Readable(row)
    ensures RowReader(exact)(RowFields(row)) == if exact || SafeRow(row) then Some(Meant(row, exact)) else None
  {
    RowSurvives(row, exact);
  }

  lemma RowsSurvive(rows: seq<UserRow>, exact: bool)
    requires forall i :: 0 <= i < |rows| ==> Readable(rows[i])
    ensures MapAll(RowReader(exact), AllFields(rows))
            == if exact || forall i :: 0 <= i < |rows| ==> SafeRow(rows[i]) then Some(AllMeant(rows, exact)) else None
  {
    if exact || forall i :: 0 <= i < |rows| ==> SafeRow(rows[i]) {
      SafeRowsSurvive(rows, exact);
    } else {
      var i :| 0 <= i < |rows| && !SafeRow(rows[i]);
      RowIsRead(rows[i], exact);
      MapAllFails(RowReader(exact), AllFields(rows), i);
    }
  }

  lemma SafeRowsSurvive(rows: seq<UserRow>, exact: bool)
    requires forall i :: 0 <= i < |rows| ==> Readable(rows[i]) && (exact || SafeRow(rows[i]))
    ensures MapAll(RowReader(exact), AllFields(rows)) == Some(AllMeant(rows, exact))
  {
    var f, fields, meant := RowReader(exact), AllFields(rows), AllMeant(rows, exact);
    forall i | 0 <= i < |rows| ensures f(fields[i]) == Some(meant[i]) {
      RowIsRead(rows[i], exact);
    }
    MapAllSucceeds(f, fields, meant);
  }

  function AllMeant(rows: seq<UserRow>, exact: bool): (meant: seq<Decoded>)
    requires forall i :: 0 <= i < |rows| ==> Readable(rows[i])
    ensures |meant| == |rows| && forall i :: 0 <= i < |rows| ==> meant[i] == Meant(rows[i], exact)
  {
    seq(|rows|, i requires 0 <= i < |rows| => Meant(rows[i], exact))
  }

  /**
   Every list of rows that the bridge prints comes back as the same rows in exact mode; in number mode it comes back, as
   the same numbers, if and only if every integer is within the safe range.
   */
  method RowsRoundTrip(rows: seq<UserRow>, exact: bool) returns (received: Option<seq<Decoded>>)
    requires |rows| <= SAFE_MAX && forall i :: 0 <= i < |rows| ==> Readable(rows[i])
    ensures received.Some? <==> exact || forall i :: 0 <= i < |rows| ==> SafeRow(rows[i])
    ensures received.Some? ==> received.value == AllMeant(rows, exact)
    ensures received.Some? ==>
              |received.value| == |rows| && forall i :: 0 <= i < |rows| ==> RowShows(rows[i], received.value[i], exact)
  {
    forall i | 0 <= i < |rows| ensures RowShows(rows[i], AllMeant(rows, exact)[i], exact) {
      MeantShows(rows[i], exact);
    }
    var wire := PrintRows(rows);
    FieldsSurvive(rows);
    RowsSurvive(rows, exact);
    received := ReadReply(wire, exact);
  }
}
