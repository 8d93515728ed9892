/** noqeri.csv: one cell and its quoted form, and counting the fields of a row. */
module Csv {
  import opened Bytes
  import opened Outcomes
  import opened Texts
  import opened Buffers

  predicate DelimiterValid(c: Byte) {
    c == COMMA || c == SEMICOLON || c == TAB || c == BAR
  }

  predicate IsNewline(c: Byte) {
    c == LF || c == CR
  }

  /** A byte that a bare cell must not hold. */
  predicate Special(c: Byte, delimiter: Byte) {
    c == delimiter || c == QUOTE || IsNewline(c)
  }

  predicate IsBare(s: Text, delimiter: Byte) {
    forall i :: 0 <= i < |s| ==> !Special(s[i], delimiter)
  }

  /** Every quote written twice. */
  function Doubled(s: Text): Text {
    if s == [] then [] else (if s[0] == QUOTE then [QUOTE, QUOTE] else [s[0]]) + Doubled(s[1..])
  }

  function Quoted(s: Text): Text {
    [QUOTE] + Doubled(s) + [QUOTE]
  }

  /** A cell's two possible texts: its own bytes, when bare, or its quoted form. */
  predicate Represents(cell: Text, value: Text, delimiter: Byte) {
    (cell == value && IsBare(value, delimiter)) || cell == Quoted(value)
  }

  /** The text that the encoder chooses. */
  function Encoded(value: Text, delimiter: Byte): Text {
    if IsBare(value, delimiter) then value else Quoted(value)
  }

  /** A delimiter is a tab, comma, semicolon or bar; a bare cell holds none of the
      delimiter, the quote and the two line ends. */
  lemma BytesOfARow(c: Byte, delimiter: Byte)
    ensures DelimiterValid(c) <==> c in [9, 44, 59, 124]
    ensures Special(c, delimiter) <==> c in [10, 13, 34, delimiter]
  {
  }

  // ---------------------------------------------------------------- doubling

  lemma {:induction false} DoubledAppend(a: Text, b: Text)
    ensures Doubled(a + b) == Doubled(a) + Doubled(b)
  {
    if a == [] { assert a + b == b; }
    else {
      assert (a + b)[1..] == a[1..] + b;
      DoubledAppend(a[1..], b);
    }
  }

  lemma DoubledExtend(s: Text, i: nat)
    requires i < |s|
    ensures Doubled(s[..i + 1]) == Doubled(s[..i]) + if s[i] == QUOTE then [QUOTE, QUOTE] else [s[i]]
    ensures |Doubled(s[..i + 1])| <= |Doubled(s)|
  {
    assert s[..i + 1] == s[..i] + [s[i]];
    assert [s[i]][1..] == [];
    DoubledAppend(s[..i], [s[i]]);
    DoubledAppend(s[..i + 1], s[i + 1..]);
    assert s == s[..i + 1] + s[i + 1..];
  }

  lemma {:induction false} DoubledIsInjective(a: Text, b: Text)
    requires Doubled(a) == Doubled(b)
    ensures a == b
  {
    if a != [] {
      var n := if a[0] == QUOTE then 2 else 1;
      assert Doubled(a)[0] == a[0] && Doubled(b)[0] == b[0];
      assert Doubled(a)[n..] == Doubled(a[1..]) && Doubled(b)[n..] == Doubled(b[1..]);
      DoubledIsInjective(a[1..], b[1..]);
      assert a == [a[0]] + a[1..] && b == [b[0]] + b[1..];
    }
  }

  lemma {:induction false} DoubledIsLonger(s: Text)
    ensures |Doubled(s)| >= |s|
  {
    if s != [] { DoubledIsLonger(s[1..]); }
  }

  /** No text represents two values. */
  lemma RepresentsOne(cell: Text, a: Text, b: Text, delimiter: Byte)
    requires Represents(cell, a, delimiter) && Represents(cell, b, delimiter)
    ensures a == b
  {
    if cell == Quoted(a) || cell == Quoted(b) {
      assert cell[0] == QUOTE;
      assert !(cell == a && IsBare(a, delimiter)) && !(cell == b && IsBare(b, delimiter));
      assert cell[1..|cell| - 1] == Doubled(a) && cell[1..|cell| - 1] == Doubled(b);
      DoubledIsInjective(a, b);
    }
  }

  // ---------------------------------------------------------------- encoding

  method NeedsQuoting(data: Text, delimiter: Byte) returns (r: bool)
    ensures r == !IsBare(data, delimiter)
  {
    var i := 0;
    while i < |data|
      invariant i <= |data| && forall k :: 0 <= k < i ==> !Special(data[k], delimiter)
    {
      var c := data[i];
      if c == delimiter || c == QUOTE || IsNewline(c) { return true; }
      i := i + 1;
    }
    return false;
  }

  method QuotedSize(data: Text, delimiter: Byte) returns (total: nat)
    ensures total == |Encoded(data, delimiter)|
  {
    total := |data|;
    var quoting := NeedsQuoting(data, delimiter);
    if !quoting { return; }
    total := total + 2;
    var i := 0;
    while i < |data|
      invariant i <= |data| && total == |data| - i + |Doubled(data[..i])| + 2
    {
      DoubledExtend(data, i);
      if data[i] == QUOTE { total := total + 1; }
      i := i + 1;
    }
    assert data[..i] == data;
  }

  method EncodeCell(data: Text, destination: array<Byte>, delimiter: Byte) returns (r: int)
    modifies destination
    ensures r == -1 <==> delimiter !in [9, 44, 59, 124] || destination.Length < |Encoded(data, delimiter)|
    ensures !DelimiterValid(delimiter) || destination.Length < |Encoded(data, delimiter)| ==>
      r == -1 && destination[..] == old(destination[..])
    ensures DelimiterValid(delimiter) && destination.Length >= |Encoded(data, delimiter)| ==>
      && r == |Encoded(data, delimiter)|
      && destination[..] == Written(old(destination[..]), Encoded(data, delimiter))
  {
    hide Doubled, Written, IsBare;
    if !DelimiterValid(delimiter) { return -1; }
    var quoted := NeedsQuoting(data, delimiter);
    var required := QuotedSize(data, delimiter);
    if destination.Length < required { return -1; }
    ghost var before := destination[..];
    ghost var done: Text := [];
    var out := 0;
    NothingWritten(data, before);
    if quoted {
      Put(destination, before, done, QUOTE, out);
      out, done := out + 1, done + [QUOTE];
    }
    ghost var head := done;
    var i := 0;
    while i < |data|
      invariant i <= |data| && out == |done| <= |before| == destination.Length
      invariant done == head + Doubled(data[..i]) && destination[..] == Written(before, done)
    {
      DoubledExtend(data, i);
      BareByte(data, i, delimiter);
      Put(destination, before, done, data[i], out);
      out, done := out + 1, done + [data[i]];
      if quoted && data[i] == QUOTE {
        Put(destination, before, done, QUOTE, out);
        out, done := out + 1, done + [QUOTE];
      }
      i := i + 1;
    }
    assert data[..i] == data;
    if quoted {
      Put(destination, before, done, QUOTE, out);
      out, done := out + 1, done + [QUOTE];
    } else {
      BareIsItsDouble(data, delimiter);
    }
    assert done == Encoded(data, delimiter);
    return out;
  }

  lemma NothingWritten(data: Text, before: Text)
    ensures Written(before, []) == before && Doubled(data[..0]) == []
  {
  }

  lemma BareByte(data: Text, i: nat, delimiter: Byte)
    requires i < |data|
    ensures IsBare(data, delimiter) ==> data[i] != QUOTE && |Doubled(data)| == |data|
    ensures !IsBare(data, delimiter) ==> |Encoded(data, delimiter)| == |Doubled(data)| + 2
  {
    if IsBare(data, delimiter) { BareIsItsDouble(data, delimiter); }
  }

  lemma {:induction false} BareIsItsDouble(data: Text, delimiter: Byte)
    requires IsBare(data, delimiter)
    ensures Doubled(data) == data
  {
    if data != [] {
      BareIsItsDouble(data[1..], delimiter);
      assert data == [data[0]] + data[1..];
    }
  }

  // ---------------------------------------------------------------- decoding

  /** Every quote stands next to its double. */
  predicate Undoubles(s: Text) {
    s == [] ||
    if s[0] == QUOTE then |s| > 1 && s[1] == QUOTE && Undoubles(s[2..]) else Undoubles(s[1..])
  }

  function Undouble(s: Text): (x: Text)
    requires Undoubles(s)
    ensures |x| <= |s|
  {
    if s == [] then []
    else if s[0] == QUOTE then [QUOTE] + Undouble(s[2..])
    else [s[0]] + Undouble(s[1..])
  }

  lemma {:induction false} DoubledUndouble(s: Text)
    requires Undoubles(s)
    ensures Doubled(Undouble(s)) == s
  {
    if s != [] {
      var n := if s[0] == QUOTE then 2 else 1;
      DoubledUndouble(s[n..]);
      assert Undouble(s)[1..] == Undouble(s[n..]);
      assert s == s[..n] + s[n..];
    }
  }

  lemma {:induction false} UndoubleDoubled(x: Text)
    ensures Undoubles(Doubled(x)) && Undouble(Doubled(x)) == x
  {
    if x != [] {
      var n := if x[0] == QUOTE then 2 else 1;
      UndoubleDoubled(x[1..]);
      assert Doubled(x)[n..] == Doubled(x[1..]);
      assert x == [x[0]] + x[1..];
    }
  }

  lemma BareUndoubles(s: Text, delimiter: Byte)
    requires IsBare(s, delimiter)
    ensures Undoubles(s) && Undouble(s) == s
  {
    BareIsItsDouble(s, delimiter);
    UndoubleDoubled(s);
  }

  /** What lies between the outer quotes, or the whole when there are none. */
  function Body(data: Text): Text {
    if |data| >= 2 && data[0] == QUOTE then data[1..|data| - 1] else data
  }

  predicate IsCell(data: Text, delimiter: Byte) {
    if data != [] && data[0] == QUOTE then
      |data| >= 2 && data[|data| - 1] == QUOTE && Undoubles(Body(data))
    else IsBare(data, delimiter)
  }

  function Decoded(data: Text, delimiter: Byte): Text
    requires IsCell(data, delimiter)
  {
    if data != [] && data[0] == QUOTE then Undouble(Body(data)) else data
  }

  lemma DecodedRepresents(data: Text, delimiter: Byte)
    requires IsCell(data, delimiter)
    ensures Represents(data, Decoded(data, delimiter), delimiter)
  {
    if data != [] && data[0] == QUOTE {
      DoubledUndouble(Body(data));
      assert data == [QUOTE] + Body(data) + [QUOTE];
    }
  }

  lemma RepresentedIsCell(cell: Text, value: Text, delimiter: Byte)
    requires Represents(cell, value, delimiter)
    ensures IsCell(cell, delimiter) && Decoded(cell, delimiter) == value
  {
    if cell == Quoted(value) {
      UndoubleDoubled(value);
      assert Body(cell) == Doubled(value);
    } else {
      assert cell != [] ==> cell[0] != QUOTE;
    }
  }

  /** The cells are exactly the texts that represent some value. */
  lemma CellIffRepresents(data: Text, delimiter: Byte)
    ensures IsCell(data, delimiter) <==> exists value :: Represents(data, value, delimiter)
  {
    if IsCell(data, delimiter) { DecodedRepresents(data, delimiter); }
    forall value | Represents(data, value, delimiter) ensures IsCell(data, delimiter) {
      RepresentedIsCell(data, value, delimiter);
    }
  }

  /** What is left of a quoted cell's body at `i`. */
  function Remaining(data: Text, i: nat): Text
    requires 1 <= i < |data|
  {
    data[i..|data| - 1]
  }

  lemma UndoublesAt(data: Text, i: nat)
    requires 1 <= i < |data| - 1
    ensures Undoubles(Remaining(data, i)) ==
      if data[i] == QUOTE then i + 2 < |data| && data[i + 1] == QUOTE && Undoubles(Remaining(data, i + 2))
      else Undoubles(Remaining(data, i + 1))
  {
    var rest := Remaining(data, i);
    assert rest[1..] == Remaining(data, i + 1);
    if i + 2 < |data| { assert rest[2..] == Remaining(data, i + 2); }
  }

  lemma RemainingEnds(data: Text)
    requires |data| >= 2 && data[0] == QUOTE
    ensures Remaining(data, 1) == Body(data) && Undoubles(Remaining(data, |data| - 1))
  {
  }

  method CellValid(data: Text, delimiter: Byte) returns (r: bool)
    ensures r <==> DelimiterValid(delimiter) && exists value :: Represents(data, value, delimiter)
    ensures r ==> delimiter in [9, 44, 59, 124]
  {
    CellIffRepresents(data, delimiter);
    if !DelimiterValid(delimiter) { return false; }
    var count := |data|;
    if count == 0 { return true; }
    if data[0] != QUOTE {
      var i := 0;
      while i < count
        invariant i <= count && forall k :: 0 <= k < i ==> !Special(data[k], delimiter)
      {
        if data[i] == QUOTE || data[i] == delimiter || IsNewline(data[i]) { return false; }
        i := i + 1;
      }
      return true;
    }
    if count < 2 || data[count - 1] != QUOTE { return false; }
    RemainingEnds(data);
    var i := 1;
    while i + 1 < count
      invariant 1 <= i <= count - 1
      invariant Undoubles(Remaining(data, i)) == Undoubles(Body(data))
    {
      hide Undoubles, Remaining;
      UndoublesAt(data, i);
      if data[i] == QUOTE {
        if i + 1 >= count - 1 || data[i + 1] != QUOTE { return false; }
        i := i + 1;
      }
      i := i + 1;
    }
    return true;
  }

  method DecodedSize(data: Text, delimiter: Byte) returns (r: int)
    ensures r == if DelimiterValid(delimiter) && IsCell(data, delimiter) then |Decoded(data, delimiter)| else -1
    ensures r == -1 <==> delimiter !in [9, 44, 59, 124] || !IsCell(data, delimiter)
  {
    CellIffRepresents(data, delimiter);
    var valid := CellValid(data, delimiter);
    if !valid { return -1; }
    if |data| == 0 { return 0; }
    if data[0] != QUOTE { return |data|; }
    var out := 0;
    var i := 1;
    while i < |data| - 1
      invariant 1 <= i <= |data| - 1
      invariant Undoubles(data[i..|data| - 1])
      invariant out + |Undouble(data[i..|data| - 1])| == |Decoded(data, delimiter)|
    {
      var rest := data[i..|data| - 1];
      if data[i] == QUOTE {
        assert rest[2..] == data[i + 2..|data| - 1];
        i := i + 1;
      } else {
        assert rest[1..] == data[i + 1..|data| - 1];
      }
      out := out + 1;
      i := i + 1;
    }
    assert data[i..|data| - 1] == [];
    return out;
  }

  predicate Fits(data: Text, delimiter: Byte, capacity: int) {
    DelimiterValid(delimiter) && IsCell(data, delimiter) && |Decoded(data, delimiter)| <= capacity
  }

  method DecodeCell(data: Text, destination: array<Byte>, delimiter: Byte) returns (r: int)
    modifies destination
    ensures !Fits(data, delimiter, destination.Length) ==> r == -1 && destination[..] == old(destination[..])
    ensures Fits(data, delimiter, destination.Length) ==>
      && r == |Decoded(data, delimiter)|
      && destination[..] == Written(old(destination[..]), Decoded(data, delimiter))
  {
    hide Written, Undoubles, Undouble, Body, IsCell, Decoded;
    var need := DecodedSize(data, delimiter);
    if need < 0 || destination.Length < need { return -1; }
    ghost var before := destination[..];
    ghost var done: Text := [];
    ghost var value := Decoded(data, delimiter);
    var i := 0;
    var end := |data|;
    if |data| > 0 && data[0] == QUOTE {
      i := 1;
      end := end - 1;
    }
    BodyUndoubles(data, delimiter, i, end);
    var out := 0;
    NothingWritten(data, before);
    while i < end
      invariant i <= end <= |data| && out == |done|
      invariant Undoubles(data[i..end]) && done + Undouble(data[i..end]) == value
      invariant destination[..] == Written(before, done)
    {
      UndoubleNext(data, i, end);
      Put(destination, before, done, data[i], out);
      done := done + [data[i]];
      if data[i] == QUOTE { i := i + 1; }
      out := out + 1;
      i := i + 1;
    }
    NothingToUndouble(data[i..end]);
    assert done == value;
    return out;
  }

  lemma BodyUndoubles(data: Text, delimiter: Byte, i: nat, end: int)
    requires IsCell(data, delimiter)
    requires if data != [] && data[0] == QUOTE then i == 1 && end == |data| - 1 else i == 0 && end == |data|
    ensures i <= end <= |data| && Undoubles(data[i..end]) && Undouble(data[i..end]) == Decoded(data, delimiter)
  {
    assert data[i..end] == Body(data) || |data| < 2;
    if i == 0 {
      assert data[i..end] == data;
      BareUndoubles(data, delimiter);
    }
  }

  lemma UndoubleNext(data: Text, i: nat, end: nat)
    requires i < end <= |data| && Undoubles(data[i..end])
    ensures var n := if data[i] == QUOTE then 2 else 1;
      && i + n <= end && Undoubles(data[i + n..end])
      && Undouble(data[i..end]) == [data[i]] + Undouble(data[i + n..end])
  {
    var rest := data[i..end];
    assert rest[1..] == data[i + 1..end];
    if data[i] == QUOTE { assert rest[2..] == data[i + 2..end]; }
  }

  lemma NothingToUndouble(s: Text)
    requires s == []
    ensures Undoubles(s) && Undouble(s) == []
  {
  }

  // --------------------------------------------------------------- round trips

  /** Every encoding is a cell and decodes to what was encoded. */
  lemma DecodeEncode(value: Text, delimiter: Byte)
    ensures IsCell(Encoded(value, delimiter), delimiter)
    ensures Decoded(Encoded(value, delimiter), delimiter) == value
  {
    RepresentedIsCell(Encoded(value, delimiter), value, delimiter);
  }

  /** Encoding what a cell decodes to is never longer than the cell, and doing so again changes nothing. */
  lemma EncodeDecode(cell: Text, delimiter: Byte)
    requires IsCell(cell, delimiter)
    ensures var again := Encoded(Decoded(cell, delimiter), delimiter);
      && |again| <= |cell|
      && IsCell(again, delimiter) && Encoded(Decoded(again, delimiter), delimiter) == again
  {
    var value := Decoded(cell, delimiter);
    DecodedRepresents(cell, delimiter);
    DoubledIsLonger(value);
    DecodeEncode(value, delimiter);
  }

  // -------------------------------------------------------------------- rows

  /** A field as the row scanner takes it: bare bytes, then perhaps a quoted run to the field's end. */
  ghost predicate IsField(f: Text, delimiter: Byte) {
    exists plain, body :: FieldParts(f, plain, body, delimiter)
  }

  predicate FieldParts(f: Text, plain: Text, body: Option<Text>, delimiter: Byte) {
    IsBare(plain, delimiter) && f == plain + if body.Some? then Quoted(body.value) else []
  }

  ghost predicate AreFields(fields: seq<Text>, delimiter: Byte) {
    forall i :: 0 <= i < |fields| ==> IsField(fields[i], delimiter)
  }

  /** What the scanner makes of the rest of a row: the fields that end in it, or -1. */
  datatype ScanState = Bare | Inside | Ended

  function AddField(count: int): int {
    if count < 0 then -1 else count + 1
  }

  function Scan(state: ScanState, row: Text, delimiter: Byte): (count: int)
    ensures count == -1 || count >= 1
    decreases |row|
  {
    if row == [] then (if state.Inside? then -1 else 1)
    else match state
      case Inside =>
        if row[0] != QUOTE then Scan(Inside, row[1..], delimiter)
        else if |row| > 1 && row[1] == QUOTE then Scan(Inside, row[2..], delimiter)
        else Scan(Ended, row[1..], delimiter)
      case Ended => if row[0] == delimiter then AddField(Scan(Bare, row[1..], delimiter)) else -1
      case Bare =>
        if row[0] == delimiter then AddField(Scan(Bare, row[1..], delimiter))
        else if row[0] == QUOTE then Scan(Inside, row[1..], delimiter)
        else if IsNewline(row[0]) then -1
        else Scan(Bare, row[1..], delimiter)
  }

  method FieldsCount(row: Text, delimiter: Byte) returns (r: int)
    ensures r == if delimiter in [9, 44, 59, 124] then Scan(Bare, row, delimiter) else -1
  {
    if !DelimiterValid(delimiter) { return -1; }
    var fieldCount := 1;
    var state := 0;
    var i := 0;
    ghost var all := Scan(Bare, row, delimiter);
    assert row[0..] == row;
    while i < |row|
      invariant i <= |row| && 0 <= state <= 2 && fieldCount >= 1
      invariant all == Counted(fieldCount, Scan(StateOf(state), row[i..], delimiter))
    {
      ghost var rest := row[i..];
      assert rest[1..] == row[i + 1..];
      var c := row[i];
      if state == 1 {
        if c == QUOTE {
          if i + 1 < |row| && row[i + 1] == QUOTE {
            assert rest[2..] == row[i + 2..];
            i := i + 1;
          } else {
            state := 2;
          }
        }
      } else if state == 2 {
        if c == delimiter {
          fieldCount := fieldCount + 1;
          state := 0;
        } else {
          return -1;
        }
      } else {
        if c == delimiter { fieldCount := fieldCount + 1; }
        else if c == QUOTE { state := 1; }
        else if IsNewline(c) { return -1; }
      }
      i := i + 1;
    }
    assert row[i..] == [];
    if state == 1 { return -1; }
    return fieldCount;
  }

  function StateOf(state: int): ScanState {
    if state == 1 then Inside else if state == 2 then Ended else Bare
  }

  /** The count once `rest` more fields end, one of them being the current one. */
  function Counted(count: int, rest: int): int {
    if rest < 0 then -1 else count - 1 + rest
  }

  lemma {:induction false} ScanBare(plain: Text, rest: Text, delimiter: Byte)
    requires IsBare(plain, delimiter)
    ensures Scan(Bare, plain + rest, delimiter) == Scan(Bare, rest, delimiter)
  {
    if plain == [] { assert plain + rest == rest; }
    else {
      assert (plain + rest)[1..] == plain[1..] + rest;
      ScanBare(plain[1..], rest, delimiter);
    }
  }

  /** Inside quotes the scanner passes over a doubled text and out of its closing quote. */
  lemma {:induction false} ScanQuoted(body: Text, rest: Text, delimiter: Byte)
    requires rest == [] || rest[0] != QUOTE
    ensures Scan(Inside, Doubled(body) + [QUOTE] + rest, delimiter) == Scan(Ended, rest, delimiter)
  {
    var row := Doubled(body) + [QUOTE] + rest;
    if body == [] {
      assert row == [QUOTE] + rest && row[1..] == rest;
    } else {
      var n := if body[0] == QUOTE then 2 else 1;
      assert row[n..] == Doubled(body[1..]) + [QUOTE] + rest;
      ScanQuoted(body[1..], rest, delimiter);
    }
  }

  /** Scanning one field and what follows it. */
  lemma ScanField(f: Text, rest: Text, delimiter: Byte)
    requires DelimiterValid(delimiter) && IsField(f, delimiter) && (rest == [] || rest[0] == delimiter)
    ensures Scan(Bare, f + rest, delimiter) ==
      if rest == [] then 1 else AddField(Scan(Bare, rest[1..], delimiter))
  {
    hide Scan, IsBare, Quoted, AddField;
    var plain, body :| FieldParts(f, plain, body, delimiter);
    ScanAfterField(rest, delimiter);
    if body.None? {
      assert f + rest == plain + rest;
      ScanBare(plain, rest, delimiter);
    } else {
      var tail := Quoted(body.value) + rest;
      assert f + rest == plain + tail;
      ScanBare(plain, tail, delimiter);
      ScanQuotedField(body.value, rest, delimiter);
    }
  }

  lemma ScanAfterField(rest: Text, delimiter: Byte)
    requires DelimiterValid(delimiter) && (rest == [] || rest[0] == delimiter)
    ensures Scan(Bare, rest, delimiter) == Scan(Ended, rest, delimiter)
    ensures Scan(Bare, rest, delimiter) == if rest == [] then 1 else AddField(Scan(Bare, rest[1..], delimiter))
  {
  }

  lemma ScanQuotedField(body: Text, rest: Text, delimiter: Byte)
    requires DelimiterValid(delimiter) && (rest == [] || rest[0] == delimiter)
    ensures Scan(Bare, Quoted(body) + rest, delimiter) == Scan(Ended, rest, delimiter)
  {
    var tail := Quoted(body) + rest;
    assert tail[1..] == Doubled(body) + [QUOTE] + rest;
    ScanQuoted(body, rest, delimiter);
  }

  /** A row joined from fields is counted exactly. */
  lemma {:induction false} ScanJoined(fields: seq<Text>, delimiter: Byte)
    requires DelimiterValid(delimiter) && fields != [] && AreFields(fields, delimiter)
    ensures Scan(Bare, Join(fields, delimiter), delimiter) == |fields|
    decreases |fields|
  {
    if |fields| == 1 {
      ScanField(fields[0], [], delimiter);
      assert fields[0] + [] == fields[0];
    } else {
      var rest := Join(fields[1..], delimiter);
      ScanJoined(fields[1..], delimiter);
      ScanField(fields[0], [delimiter] + rest, delimiter);
      assert ([delimiter] + rest)[1..] == rest;
      assert Join(fields, delimiter) == fields[0] + ([delimiter] + rest);
    }
  }

  lemma CellIsField(cell: Text, delimiter: Byte)
    requires IsCell(cell, delimiter)
    ensures IsField(cell, delimiter)
  {
    DecodedRepresents(cell, delimiter);
    var value := Decoded(cell, delimiter);
    if cell == Quoted(value) {
      assert FieldParts(cell, [], Some(value), delimiter);
    } else {
      assert FieldParts(cell, cell, None, delimiter);
    }
  }

  /** Encode any cells, join them with the delimiter, and the row has as many fields as there were cells. */
  lemma JoinedCellsAreCounted(values: seq<Text>, delimiter: Byte)
    requires DelimiterValid(delimiter) && values != []
    ensures Scan(Bare, Join(EncodeAll(values, delimiter), delimiter), delimiter) == |values|
  {
    var cells := EncodeAll(values, delimiter);
    forall i | 0 <= i < |cells| ensures IsField(cells[i], delimiter) {
      DecodeEncode(values[i], delimiter);
      CellIsField(cells[i], delimiter);
    }
    ScanJoined(cells, delimiter);
  }

  function EncodeAll(values: seq<Text>, delimiter: Byte): (cells: seq<Text>)
    ensures |cells| == |values| && forall i :: 0 <= i < |cells| ==> cells[i] == Encoded(values[i], delimiter)
  {
    seq(|values|, i requires 0 <= i < |values| => Encoded(values[i], delimiter))
  }

  /** The part of a field read so far: nothing yet, inside its quotes, or past them. */
  ghost predicate Pending(state: ScanState, seen: Text, delimiter: Byte) {
    match state
    case Bare => IsBare(seen, delimiter)
    case Inside => exists plain, body :: IsBare(plain, delimiter) && seen == OpenQuote(plain, body)
    case Ended => IsField(seen, delimiter) && seen != [] && seen[|seen| - 1] == QUOTE
  }

  function OpenQuote(plain: Text, body: Text): Text {
    plain + [QUOTE] + Doubled(body)
  }

  /** Whatever is counted does split into that many fields. */
  lemma {:induction false} CountedSplits(state: ScanState, seen: Text, row: Text, delimiter: Byte)
    returns (fields: seq<Text>)
    requires DelimiterValid(delimiter) && Pending(state, seen, delimiter)
    requires Scan(state, row, delimiter) >= 1
    ensures fields != [] && |fields| == Scan(state, row, delimiter)
    ensures AreFields(fields, delimiter) && Join(fields, delimiter) == seen + row
    decreases |row|
  {
    hide IsBare, IsField, Pending, Doubled;
    if row == [] {
      PendingIsField(state, seen, delimiter);
      fields := [seen];
      assert seen + row == seen;
    } else if row[0] == delimiter && !state.Inside? {
      PendingIsField(state, seen, delimiter);
      NothingIsPending(delimiter);
      var rest := CountedSplits(Bare, [], row[1..], delimiter);
      fields := FieldThenFields(seen, rest, row[1..], delimiter);
      assert row == [delimiter] + row[1..] && seen + row == seen + [delimiter] + row[1..];
    } else {
      var (n, next) := StepInField(state, row, delimiter);
      PendingGrows(state, seen, row, delimiter);
      StepKeepsCount(state, row, delimiter);
      fields := CountedSplits(next, seen + row[..n], row[n..], delimiter);
      assert seen + row == seen + row[..n] + row[n..];
    }
  }

  lemma PendingIsField(state: ScanState, seen: Text, delimiter: Byte)
    requires Pending(state, seen, delimiter) && !state.Inside?
    ensures IsField(seen, delimiter)
  {
    if state.Bare? { assert FieldParts(seen, seen, None, delimiter); }
  }

  lemma NothingIsPending(delimiter: Byte)
    ensures Pending(Bare, [], delimiter)
  {
  }

  lemma FieldThenFields(f: Text, rest: seq<Text>, row: Text, delimiter: Byte) returns (fields: seq<Text>)
    requires IsField(f, delimiter) && rest != [] && AreFields(rest, delimiter) && Join(rest, delimiter) == [] + row
    ensures fields != [] && |fields| == 1 + |rest| && AreFields(fields, delimiter)
    ensures Join(fields, delimiter) == f + [delimiter] + row
  {
    fields := [f] + rest;
    assert fields[1..] == rest;
  }

  lemma StepKeepsCount(state: ScanState, row: Text, delimiter: Byte)
    requires row != [] && (row[0] != delimiter || state.Inside?) && Scan(state, row, delimiter) >= 1
    ensures var (n, next) := StepInField(state, row, delimiter);
      0 < n <= |row| && Scan(next, row[n..], delimiter) == Scan(state, row, delimiter)
  {
  }

  /** How far the scanner moves inside a field, and the state it moves to. */
  function StepInField(state: ScanState, row: Text, delimiter: Byte): (nat, ScanState)
    requires row != []
  {
    match state
    case Inside =>
      if row[0] != QUOTE then (1, Inside)
      else if |row| > 1 && row[1] == QUOTE then (2, Inside)
      else (1, Ended)
    case _ => if row[0] == QUOTE then (1, Inside) else (1, Bare)
  }

  lemma PendingGrows(state: ScanState, seen: Text, row: Text, delimiter: Byte)
    requires Pending(state, seen, delimiter) && row != [] && Scan(state, row, delimiter) >= 1
    requires row[0] != delimiter || state.Inside?
    ensures var (n, next) := StepInField(state, row, delimiter);
      n <= |row| && Pending(next, seen + row[..n], delimiter)
  {
    var (n, next) := StepInField(state, row, delimiter);
    if state.Inside? {
      InsideGrows(seen, row, delimiter);
    } else if next.Inside? {
      assert seen + row[..1] == OpenQuote(seen, []);
    }
  }

  lemma InsideGrows(seen: Text, row: Text, delimiter: Byte)
    requires Pending(Inside, seen, delimiter) && row != []
    ensures var (n, next) := StepInField(Inside, row, delimiter);
      n <= |row| && Pending(next, seen + row[..n], delimiter)
  {
    hide IsBare, Doubled;
    var (n, next) := StepInField(Inside, row, delimiter);
    var plain, body :| IsBare(plain, delimiter) && seen == OpenQuote(plain, body);
    if next.Ended? {
      assert seen + row[..1] == plain + Quoted(body);
      assert FieldParts(seen + row[..1], plain, Some(body), delimiter);
    } else {
      DoubledAppend(body, [row[0]]);
      DoubledOne(row[0]);
      assert row[..n] == Doubled([row[0]]);
      assert seen + row[..n] == OpenQuote(plain, body + [row[0]]);
    }
  }

  lemma DoubledOne(c: Byte)
    ensures Doubled([c]) == if c == QUOTE then [c, c] else [c]
  {
    assert [c][1..] == [];
  }

  ghost predicate SplitsInto(row: Text, n: int, delimiter: Byte) {
    exists fields: seq<Text> ::
      fields != [] && |fields| == n && AreFields(fields, delimiter) && Join(fields, delimiter) == row
  }

  /** The scanner answers `n` exactly when the row is `n` fields joined by the delimiter;
      in particular it answers -1 exactly when the row is no such join. */
  lemma CountIsExact(row: Text, n: int, delimiter: Byte)
    requires DelimiterValid(delimiter) && n >= 1
    ensures Scan(Bare, row, delimiter) == n <==> SplitsInto(row, n, delimiter)
  {
    NothingIsPending(delimiter);
    if Scan(Bare, row, delimiter) == n {
      var fields := CountedSplits(Bare, [], row, delimiter);
      assert [] + row == row;
      assert fields != [] && |fields| == n && AreFields(fields, delimiter) && Join(fields, delimiter) == row;
    }
    if SplitsInto(row, n, delimiter) {
      var fields: seq<Text> :|
        fields != [] && |fields| == n && AreFields(fields, delimiter) && Join(fields, delimiter) == row;
      ScanJoined(fields, delimiter);
    }
  }

  // ---------------------------------------------------------- rows of cells

  /** Whether a quote opens after bare bytes of the same field; `first` says that the
      current field has no byte yet. */
  predicate LateQuote(state: ScanState, first: bool, row: Text, delimiter: Byte)
    decreases |row|
  {
    row != [] &&
    match state
    case Inside =>
      if row[0] != QUOTE then LateQuote(Inside, false, row[1..], delimiter)
      else if |row| > 1 && row[1] == QUOTE then LateQuote(Inside, false, row[2..], delimiter)
      else LateQuote(Ended, false, row[1..], delimiter)
    case Ended => row[0] == delimiter && LateQuote(Bare, true, row[1..], delimiter)
    case Bare =>
      if row[0] == delimiter then LateQuote(Bare, true, row[1..], delimiter)
      else if row[0] == QUOTE then !first || LateQuote(Inside, false, row[1..], delimiter)
      else LateQuote(Bare, false, row[1..], delimiter)
  }

  lemma {:induction false} LateAfterBare(plain: Text, first: bool, rest: Text, delimiter: Byte)
    requires IsBare(plain, delimiter)
    ensures LateQuote(Bare, first, plain + rest, delimiter) == LateQuote(Bare, first && plain == [], rest, delimiter)
  {
    if plain == [] { assert plain + rest == rest; }
    else {
      assert (plain + rest)[1..] == plain[1..] + rest;
      LateAfterBare(plain[1..], false, rest, delimiter);
    }
  }

  lemma {:induction false} LateAfterQuoted(body: Text, rest: Text, delimiter: Byte)
    requires rest == [] || rest[0] != QUOTE
    ensures LateQuote(Inside, false, Doubled(body) + [QUOTE] + rest, delimiter) ==
      LateQuote(Ended, false, rest, delimiter)
  {
    var row := Doubled(body) + [QUOTE] + rest;
    if body == [] {
      assert row == [QUOTE] + rest && row[1..] == rest;
    } else {
      var n := if body[0] == QUOTE then 2 else 1;
      assert row[n..] == Doubled(body[1..]) + [QUOTE] + rest;
      LateAfterQuoted(body[1..], rest, delimiter);
    }
  }

  lemma BareThenQuotedIsNoCell(plain: Text, body: Text, delimiter: Byte)
    requires IsBare(plain, delimiter)
    ensures IsCell(plain + Quoted(body), delimiter) <==> plain == []
  {
    var f := plain + Quoted(body);
    assert f[|plain|] == QUOTE;
    if plain == [] {
      assert f == Quoted(body);
      RepresentedIsCell(f, body, delimiter);
    }
  }

  /** A field counts as late exactly when it is not a cell. */
  lemma LateInField(f: Text, rest: Text, delimiter: Byte)
    requires DelimiterValid(delimiter) && IsField(f, delimiter) && (rest == [] || rest[0] == delimiter)
    ensures LateQuote(Bare, true, f + rest, delimiter) <==>
      !IsCell(f, delimiter) || (rest != [] && LateQuote(Bare, true, rest[1..], delimiter))
  {
    hide IsBare, Doubled, IsCell;
    var plain, body :| FieldParts(f, plain, body, delimiter);
    if body.None? {
      assert f == plain;
      LateAfterBare(plain, true, rest, delimiter);
      BareIsCell(plain, delimiter);
    } else {
      var tail := Quoted(body.value) + rest;
      assert f + rest == plain + tail && tail[1..] == Doubled(body.value) + [QUOTE] + rest;
      LateAfterBare(plain, true, tail, delimiter);
      LateAfterQuoted(body.value, rest, delimiter);
      BareThenQuotedIsNoCell(plain, body.value, delimiter);
    }
  }

  lemma BareIsCell(s: Text, delimiter: Byte)
    requires IsBare(s, delimiter)
    ensures IsCell(s, delimiter)
  {
  }

  ghost predicate AreCells(cells: seq<Text>, delimiter: Byte) {
    forall i :: 0 <= i < |cells| ==> IsCell(cells[i], delimiter)
  }

  lemma {:induction false} LateInJoined(fields: seq<Text>, delimiter: Byte)
    requires DelimiterValid(delimiter) && fields != [] && AreFields(fields, delimiter)
    ensures LateQuote(Bare, true, Join(fields, delimiter), delimiter) <==> !AreCells(fields, delimiter)
    decreases |fields|
  {
    hide LateQuote, IsField, IsCell;
    if |fields| == 1 {
      LateInField(fields[0], [], delimiter);
      assert fields[0] + [] == fields[0];
    } else {
      var rest := Join(fields[1..], delimiter);
      LateInJoined(fields[1..], delimiter);
      LateInField(fields[0], [delimiter] + rest, delimiter);
      assert ([delimiter] + rest)[1..] == rest;
      assert Join(fields, delimiter) == fields[0] + ([delimiter] + rest);
      assert AreCells(fields, delimiter) <==> IsCell(fields[0], delimiter) && AreCells(fields[1..], delimiter) by {
        if IsCell(fields[0], delimiter) && AreCells(fields[1..], delimiter) {
          assert forall i :: 0 < i < |fields| ==> fields[i] == fields[1..][i - 1];
        }
      }
    }
  }

  ghost predicate SplitsIntoCells(row: Text, n: int, delimiter: Byte) {
    exists cells: seq<Text> ::
      cells != [] && |cells| == n && AreCells(cells, delimiter) && Join(cells, delimiter) == row
  }

  /** A row that is counted as `n` fields is a row of `n` cells exactly when no quote opens
      after bare bytes. */
  lemma CountedRowIsCellsIff(row: Text, n: int, delimiter: Byte)
    requires DelimiterValid(delimiter) && n >= 1 && Scan(Bare, row, delimiter) == n
    ensures SplitsIntoCells(row, n, delimiter) <==> !LateQuote(Bare, true, row, delimiter)
  {
    hide Scan, LateQuote, IsCell, IsField, Pending;
    CountIsExact(row, n, delimiter);
    var fields: seq<Text> :|
      fields != [] && |fields| == n && AreFields(fields, delimiter) && Join(fields, delimiter) == row;
    LateInJoined(fields, delimiter);
    if SplitsIntoCells(row, n, delimiter) {
      var cells: seq<Text> :|
        cells != [] && |cells| == n && AreCells(cells, delimiter) && Join(cells, delimiter) == row;
      forall i | 0 <= i < |cells| ensures IsField(cells[i], delimiter) {
        CellIsField(cells[i], delimiter);
      }
      LateInJoined(cells, delimiter);
    }
  }

  /** The row `a"b"` is counted as one field, and is no cell. */
  lemma LateQuoteIsCounted()
    ensures var row: Text := [97, 34, 98, 34];
      Scan(Bare, row, COMMA) == 1 && !IsCell(row, COMMA) && LateQuote(Bare, true, row, COMMA)
  {
    var row: Text := [97, 34, 98, 34];
    assert row[1..] == [34, 98, 34] && row[1..][1..] == [98, 34];
    assert row[1..][1..][1..] == [34] && row[1..][1..][1..][1..] == [];
    assert row[1] == QUOTE;
  }
}
