/** noqeri.json: string tokens, numbers and quoting, byte by byte. */
module Json {
  import opened Bytes
  import opened Buffers
  import opened Outcomes
  import Decimals
  import Hex

  predicate JsonHex(c: Byte) {
    IsDigit(c) || 65 <= c <= 70 || 97 <= c <= 102
  }

  // ---------------------------------------------------------- string tokens

  /** One character of a string, as section 7 of RFC 8259 writes it. */
  datatype Unit = Plain(c: Byte) | Escape(e: Byte) | Unicode(hex: Text)

  predicate UnitOk(u: Unit) {
    match u
    case Plain(c) => c >= 32 && c != QUOTE && c != BACKSLASH
    case Escape(e) => SimpleEscape(e)
    case Unicode(hex) => |hex| == 4 && FourHex(hex, 0)
  }

  predicate FourHex(s: Text, from: nat)
    requires from + 4 <= |s|
  {
    forall m :: from <= m < from + 4 ==> JsonHex(s[m])
  }

  predicate SimpleEscape(e: Byte) {
    e == 34 || e == 92 || e == 47 || e == 98 || e == 102 || e == 110 || e == 114 || e == 116
  }

  function UnitText(u: Unit): (s: Text)
    ensures |s| >= 1
  {
    match u
    case Plain(c) => [c]
    case Escape(e) => [BACKSLASH, e]
    case Unicode(hex) => [BACKSLASH, 117] + hex
  }

  predicate UnitsOk(units: seq<Unit>) {
    forall k :: 0 <= k < |units| ==> UnitOk(units[k])
  }

  function Spell(units: seq<Unit>): Text {
    if units == [] then [] else UnitText(units[0]) + Spell(units[1..])
  }

  function Token(units: seq<Unit>): Text {
    [QUOTE] + Spell(units) + [QUOTE]
  }

  ghost predicate IsToken(src: Text) {
    exists units :: UnitsOk(units) && src == Token(units)
  }

  /** The first character of a string's inside, with its length; 0 when there is none. */
  function UnitLength(s: Text): (n: nat)
    ensures n <= |s|
  {
    if s == [] || s[0] < 32 || s[0] == QUOTE then 0
    else if s[0] != BACKSLASH then 1
    else if |s| >= 2 && SimpleEscape(s[1]) then 2
    else if |s| >= 6 && s[1] == 117 && FourHex(s, 2) then 6
    else 0
  }

  function UnitOf(s: Text): (u: Unit)
    requires UnitLength(s) > 0
    ensures UnitOk(u) && UnitText(u) == s[..UnitLength(s)]
  {
    if UnitLength(s) == 1 then Plain(s[0])
    else if UnitLength(s) == 2 then Escape(s[1])
    else
      FourHexMoved(s[2..6], 0, s, 2);
      Unicode(s[2..6])
  }

  lemma FourHexMoved(a: Text, i: nat, b: Text, j: nat)
    requires i + 4 <= |a| && j + 4 <= |b| && a[i..i + 4] == b[j..j + 4]
    ensures FourHex(a, i) == FourHex(b, j)
  {
    assert forall m :: i <= m < i + 4 ==> a[m] == a[i..i + 4][m - i];
    assert forall m :: j <= m < j + 4 ==> b[m] == b[j..j + 4][m - j];
    if FourHex(a, i) {
      forall m | j <= m < j + 4 ensures JsonHex(b[m]) { assert b[m] == a[m - j + i]; }
    }
    if FourHex(b, j) {
      forall m | i <= m < i + 4 ensures JsonHex(a[m]) { assert a[m] == b[m - i + j]; }
    }
  }

  predicate Chars(s: Text) {
    s == [] || (UnitLength(s) > 0 && Chars(s[UnitLength(s)..]))
  }

  function Units(s: Text): (units: seq<Unit>)
    requires Chars(s)
    ensures UnitsOk(units)
  {
    if s == [] then [] else [UnitOf(s)] + Units(s[UnitLength(s)..])
  }

  lemma {:induction false} UnitsSpell(s: Text)
    requires Chars(s)
    ensures Spell(Units(s)) == s
  {
    hide UnitLength, UnitOf, UnitText;
    if s != [] {
      UnitsSpell(s[UnitLength(s)..]);
      assert Units(s)[1..] == Units(s[UnitLength(s)..]);
      assert s == s[..UnitLength(s)] + s[UnitLength(s)..];
    }
  }

  lemma UnitLeads(u: Unit, rest: Text)
    requires UnitOk(u)
    ensures var s := UnitText(u) + rest;
      UnitLength(s) == |UnitText(u)| && UnitOf(s) == u && s[UnitLength(s)..] == rest
  {
    var s := UnitText(u) + rest;
    if u.Unicode? {
      assert s[2..6] == u.hex;
      FourHexMoved(s, 2, u.hex, 0);
    }
  }

  /** A spelling reads back as the characters it was made of, so no text has two readings. */
  lemma {:induction false} SpellUnits(units: seq<Unit>)
    requires UnitsOk(units)
    ensures Chars(Spell(units)) && Units(Spell(units)) == units
  {
    if units != [] {
      SpellUnits(units[1..]);
      UnitLeads(units[0], Spell(units[1..]));
      assert units == [units[0]] + units[1..];
    }
  }

  predicate Quoted(src: Text) {
    |src| >= 2 && src[0] == QUOTE && src[|src| - 1] == QUOTE
  }

  lemma TokenIff(src: Text)
    ensures IsToken(src) <==> Quoted(src) && Chars(src[1..|src| - 1])
  {
    hide Chars, Spell, Units;
    if Quoted(src) && Chars(src[1..|src| - 1]) {
      var inside := src[1..|src| - 1];
      UnitsSpell(inside);
      assert src == Token(Units(inside));
    }
    forall units | UnitsOk(units) && src == Token(units) ensures Quoted(src) && Chars(src[1..|src| - 1]) {
      SpellUnits(units);
      assert src[1..|src| - 1] == Spell(units);
    }
  }

  /** What is left of the inside of a quoted text at `i`. */
  function Inside(src: Text, i: nat): Text
    requires 1 <= i < |src|
  {
    src[i..|src| - 1]
  }

  lemma LengthAt(src: Text, i: nat)
    requires 1 <= i < |src| - 1
    ensures UnitLength(Inside(src, i)) ==
      if src[i] < 32 || src[i] == QUOTE then 0
      else if src[i] != BACKSLASH then 1
      else if i + 2 < |src| && SimpleEscape(src[i + 1]) then 2
      else if i + 6 < |src| && src[i + 1] == 117 && FourHex(src, i + 2) then 6
      else 0
  {
    var s := Inside(src, i);
    if |s| >= 6 {
      assert forall m :: 2 <= m < 6 ==> s[m] == src[i + m];
      assert s[2..2 + 4] == src[i + 2..i + 2 + 4];
      FourHexMoved(s, 2, src, i + 2);
    }
  }

  lemma CharsStep(src: Text, i: nat)
    requires 1 <= i < |src| - 1
    ensures var n := UnitLength(Inside(src, i));
      Chars(Inside(src, i)) == (n > 0 && Chars(Inside(src, i + n)))
  {
    var s := Inside(src, i);
    assert s[UnitLength(s)..] == src[i + UnitLength(s)..|src| - 1];
  }

  /** Accepts exactly the string tokens of section 7 of RFC 8259, taken byte by byte. */
  method JsonStringTokenValid(src: Text) returns (r: bool)
    ensures r <==> IsToken(src)
    ensures r ==> |src| >= 2 && src[0] == src[|src| - 1] == 34
  {
    hide IsToken, Chars, UnitLength, Inside;
    TokenIff(src);
    if |src| < 2 || src[0] != QUOTE || src[|src| - 1] != QUOTE { return false; }
    var i := 1;
    InsideEnds(src);
    while i + 1 < |src|
      invariant 1 <= i <= |src| - 1
      invariant Chars(Inside(src, i)) == IsToken(src)
    {
      CharsStep(src, i);
      LengthAt(src, i);
      var c := src[i];
      if c < 32 || c == QUOTE { return false; }
      if c == BACKSLASH {
        i := i + 1;
        if i + 1 >= |src| { return false; }
        var e := src[i];
        if e == 117 {
          if i + 4 >= |src| - 1 { return false; }
          var k := 1;
          while k <= 4
            invariant 1 <= k <= 5
            invariant forall m :: i + 1 <= m < i + k ==> JsonHex(src[m])
          {
            if !JsonHex(src[i + k]) { return false; }
            k := k + 1;
          }
          assert FourHex(src, i + 1);
          i := i + 4;
        } else if e != 34 && e != 92 && e != 47 && e != 98 && e != 102 && e != 110 && e != 114 && e != 116 {
          return false;
        }
      }
      i := i + 1;
    }
    return true;
  }

  lemma InsideEnds(src: Text)
    requires |src| >= 2
    ensures Inside(src, 1) == src[1..|src| - 1] && Chars(Inside(src, |src| - 1))
  {
  }

  // ----------------------------------------------------------------- quoting

  /** How the quoter writes a byte. */
  function EscapeOf(c: Byte): (u: Unit)
    ensures UnitOk(u)
  {
    if c == QUOTE || c == BACKSLASH then Escape(c)
    else if c < 32 then Unicode([48, 48, 48 + c / 16, Hex.HexSymbol(c % 16, false)])
    else Plain(c)
  }

  function EscapeAll(data: Text): (units: seq<Unit>)
    ensures |units| == |data| && UnitsOk(units)
  {
    if data == [] then [] else [EscapeOf(data[0])] + EscapeAll(data[1..])
  }

  function QuotedText(data: Text): Text {
    Token(EscapeAll(data))
  }

  /** What a character of a string stands for, by section 7 of RFC 8259. */
  function Meaning(u: Unit): int
    requires UnitOk(u)
  {
    match u
    case Plain(c) => c
    case Escape(e) =>
      if e == 98 then 8 else if e == 102 then 12 else if e == 110 then 10
      else if e == 114 then 13 else if e == 116 then 9 else e
    case Unicode(hex) =>
      Hex.HexValue(hex[0]) * 4096 + Hex.HexValue(hex[1]) * 256 + Hex.HexValue(hex[2]) * 16 + Hex.HexValue(hex[3])
  }

  /** The digits of an escape are the bytes with a hexadecimal value. */
  lemma HexDigitIff(c: Byte)
    ensures JsonHex(c) <==> Hex.HexValue(c) >= 0
  {
  }

  /** Four digits, in either case, for a number of sixteen bits. */
  function FourDigits(n: nat, upper: bool): Text
    requires n < 65536
  {
    [Hex.HexSymbol(n / 4096, upper), Hex.HexSymbol(n / 256 % 16, upper),
     Hex.HexSymbol(n / 16 % 16, upper), Hex.HexSymbol(n % 16, upper)]
  }

  /** An escape is allowed exactly when it has four hexadecimal digits. */
  lemma UnicodeIff(hex: Text)
    ensures UnitOk(Unicode(hex)) <==> |hex| == 4 && forall k :: 0 <= k < 4 ==> Hex.HexValue(hex[k]) >= 0
  {
    if |hex| == 4 && forall k :: 0 <= k < 4 ==> Hex.HexValue(hex[k]) >= 0 {
      forall k | 0 <= k < 4 ensures JsonHex(hex[k]) { HexDigitIff(hex[k]); }
    }
  }

  /** Every number of sixteen bits is meant by some escape, in both cases. */
  lemma UnicodeIsOnto(n: nat, upper: bool)
    requires n < 65536
    ensures UnitOk(Unicode(FourDigits(n, upper))) && Meaning(Unicode(FourDigits(n, upper))) == n
  {
    hide Hex.HexSymbol, Hex.HexValue, JsonHex;
    var hex := FourDigits(n, upper);
    Hex.SymbolHasValue(n / 4096, upper);
    Hex.SymbolHasValue(n / 256 % 16, upper);
    Hex.SymbolHasValue(n / 16 % 16, upper);
    Hex.SymbolHasValue(n % 16, upper);
    assert Hex.HexValue(hex[0]) >= 0 && Hex.HexValue(hex[1]) >= 0;
    assert Hex.HexValue(hex[2]) >= 0 && Hex.HexValue(hex[3]) >= 0;
    UnicodeIff(hex);
    DigitsSum(n);
  }

  lemma DigitsSum(n: nat)
    requires n < 65536
    ensures n == n / 4096 * 4096 + n / 256 % 16 * 256 + n / 16 % 16 * 16 + n % 16
  {
    var a := n / 16;
    var b := a / 16;
    QuotientTwice(n, 16);
    QuotientTwice(n, 256);
    assert n == 16 * a + n % 16 && a == 16 * b + a % 16 && b == 16 * (b / 16) + b % 16;
  }

  lemma QuotientTwice(n: nat, d: nat)
    requires d == 16 || d == 256
    ensures n / d / 16 == n / (d * 16)
  {
  }

  /** The short escapes, and what they stand for: quote, backslash, slash, and five controls. */
  lemma ShortEscapes(e: Byte)
    ensures var letters, meanings := Ascii("\"\\/bfnrt"), [34, 92, 47, 8, 12, 10, 13, 9];
      && (SimpleEscape(e) <==> e in letters)
      && forall k :: 0 <= k < 8 ==> SimpleEscape(letters[k]) && Meaning(Escape(letters[k])) == meanings[k]
  {
    var letters := Ascii("\"\\/bfnrt");
    assert letters == [34, 92, 47, 98, 102, 110, 114, 116];
  }

  /** A byte stands for itself exactly when it is no control, quote or backslash; these
      are the bytes that the quoter does not escape. */
  lemma PlainIff(c: Byte)
    ensures UnitOk(Plain(c)) <==> c > 31 && c != 34 && c != 92
    ensures UnitOk(Plain(c)) <==> EscapeOf(c) == Plain(c)
  {
  }

  /** What the quoter writes for a byte: a quote or backslash after a backslash, a control
      as a Unicode escape in small hexadecimal, anything else as it is. */
  lemma EscapesAreSpelled(c: Byte)
    ensures UnitText(EscapeOf(c)) ==
      if c == 34 || c == 92 then [92, c]
      else if c < 32 then Ascii("\\u00") + Hex.Encoded([c], false)
      else [c]
  {
    if c < 32 {
      assert Hex.Encoded([c], false) == [Hex.HexSymbol(c / 16, false), Hex.HexSymbol(c % 16, false)];
      assert Ascii("\\u00") == [BACKSLASH, 117, 48, 48];
    }
  }

  /** Every quoted text is a string token, and its only reading stands for the quoted bytes. */
  lemma QuotedMeansData(data: Text, units: seq<Unit>)
    ensures IsToken(QuotedText(data))
    ensures UnitsOk(units) && Token(units) == QuotedText(data) ==>
      |units| == |data| && forall k :: 0 <= k < |data| ==> Meaning(units[k]) == data[k]
  {
    hide Spell, Meaning;
    EscapesMean(data);
    if UnitsOk(units) && Token(units) == QuotedText(data) {
      var s := QuotedText(data);
      assert s[1..|s| - 1] == Spell(units) == Spell(EscapeAll(data));
      SpellUnits(units);
      SpellUnits(EscapeAll(data));
    }
  }

  lemma {:induction false} EscapesMean(data: Text)
    ensures forall k :: 0 <= k < |data| ==> Meaning(EscapeAll(data)[k]) == data[k]
  {
    if data != [] {
      EscapesMean(data[1..]);
      var units := EscapeAll(data);
      forall k | 0 <= k < |data| ensures Meaning(units[k]) == data[k] {
        if k > 0 { assert units[k] == EscapeAll(data[1..])[k - 1]; }
      }
    }
  }

  lemma {:induction false} EscapeAppend(a: Text, b: Text)
    ensures Spell(EscapeAll(a + b)) == Spell(EscapeAll(a)) + Spell(EscapeAll(b))
  {
    if a == [] { assert a + b == b; }
    else {
      assert (a + b)[1..] == a[1..] + b;
      EscapeAppend(a[1..], b);
      assert EscapeAll(a + b)[1..] == EscapeAll(a[1..] + b);
      assert EscapeAll(a)[1..] == EscapeAll(a[1..]);
    }
  }

  lemma EscapeExtend(data: Text, i: nat)
    requires i < |data|
    ensures Spell(EscapeAll(data[..i + 1])) == Spell(EscapeAll(data[..i])) + UnitText(EscapeOf(data[i]))
    ensures |Spell(EscapeAll(data[..i + 1]))| <= |Spell(EscapeAll(data))|
  {
    assert data[..i + 1] == data[..i] + [data[i]];
    assert EscapeAll([data[i]]) == [EscapeOf(data[i])] && [EscapeOf(data[i])][1..] == [];
    EscapeAppend(data[..i], [data[i]]);
    EscapeAppend(data[..i + 1], data[i + 1..]);
    assert data == data[..i + 1] + data[i + 1..];
  }

  method JsonStringEscapedSize(data: Text) returns (n: nat)
    ensures n == |QuotedText(data)|
  {
    n := 2;
    var i := 0;
    while i < |data|
      invariant i <= |data| && n == |Spell(EscapeAll(data[..i]))| + 2
    {
      EscapeExtend(data, i);
      if data[i] == 34 || data[i] == 92 { n := n + 2; }
      else if data[i] < 32 { n := n + 6; }
      else { n := n + 1; }
      i := i + 1;
    }
    assert data[..i] == data;
  }

  /** What the quoter has written before it reads `data[i]`. */
  function Spelled(data: Text, i: nat): Text
    requires i <= |data|
  {
    [QUOTE] + Spell(EscapeAll(data[..i]))
  }

  lemma SpelledStep(data: Text, i: nat)
    requires i < |data|
    ensures Spelled(data, i + 1) == Spelled(data, i) + UnitText(EscapeOf(data[i]))
    ensures |Spelled(data, i + 1)| < |QuotedText(data)|
  {
    EscapeExtend(data, i);
  }

  lemma SpelledEnds(data: Text)
    ensures Spelled(data, 0) == [QUOTE]
    ensures Spelled(data, |data|) + [QUOTE] == QuotedText(data)
    ensures |QuotedText(data)| >= 2
  {
    assert data[..|data|] == data;
  }

  /** The quoted text at the front of the buffer, which is untouched when that does not fit. */
  method JsonQuoteAscii(data: Text, dst: array<Byte>) returns (r: int)
    modifies dst
    ensures |QuotedText(data)| > dst.Length ==> r == -1 && dst[..] == old(dst[..])
    ensures |QuotedText(data)| <= dst.Length ==>
      r == |QuotedText(data)| && dst[..] == Written(old(dst[..]), QuotedText(data))
  {
    hide QuotedText, Written, Spelled, UnitText, EscapeOf;
    var size := JsonStringEscapedSize(data);
    if size > dst.Length { return -1; }
    ghost var before := dst[..];
    SpelledEnds(data);
    var out := 0;
    WrittenNone(before);
    Put(dst, before, [], QUOTE, out);
    assert [] + [QUOTE] == [QUOTE];
    out := out + 1;
    var i := 0;
    while i < |data|
      invariant i <= |data| && out == |Spelled(data, i)| < |QuotedText(data)| <= |before| == dst.Length
      invariant dst[..] == Written(before, Spelled(data, i))
    {
      SpelledStep(data, i);
      EscapeTexts(data[i]);
      ghost var done := Spelled(data, i);
      var c := data[i];
      if c == QUOTE || c == BACKSLASH {
        PutTwo(dst, before, done, BACKSLASH, c, out);
        out := out + 2;
      } else if c < 32 {
        var low := if c % 16 < 10 then 48 + c % 16 else 87 + c % 16;
        PutSix(dst, before, done, [BACKSLASH, 117, 48, 48, 48 + c / 16, low], out);
        out := out + 6;
      } else {
        Put(dst, before, done, c, out);
        out := out + 1;
      }
      i := i + 1;
    }
    Put(dst, before, Spelled(data, i), QUOTE, out);
    return out + 1;
  }

  lemma EscapeTexts(c: Byte)
    ensures UnitText(EscapeOf(c)) ==
      if c == QUOTE || c == BACKSLASH then [BACKSLASH, c]
      else if c < 32 then [BACKSLASH, 117, 48, 48, 48 + c / 16, if c % 16 < 10 then 48 + c % 16 else 87 + c % 16]
      else [c]
  {
  }

  method PutTwo(dst: array<Byte>, ghost before: Text, ghost done: Text, a: Byte, b: Byte, out: nat)
    requires |before| == dst.Length && out == |done| && |done| + 1 < |before|
    requires dst[..] == Written(before, done)
    modifies dst
    ensures dst[..] == Written(before, done + [a, b])
  {
    hide Written;
    Put(dst, before, done, a, out);
    Put(dst, before, done + [a], b, out + 1);
    assert done + [a] + [b] == done + [a, b];
  }

  method PutSix(dst: array<Byte>, ghost before: Text, ghost done: Text, s: Text, out: nat)
    requires |s| == 6 && |before| == dst.Length && out == |done| && |done| + 5 < |before|
    requires dst[..] == Written(before, done)
    modifies dst
    ensures dst[..] == Written(before, done + s)
  {
    hide Written;
    assert [s[0], s[1]] == s[..2];
    assert done + s[..2] + [s[2], s[3]] == done + s[..4];
    assert done + s[..4] + [s[4], s[5]] == done + s;
    PutTwo(dst, before, done, s[0], s[1], out);
    PutTwo(dst, before, done + s[..2], s[2], s[3], out + 2);
    PutTwo(dst, before, done + s[..4], s[4], s[5], out + 4);
  }

  // ----------------------------------------------------------------- numbers

  predicate IsMinus(s: Text) {
    s == [] || s == [HYPHEN]
  }

  predicate IsInt(s: Text) {
    s == [ZERO] || (s != [] && 49 <= s[0] <= 57 && AllDigits(s))
  }

  predicate IsFrac(s: Text) {
    s == [] || (|s| >= 2 && s[0] == DOT && AllDigits(s[1..]))
  }

  predicate IsExp(s: Text) {
    s == [] || ((s[0] == 101 || s[0] == 69) && IsSignedDigits(s[1..]))
  }

  predicate IsSignedDigits(s: Text) {
    if s != [] && (s[0] == PLUS || s[0] == HYPHEN) then |s| >= 2 && AllDigits(s[1..]) else s != [] && AllDigits(s)
  }

  /** Section 6 of RFC 8259: a minus or nothing, an int, then perhaps a frac and an exp. */
  ghost predicate IsNumber(data: Text) {
    exists minus, int_, frac, exp :: NumberParts(data, minus, int_, frac, exp)
  }

  predicate NumberParts(data: Text, minus: Text, int_: Text, frac: Text, exp: Text) {
    IsMinus(minus) && IsInt(int_) && IsFrac(frac) && IsExp(exp) && data == minus + int_ + frac + exp
  }

  datatype Exponent = Exponent(upper: bool, negative: Option<bool>, digits: Text)

  /** A number by its parts: the whole part has no leading zero, the other digits may. */
  datatype Number = Number(negative: bool, whole: Text, fraction: Option<Text>, exponent: Option<Exponent>)

  predicate NumberOk(n: Number) {
    && Decimals.IsCanonical(n.whole)
    && (n.fraction.Some? ==> Decimals.IsNumeral(n.fraction.value))
    && (n.exponent.Some? ==> Decimals.IsNumeral(n.exponent.value.digits))
  }

  function FractionText(fraction: Option<Text>): Text {
    if fraction.Some? then Ascii(".") + fraction.value else []
  }

  function ExponentText(exponent: Option<Exponent>): Text {
    if exponent.None? then []
    else
      Ascii(if exponent.value.upper then "E" else "e")
      + (match exponent.value.negative
         case None => []
         case Some(negative) => Ascii(if negative then "-" else "+"))
      + exponent.value.digits
  }

  function NumberText(n: Number): Text {
    (if n.negative then Ascii("-") else []) + n.whole + FractionText(n.fraction) + ExponentText(n.exponent)
  }

  ghost predicate IsNumberText(data: Text) {
    exists n :: NumberOk(n) && NumberText(n) == data
  }

  lemma WholeIff(s: Text)
    ensures IsInt(s) <==> Decimals.IsCanonical(s)
  {
    if Decimals.IsCanonical(s) && |s| == 1 && s[0] == ZERO { assert s == [ZERO]; }
  }

  lemma FractionParts(s: Text) returns (fraction: Option<Text>)
    requires IsFrac(s)
    ensures fraction.Some? ==> Decimals.IsNumeral(fraction.value)
    ensures FractionText(fraction) == s
  {
    if s == [] {
      fraction := None;
    } else {
      fraction := Some(s[1..]);
      assert s == Ascii(".") + s[1..];
    }
  }

  lemma ExponentParts(s: Text) returns (exponent: Option<Exponent>)
    requires IsExp(s)
    ensures exponent.Some? ==> Decimals.IsNumeral(exponent.value.digits)
    ensures ExponentText(exponent) == s
  {
    if s == [] {
      exponent := None;
    } else if s[1] == PLUS || s[1] == HYPHEN {
      exponent := Some(Exponent(s[0] == 69, Some(s[1] == HYPHEN), s[2..]));
      assert s[1..][1..] == s[2..] && s == [s[0]] + [s[1]] + s[2..];
    } else {
      exponent := Some(Exponent(s[0] == 69, None, s[1..]));
      assert s == [s[0]] + [] + s[1..];
    }
  }

  lemma FractionIsRead(fraction: Option<Text>)
    requires fraction.Some? ==> Decimals.IsNumeral(fraction.value)
    ensures IsFrac(FractionText(fraction))
  {
    if fraction.Some? { assert FractionText(fraction)[1..] == fraction.value; }
  }

  lemma ExponentIsRead(exponent: Option<Exponent>)
    requires exponent.Some? ==> Decimals.IsNumeral(exponent.value.digits)
    ensures IsExp(ExponentText(exponent))
  {
    if exponent.Some? {
      var s, digits := ExponentText(exponent), exponent.value.digits;
      if exponent.value.negative.Some? {
        assert s[1..][1..] == digits;
      } else {
        assert s[1..] == digits;
      }
    }
  }

  /** The numbers of the grammar are the texts of the numbers built from parts. */
  lemma NumberIff(data: Text)
    ensures IsNumber(data) <==> IsNumberText(data)
  {
    hide IsInt, IsFrac, IsExp, FractionText, ExponentText;
    if IsNumber(data) {
      var minus, int_, frac, exp :| NumberParts(data, minus, int_, frac, exp);
      WholeIff(int_);
      var fraction := FractionParts(frac);
      var exponent := ExponentParts(exp);
      assert Ascii("-") == [HYPHEN];
      assert NumberText(Number(minus != [], int_, fraction, exponent)) == data;
    }
    forall n | NumberOk(n) && NumberText(n) == data ensures IsNumber(data) {
      WholeIff(n.whole);
      FractionIsRead(n.fraction);
      ExponentIsRead(n.exponent);
      var minus: Text := if n.negative then Ascii("-") else [];
      assert NumberParts(data, minus, n.whole, FractionText(n.fraction), ExponentText(n.exponent));
    }
  }

  /** The length of the run of digits at the front. */
  function Run(s: Text): (n: nat)
    ensures n <= |s| && AllDigits(s[..n])
    ensures n < |s| ==> !IsDigit(s[n])
  {
    if s == [] || !IsDigit(s[0]) then 0
    else
      assert s[..1 + Run(s[1..])] == [s[0]] + s[1..][..Run(s[1..])];
      1 + Run(s[1..])
  }

  predicate FracThenExp(s: Text) {
    if s != [] && s[0] == DOT then
      Run(s[1..]) >= 1 && IsExp(s[1 + Run(s[1..])..])
    else IsExp(s)
  }

  predicate IntThenRest(s: Text) {
    && s != []
    && if s[0] == ZERO then FracThenExp(s[1..]) else 49 <= s[0] <= 57 && FracThenExp(s[Run(s)..])
  }

  predicate Reads(s: Text) {
    if s != [] && s[0] == HYPHEN then IntThenRest(s[1..]) else IntThenRest(s)
  }

  lemma {:induction false} RunStops(digits: Text, rest: Text)
    requires AllDigits(digits) && (rest == [] || !IsDigit(rest[0]))
    ensures Run(digits + rest) == |digits| && (digits + rest)[|digits|..] == rest
  {
    if digits == [] {
      assert digits + rest == rest;
    } else {
      assert (digits + rest)[1..] == digits[1..] + rest;
      RunStops(digits[1..], rest);
    }
  }

  lemma RunAll(s: Text)
    ensures Run(s) == |s| <==> AllDigits(s)
  {
    assert Run(s) == |s| ==> s[..Run(s)] == s;
  }

  lemma FracExpParts(s: Text) returns (frac: Text, exp: Text)
    requires FracThenExp(s)
    ensures IsFrac(frac) && IsExp(exp) && s == frac + exp
  {
    if s != [] && s[0] == DOT {
      var n := 1 + Run(s[1..]);
      frac, exp := s[..n], s[n..];
      assert frac[1..] == s[1..][..n - 1];
    } else {
      frac, exp := [], s;
    }
  }

  lemma IntRestParts(s: Text) returns (int_: Text, rest: Text)
    requires IntThenRest(s)
    ensures IsInt(int_) && FracThenExp(rest) && s == int_ + rest
  {
    var n := if s[0] == ZERO then 1 else Run(s);
    int_, rest := s[..n], s[n..];
  }

  lemma FracExpRead(frac: Text, exp: Text)
    requires IsFrac(frac) && IsExp(exp)
    ensures FracThenExp(frac + exp)
    ensures frac + exp == [] || !IsDigit((frac + exp)[0])
  {
    if frac == [] {
      assert frac + exp == exp;
    } else {
      assert (frac + exp)[1..] == frac[1..] + exp;
      RunStops(frac[1..], exp);
      assert (frac + exp)[|frac|..] == exp;
    }
  }

  lemma IntRead(int_: Text, rest: Text)
    requires IsInt(int_) && FracThenExp(rest) && (rest == [] || !IsDigit(rest[0]))
    ensures IntThenRest(int_ + rest) && IsDigit((int_ + rest)[0])
  {
    assert (int_ + rest)[|int_|..] == rest;
    RunStops(int_, rest);
  }

  lemma ReadParts(data: Text)
    requires Reads(data)
    ensures IsNumber(data)
  {
    hide IntThenRest, FracThenExp, IsInt, IsFrac, IsExp;
    var m := if data != [] && data[0] == HYPHEN then 1 else 0;
    var int_, rest := IntRestParts(data[m..]);
    var frac, exp := FracExpParts(rest);
    assert data[..m] + int_ + frac + exp == data;
    assert NumberParts(data, data[..m], int_, frac, exp);
  }

  lemma PartsRead(data: Text, minus: Text, int_: Text, frac: Text, exp: Text)
    requires NumberParts(data, minus, int_, frac, exp)
    ensures Reads(data)
  {
    hide IntThenRest, FracThenExp, IsInt, IsFrac, IsExp;
    FracExpRead(frac, exp);
    IntRead(int_, frac + exp);
    var body := int_ + (frac + exp);
    assert data == minus + body;
    assert data[|minus|..] == body;
  }

  /** Taking the longest run of digits at each place loses no number. */
  lemma ReadsIff(data: Text)
    ensures Reads(data) <==> IsNumber(data)
  {
    hide Reads, NumberParts;
    if Reads(data) { ReadParts(data); }
    forall minus, int_, frac, exp | NumberParts(data, minus, int_, frac, exp) ensures Reads(data) {
      PartsRead(data, minus, int_, frac, exp);
    }
  }

  // The same readings of what follows `data[..i]`, so that the lexer speaks of positions only.

  function RunFrom(data: Text, i: nat): (n: nat)
    requires i <= |data|
    ensures i + n <= |data|
  {
    Run(data[i..])
  }

  predicate IntFrom(data: Text, i: nat)
    requires i <= |data|
  {
    IntThenRest(data[i..])
  }

  predicate FracFrom(data: Text, i: nat)
    requires i <= |data|
  {
    FracThenExp(data[i..])
  }

  predicate ExpFrom(data: Text, i: nat)
    requires i <= |data|
  {
    IsExp(data[i..])
  }

  lemma NumberAt(data: Text)
    ensures IsNumber(data) == IntFrom(data, if data != [] && data[0] == HYPHEN then 1 else 0)
  {
    ReadsIff(data);
    assert data[0..] == data;
  }

  lemma RunAt(data: Text, i: nat)
    requires i <= |data|
    ensures RunFrom(data, i) == if i < |data| && IsDigit(data[i]) then 1 + RunFrom(data, i + 1) else 0
  {
    if i < |data| { assert data[i..][1..] == data[i + 1..]; }
  }

  lemma IntAt(data: Text, i: nat)
    requires i <= |data|
    ensures IntFrom(data, i) ==
      (i < |data| &&
       if data[i] == ZERO then FracFrom(data, i + 1)
       else 49 <= data[i] <= 57 && FracFrom(data, i + RunFrom(data, i)))
  {
    hide FracThenExp, Run, AllDigits;
    if i < |data| {
      assert data[i..][1..] == data[i + 1..];
      assert data[i..][Run(data[i..])..] == data[i + Run(data[i..])..];
    }
  }

  lemma FracAt(data: Text, i: nat)
    requires i <= |data|
    ensures FracFrom(data, i) ==
      if i < |data| && data[i] == DOT
      then RunFrom(data, i + 1) >= 1 && ExpFrom(data, i + 1 + RunFrom(data, i + 1))
      else ExpFrom(data, i)
    ensures i < |data| && IsDigit(data[i]) ==> !FracFrom(data, i)
  {
    if i < |data| && data[i] == DOT {
      assert data[i..][1..] == data[i + 1..];
      assert data[i..][1 + Run(data[i + 1..])..] == data[i + 1 + Run(data[i + 1..])..];
    }
  }

  lemma ExpAt(data: Text, i: nat)
    requires i <= |data|
    ensures ExpFrom(data, i) ==
      (i == |data| ||
       ((data[i] == 101 || data[i] == 69) &&
        var j := if i + 1 < |data| && (data[i + 1] == HYPHEN || data[i + 1] == PLUS) then i + 2 else i + 1;
        RunFrom(data, j) >= 1 && j + RunFrom(data, j) == |data|))
  {
    if i < |data| {
      assert data[i..][1..] == data[i + 1..];
      if i + 1 < |data| { assert data[i + 1..][1..] == data[i + 2..]; RunAll(data[i + 2..]); }
      RunAll(data[i + 1..]);
    }
  }

  method SkipDigits(data: Text, from: nat) returns (i: nat)
    requires from <= |data|
    ensures i == from + RunFrom(data, from)
  {
    hide RunFrom;
    i := from;
    while i < |data| && IsDigit(data[i])
      invariant i <= |data| && i + RunFrom(data, i) == from + RunFrom(data, from)
    {
      RunAt(data, i);
      i := i + 1;
    }
    RunAt(data, i);
  }

  /** Accepts exactly the numbers of section 6 of RFC 8259. */
  method JsonNumberValid(data: Text) returns (r: bool)
    ensures r <==> IsNumber(data)
  {
    hide IsNumber, RunFrom, IntFrom, FracFrom, ExpFrom;
    NumberAt(data);
    if |data| == 0 { IntAt(data, 0); return false; }
    var i := 0;
    if data[i] == HYPHEN { i := i + 1; }
    IntAt(data, i);
    if i >= |data| { return false; }
    if data[i] == ZERO {
      i := i + 1;
      FracAt(data, i);
      if i < |data| && IsDigit(data[i]) { return false; }
    } else {
      if data[i] < 49 || data[i] > 57 { return false; }
      i := SkipDigits(data, i);
    }
    FracAt(data, i);
    if i < |data| && data[i] == DOT {
      i := i + 1;
      RunAt(data, i);
      if i >= |data| || !IsDigit(data[i]) { return false; }
      i := SkipDigits(data, i);
    }
    ExpAt(data, i);
    if i < |data| && (data[i] == 101 || data[i] == 69) {
      i := i + 1;
      if i < |data| && (data[i] == HYPHEN || data[i] == PLUS) { i := i + 1; }
      RunAt(data, i);
      if i >= |data| || !IsDigit(data[i]) { return false; }
      i := SkipDigits(data, i);
    }
    return i == |data|;
  }
}
