/** noqeri.hex: hexadecimal bytes and unsigned 64-bit integers. */
module Hex {
  import opened Bytes
  import opened Buffers

  function HexValue(c: Byte): (v: int)
    ensures v == -1 || 0 <= v < 16
  {
    if 48 <= c <= 57 then c - 48
    else if 65 <= c <= 70 then c - 65 + 10
    else if 97 <= c <= 102 then c - 97 + 10
    else -1
  }

  function HexSymbol(digit: nat, upper: bool): Byte
    requires digit < 16
  {
    if digit < 10 then digit + 48 else if upper then digit - 10 + 65 else digit - 10 + 97
  }

  lemma SymbolHasValue(digit: nat, upper: bool)
    requires digit < 16
    ensures HexValue(HexSymbol(digit, upper)) == digit
  {
  }

  /** The sixteen symbols of either case, in order. */
  lemma SymbolsInOrder(digit: nat, upper: bool)
    requires digit < 16
    ensures HexSymbol(digit, upper) == Ascii(if upper then "0123456789ABCDEF" else "0123456789abcdef")[digit]
  {
  }

  /** The bytes with a value are the symbols of both cases, and no others. */
  lemma ValueIffSymbol(c: Byte)
    ensures HexValue(c) >= 0 <==>
      exists digit: nat, upper :: digit < 16 && HexSymbol(digit, upper) == c
  {
    if HexValue(c) >= 0 {
      assert HexSymbol(HexValue(c), c <= 70) == c;
    }
    forall digit: nat, upper | digit < 16 && HexSymbol(digit, upper) == c ensures HexValue(c) >= 0 {
      SymbolHasValue(digit, upper);
    }
  }

  predicate AllHex(s: Text) {
    forall i :: 0 <= i < |s| ==> HexValue(s[i]) >= 0
  }

  // ------------------------------------------------------------------- bytes

  function Encoded(src: Text, upper: bool): (s: Text)
    ensures |s| == 2 * |src|
  {
    if src == [] then []
    else [HexSymbol(src[0] / 16, upper), HexSymbol(src[0] % 16, upper)] + Encoded(src[1..], upper)
  }

  predicate HexValidText(s: Text) {
    |s| % 2 == 0 && AllHex(s)
  }

  function Decoded(s: Text): (x: Text)
    requires HexValidText(s)
    ensures 2 * |x| == |s|
  {
    if s == [] then [] else [HexValue(s[0]) * 16 + HexValue(s[1])] + Decoded(s[2..])
  }

  lemma {:induction false} EncodedAppend(a: Text, b: Text, upper: bool)
    ensures Encoded(a + b, upper) == Encoded(a, upper) + Encoded(b, upper)
  {
    if a == [] { assert a + b == b; }
    else {
      assert (a + b)[1..] == a[1..] + b;
      EncodedAppend(a[1..], b, upper);
    }
  }

  lemma EncodedExtend(src: Text, i: nat, upper: bool)
    requires i < |src|
    ensures Encoded(src[..i + 1], upper) ==
      Encoded(src[..i], upper) + [HexSymbol(src[i] / 16, upper)] + [HexSymbol(src[i] % 16, upper)]
  {
    assert src[..i + 1] == src[..i] + [src[i]] && [src[i]][1..] == [];
    EncodedAppend(src[..i], [src[i]], upper);
  }

  method HexEncode(src: Text, dst: array<Byte>, uppercase: bool) returns (r: int)
    modifies dst
    ensures |src| > dst.Length / 2 ==> r == -1 && dst[..] == old(dst[..])
    ensures |src| <= dst.Length / 2 ==>
      r == 2 * |src| && dst[..] == Written(old(dst[..]), Encoded(src, uppercase))
  {
    if |src| > dst.Length / 2 { return -1; }
    ghost var before := dst[..];
    ghost var done: Text := [];
    assert Written(before, done) == before;
    var i := 0;
    while i < |src|
      invariant i <= |src| && |done| == i * 2 && |before| == dst.Length
      invariant done == Encoded(src[..i], uppercase) && dst[..] == Written(before, done)
    {
      hide Written, Encoded;
      EncodedExtend(src, i, uppercase);
      Put(dst, before, done, HexSymbol(src[i] / 16, uppercase), i * 2);
      done := done + [HexSymbol(src[i] / 16, uppercase)];
      Put(dst, before, done, HexSymbol(src[i] % 16, uppercase), i * 2 + 1);
      done := done + [HexSymbol(src[i] % 16, uppercase)];
      i := i + 1;
    }
    assert src[..i] == src;
    return |src| * 2;
  }

  method HexValid(input: Text) returns (r: bool)
    ensures r == HexValidText(input)
  {
    if |input| % 2 != 0 { return false; }
    var i := 0;
    while i < |input|
      invariant i <= |input| && AllHex(input[..i])
    {
      if HexValue(input[i]) < 0 { return false; }
      i := i + 1;
    }
    assert input[..i] == input;
    return true;
  }

  lemma {:induction false} DecodedAt(src: Text, k: nat)
    requires HexValidText(src) && 2 * k + 1 < |src|
    ensures HexValue(src[2 * k]) >= 0 && HexValue(src[2 * k + 1]) >= 0
    ensures Decoded(src)[k] == HexValue(src[2 * k]) * 16 + HexValue(src[2 * k + 1])
  {
    if k > 0 { DecodedAt(src[2..], k - 1); }
  }

  method HexDecode(src: Text, dst: array<Byte>) returns (r: int)
    modifies dst
    ensures !HexValidText(src) || |src| / 2 > dst.Length ==> r == -1 && dst[..] == old(dst[..])
    ensures HexValidText(src) && |src| / 2 <= dst.Length ==>
      r == |src| / 2 && dst[..] == Written(old(dst[..]), Decoded(src))
  {
    hide Written, Decoded, AllHex;
    var valid := HexValid(src);
    if !valid || |src| / 2 > dst.Length { return -1; }
    ghost var before, decoded := dst[..], Decoded(src);
    WrittenNone(before);
    var i := 0;
    while i < |src|
      invariant i <= |src| && i % 2 == 0
      invariant dst[..] == Written(before, decoded[..i / 2])
    {
      DecodedAt(src, i / 2);
      var a := HexValue(src[i]);
      var b := HexValue(src[i + 1]);
      Put(dst, before, decoded[..i / 2], a * 16 + b, i / 2);
      assert decoded[..i / 2] + [a * 16 + b] == decoded[..(i + 2) / 2];
      i := i + 2;
    }
    assert decoded[..i / 2] == decoded;
    return |src| / 2;
  }

  /** Decoding inverts encoding, in either case. */
  lemma {:induction false} DecodeEncode(src: Text, upper: bool)
    ensures HexValidText(Encoded(src, upper)) && Decoded(Encoded(src, upper)) == src
  {
    if src != [] {
      var s := Encoded(src, upper);
      SymbolHasValue(src[0] / 16, upper);
      SymbolHasValue(src[0] % 16, upper);
      DecodeEncode(src[1..], upper);
      assert s[2..] == Encoded(src[1..], upper);
      assert AllHex(s) by {
        forall i | 0 <= i < |s| ensures HexValue(s[i]) >= 0 {
          if i >= 2 { assert s[i] == s[2..][i - 2]; }
        }
      }
      assert src == [src[0]] + src[1..];
    }
  }

  /** The same digits with their letters in one case. */
  function Recased(s: Text, upper: bool): Text
    requires AllHex(s)
  {
    if s == [] then [] else [HexSymbol(HexValue(s[0]), upper)] + Recased(s[1..], upper)
  }

  /** Encoding inverts decoding up to the case of the letters. */
  lemma {:induction false} EncodeDecode(s: Text, upper: bool)
    requires HexValidText(s)
    ensures Encoded(Decoded(s), upper) == Recased(s, upper)
  {
    if s != [] {
      var x := Decoded(s);
      assert x[1..] == Decoded(s[2..]);
      EncodeDecode(s[2..], upper);
      assert s[1..][1..] == s[2..];
      TwoDigits(HexValue(s[0]), HexValue(s[1]));
    }
  }

  lemma TwoDigits(a: nat, b: nat)
    requires a < 16 && b < 16
    ensures (a * 16 + b) / 16 == a && (a * 16 + b) % 16 == b
  {
  }

  // ---------------------------------------------------------------- integers

  function HexNumber(s: Text): nat
    requires AllHex(s)
    decreases |s|
  {
    if s == [] then 0 else 16 * HexNumber(s[..|s| - 1]) + HexValue(s[|s| - 1])
  }

  function HexNumeral(n: nat, upper: bool): (s: Text)
    ensures |s| >= 1
  {
    if n < 16 then [HexSymbol(n, upper)] else HexNumeral(n / 16, upper) + [HexSymbol(n % 16, upper)]
  }

  lemma NumberExtends(s: Text, i: nat)
    requires i < |s| && AllHex(s[..i]) && HexValue(s[i]) >= 0
    ensures AllHex(s[..i + 1]) && HexNumber(s[..i + 1]) == 16 * HexNumber(s[..i]) + HexValue(s[i])
  {
    assert s[..i + 1][..i] == s[..i];
  }

  lemma {:induction false} PrefixIsSmaller(s: Text, i: nat)
    requires AllHex(s) && i <= |s|
    ensures HexNumber(s[..i]) <= HexNumber(s)
    decreases |s|
  {
    if i < |s| {
      var init := s[..|s| - 1];
      assert init[..i] == s[..i];
      PrefixIsSmaller(init, i);
    } else {
      assert s[..i] == s;
    }
  }

  /** A text that hexParseU64 takes: hexadecimal digits whose number fits 64 bits. */
  predicate Parses(src: Text) {
    src != [] && AllHex(src) && HexNumber(src) <= U64_MAX
  }

  method HexParseU64(src: Text, dst: array<U64>) returns (r: bool)
    modifies dst
    ensures r <==> dst.Length > 0 && Parses(src)
    ensures r <==> dst.Length > 0 && src != [] && AllHex(src) && HexNumber(src) <= U64_MAX
    ensures dst[..] == if r then old(dst[..])[0 := HexNumber(src)] else old(dst[..])
  {
    if |src| == 0 || dst.Length == 0 { return false; }
    var number: U64 := 0;
    var i := 0;
    while i < |src|
      invariant i <= |src| && AllHex(src[..i]) && number == HexNumber(src[..i])
      invariant dst[..] == old(dst[..])
    {
      var digit := HexValue(src[i]);
      if digit < 0 { return false; }
      NumberExtends(src, i);
      if number > (U64_MAX - digit) / 16 {
        if AllHex(src) { PrefixIsSmaller(src, i + 1); }
        return false;
      }
      number := number * 16 + digit;
      i := i + 1;
    }
    assert src[..i] == src;
    dst[0] := number;
    return true;
  }

  /** The first loop of hexFormatU64 counts the digits. */
  method HexLength(value: U64, upper: bool) returns (width: nat)
    ensures width == |HexNumeral(value, upper)|
  {
    var test: U64 := value;
    width := 1;
    while test >= 16
      invariant width >= 1 && |HexNumeral(value, upper)| == width - 1 + |HexNumeral(test, upper)|
    {
      width := width + 1;
      test := test / 16;
    }
  }

  lemma NumeralSteps(s: Text, i: nat, n: nat, upper: bool)
    requires 0 < i <= |s| && s[..i] == HexNumeral(n, upper)
    ensures s[i - 1] == HexSymbol(n % 16, upper)
    ensures i > 1 ==> s[..i - 1] == HexNumeral(n / 16, upper)
  {
    assert s[i - 1] == s[..i][i - 1];
    assert s[..i - 1] == s[..i][..i - 1];
  }

  method HexFormatU64(value: U64, dst: array<Byte>, uppercase: bool) returns (r: int)
    modifies dst
    ensures dst.Length < |HexNumeral(value, uppercase)| ==> r == -1 && dst[..] == old(dst[..])
    ensures dst.Length >= |HexNumeral(value, uppercase)| ==>
      r == |HexNumeral(value, uppercase)| && dst[..] == Written(old(dst[..]), HexNumeral(value, uppercase))
  {
    ghost var s, before := HexNumeral(value, uppercase), dst[..];
    var width := HexLength(value, uppercase);
    if width > dst.Length { return -1; }
    var pos := width;
    var n: U64 := value;
    assert s[..pos] == s;
    WrittenFromEnds(before, s);
    while pos > 0
      invariant 0 <= pos <= width
      invariant pos > 0 ==> s[..pos] == HexNumeral(n, uppercase)
      invariant dst[..] == WrittenFrom(before, s, pos)
    {
      hide HexNumeral, WrittenFrom;
      NumeralSteps(s, pos, n, uppercase);
      pos := pos - 1;
      PutBefore(dst, before, s, HexSymbol(n % 16, uppercase), pos);
      n := n / 16;
    }
    return width;
  }

  /** Printing inverts parsing's value, with no leading zero. */
  lemma {:induction false} ParseFormat(n: nat, upper: bool)
    ensures AllHex(HexNumeral(n, upper)) && HexNumber(HexNumeral(n, upper)) == n
    ensures n > 0 ==> HexValue(HexNumeral(n, upper)[0]) > 0
    ensures n <= U64_MAX ==> Parses(HexNumeral(n, upper))
  {
    var s := HexNumeral(n, upper);
    if n < 16 {
      SymbolHasValue(n, upper);
      assert s[..0] == [];
    } else {
      ParseFormat(n / 16, upper);
      SymbolHasValue(n % 16, upper);
      assert s[..|s| - 1] == HexNumeral(n / 16, upper);
    }
  }

  /** No hexadecimal text for the number is shorter than the printed one. */
  lemma {:induction false} FormatIsShortest(s: Text, upper: bool)
    requires s != [] && AllHex(s)
    ensures |HexNumeral(HexNumber(s), upper)| <= |s|
    decreases |s|
  {
    var n, init := HexNumber(s), s[..|s| - 1];
    if n >= 16 {
      assert n / 16 == HexNumber(init);
      FormatIsShortest(init, upper);
    }
  }
}
