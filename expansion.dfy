/** The lenient entity expansion `Book._element_xhtml`
    (src/xhtml2epub/book.py): one left-to-right pass of the byte pattern
    `&(#(x)?)?([A-Za-z0-9]+);` over a chapter's serialized children. Numeric
    references become the UTF-8 encoding of their code point, named ones are
    looked up in the merged entity table, and unknown names stay verbatim. */
module Expansion {
  import opened Wrappers
  import opened Xml
  import opened Entities

  const Amp: Byte := 38        // '&'
  const Hash: Byte := 35       // '#'
  const Semicolon: Byte := 59  // ';'
  const LowerX: Byte := 120    // 'x'
  const UpperX: Byte := 88     // 'X'
  const Zero: Byte := 48       // '0'

  predicate IsDigit(b: Byte) { 48 <= b <= 57 }

  predicate IsHexDigit(b: Byte) { IsDigit(b) || 65 <= b <= 70 || 97 <= b <= 102 }

  /** The class `[A-Za-z0-9]`. */
  predicate IsAlnum(b: Byte) { IsDigit(b) || 65 <= b <= 90 || 97 <= b <= 122 }

  // ---------------------------------------------------------------------------
  // UTF-8, as `str.encode()` does it

  /** The code points `chr(v).encode()` accepts: at most 0x10FFFF (else `chr`
      raises) and not a surrogate (else the UTF-8 codec raises). */
  predicate IsScalar(cp: int) {
    0 <= cp <= 0x10FFFF && !(0xD800 <= cp <= 0xDFFF)
  }

  /** `chr(cp).encode()`: one byte below 0x80, then two, three or four bytes,
      the lead byte announcing the length (110xxxxx, 1110xxxx, 11110xxx) and
      every other byte a continuation byte 10xxxxxx. */
  function Utf8(cp: int): (r: seq<Byte>)
    requires IsScalar(cp)
    ensures cp < 0x80 <==> r == [cp]
    ensures 0x80 <= cp < 0x800 ==> |r| == 2 && 0xC0 <= r[0] < 0xE0
    ensures 0x800 <= cp < 0x10000 ==> |r| == 3 && 0xE0 <= r[0] < 0xF0
    ensures 0x10000 <= cp ==> |r| == 4 && 0xF0 <= r[0] < 0xF8
    ensures forall i :: 0 < i < |r| ==> 0x80 <= r[i] < 0xC0
  {
    if cp < 0x80 then [cp]
    else if cp < 0x800 then [0xC0 + cp / 64, 0x80 + cp % 64]
    else if cp < 0x10000 then [0xE0 + cp / 64 / 64, 0x80 + cp / 64 % 64, 0x80 + cp % 64]
    else [0xF0 + cp / 64 / 64 / 64, 0x80 + cp / 64 / 64 % 64, 0x80 + cp / 64 % 64, 0x80 + cp % 64]
  }

  /** Decoding of one UTF-8 sequence, the lead byte giving its length. */
  function Utf8Decode(bs: seq<Byte>): int
    requires 1 <= |bs| <= 4
  {
    var b := seq(|bs|, i requires 0 <= i < |bs| => bs[i] as int);
    if |b| == 1 then b[0]
    else if |b| == 2 then (b[0] - 0xC0) * 64 + (b[1] - 0x80)
    else if |b| == 3 then ((b[0] - 0xE0) * 64 + (b[1] - 0x80)) * 64 + (b[2] - 0x80)
    else (((b[0] - 0xF0) * 64 + (b[1] - 0x80)) * 64 + (b[2] - 0x80)) * 64 + (b[3] - 0x80)
  }

  /** The encoding decodes back to the code point. */
  lemma Utf8RoundTrip(cp: int)
    requires IsScalar(cp)
    ensures Utf8Decode(Utf8(cp)) == cp
  {
    var q1 := cp / 64;
    var q2 := q1 / 64;
    var q3 := q2 / 64;
    assert cp == q1 * 64 + cp % 64;
    assert q1 == q2 * 64 + q1 % 64;
    assert q2 == q3 * 64 + q2 % 64;
  }

  predicate IsAscii(s: string) {
    forall i :: 0 <= i < |s| ==> (s[i] as int) < 0x80
  }

  /** `s.encode()` for an entity's replacement text: one to four bytes per
      character, and ASCII text byte for byte. */
  function EncodeString(s: string): (r: seq<Byte>)
    ensures |s| <= |r| <= 4 * |s|
    ensures IsAscii(s) ==> |r| == |s| && forall i :: 0 <= i < |s| ==> r[i] == s[i] as int
  {
    if s == [] then [] else Utf8(s[0] as int) + EncodeString(s[1..])
  }

  /** Encoding works character by character, so it distributes over
      concatenation. */
  lemma {:induction false} EncodeStringAppend(a: string, b: string)
    ensures EncodeString(a + b) == EncodeString(a) + EncodeString(b)
  {
    if a == [] {
      assert a + b == b;
    } else {
      assert (a + b)[0] == a[0] && (a + b)[1..] == a[1..] + b;
      EncodeStringAppend(a[1..], b);
    }
  }

  /** The ASCII bytes of a matched name, as `code.decode()` gives them. */
  function AsString(code: seq<Byte>): (r: string)
    ensures |r| == |code|
    ensures forall i :: 0 <= i < |code| ==> r[i] as int == code[i]
  {
    if code == [] then [] else [code[0] as char] + AsString(code[1..])
  }

  /** Decoding an ASCII name and encoding it again gives back its bytes. */
  lemma AsStringRoundTrip(code: seq<Byte>)
    requires forall i :: 0 <= i < |code| ==> code[i] < 0x80
    ensures EncodeString(AsString(code)) == code
  {
    var s := AsString(code);
    assert IsAscii(s);
  }

  // ---------------------------------------------------------------------------
  // `int(code, 16 if is_hex else 10)`

  /** The value of one digit: '0'..'9' are 0..9, and 'a'..'f' and 'A'..'F'
      alike are 10..15. */
  function DigitValue(b: Byte): (v: nat)
    requires IsHexDigit(b)
    ensures v < 16 && (IsDigit(b) <==> v < 10)
    ensures IsDigit(b) ==> v == b - Zero
    ensures 97 <= b <= 102 ==> v == 10 + (b - 97)
    ensures 65 <= b <= 70 ==> v == 10 + (b - 65)
  {
    if IsDigit(b) then b - 48 else if b <= 70 then b - 55 else b - 87
  }

  predicate AllDigits(ds: seq<Byte>, hex: bool) {
    forall i :: 0 <= i < |ds| ==> if hex then IsHexDigit(ds[i]) else IsDigit(ds[i])
  }

  /** The value of a digit string, most significant digit first. */
  function DigitsValue(ds: seq<Byte>, hex: bool): nat
    requires AllDigits(ds, hex)
  {
    if ds == [] then 0
    else DigitsValue(ds[..|ds| - 1], hex) * (if hex then 16 else 10) + DigitValue(ds[|ds| - 1])
  }

  /** The digit string with each upper-case letter 'A'..'F' lowered. */
  function LowerDigits(ds: seq<Byte>): (r: seq<Byte>)
    ensures |r| == |ds|
  {
    seq(|ds|, i requires 0 <= i < |ds| => if 65 <= ds[i] <= 70 then ds[i] + 32 else ds[i])
  }

  /** `k` zero digits. */
  function Zeros(k: nat): (r: seq<Byte>)
    ensures |r| == k
  {
    seq(k, _ => Zero)
  }

  /** Upper- and lower-case letters are the same digits. */
  lemma {:induction false} DigitsValueIgnoresCase(ds: seq<Byte>, hex: bool)
    requires AllDigits(ds, hex)
    ensures AllDigits(LowerDigits(ds), hex)
    ensures DigitsValue(LowerDigits(ds), hex) == DigitsValue(ds, hex)
    decreases |ds|
  {
    if ds != [] {
      var n := |ds| - 1;
      assert LowerDigits(ds)[..n] == LowerDigits(ds[..n]);
      DigitsValueIgnoresCase(ds[..n], hex);
    }
  }

  lemma {:induction false} ZerosValue(k: nat, hex: bool)
    ensures AllDigits(Zeros(k), hex) && DigitsValue(Zeros(k), hex) == 0
  {
    if k > 0 {
      assert Zeros(k)[..k - 1] == Zeros(k - 1);
      ZerosValue(k - 1, hex);
    }
  }

  /** Leading zeros do not change the value. */
  lemma {:induction false} LeadingZerosValue(k: nat, ds: seq<Byte>, hex: bool)
    requires AllDigits(ds, hex)
    ensures AllDigits(Zeros(k) + ds, hex)
    ensures DigitsValue(Zeros(k) + ds, hex) == DigitsValue(ds, hex)
    decreases |ds|
  {
    ZerosValue(k, hex);
    var s := Zeros(k) + ds;
    assert forall i :: 0 <= i < |s| ==> s[i] == if i < k then Zero else ds[i - k];
    if ds == [] {
      assert s == Zeros(k);
    } else {
      var n := |ds| - 1;
      assert s[..|s| - 1] == Zeros(k) + ds[..n];
      LeadingZerosValue(k, ds[..n], hex);
    }
  }

  /** The number of leading zeros of a numeral, keeping its last digit. */
  function LeadingZeroCount(code: seq<Byte>): (k: nat)
    requires code != []
    ensures k < |code| && forall i :: 0 <= i < k ==> code[i] == Zero
    ensures code[k] != Zero || k == |code| - 1
  {
    if |code| > 1 && code[0] == Zero then 1 + LeadingZeroCount(code[1..]) else 0
  }

  /** Python's `int(code, base)` on an alphanumeric byte string: base 16 admits
      one leading "0x" or "0X"; at least one digit must follow, and any byte
      that is not a digit of the base raises ValueError. */
  function ParseInt(code: seq<Byte>, hex: bool): (r: Result<nat, Error>)
    ensures r.Failure? ==> r.error == InvalidLiteral(code)
    ensures !hex ==> (r.Success? <==> code != [] && AllDigits(code, false))
    ensures hex ==> (r.Success? <==>
      || (code != [] && AllDigits(code, true))
      || (|code| > 2 && code[0] == Zero && code[1] in {LowerX, UpperX} && AllDigits(code[2..], true)))
  {
    var digits :=
      if hex && |code| >= 2 && code[0] == Zero && code[1] in {LowerX, UpperX} then code[2..] else code;
    if digits != [] && AllDigits(digits, hex) then Success(DigitsValue(digits, hex))
    else Failure(InvalidLiteral(code))
  }

  /** Decimal digits of a number, as the parser reads them back. */
  function DecimalDigits(v: nat): (r: seq<Byte>)
    ensures r != [] && AllDigits(r, false)
  {
    if v < 10 then [48 + v] else DecimalDigits(v / 10) + [48 + v % 10]
  }

  lemma {:induction false} DecimalDigitsValue(v: nat)
    ensures DigitsValue(DecimalDigits(v), false) == v
  {
    if v >= 10 {
      var ds := DecimalDigits(v);
      assert ds[..|ds| - 1] == DecimalDigits(v / 10);
      DecimalDigitsValue(v / 10);
    }
  }

  /** Every decimal numeral is read back as its value, leading zeros or not. */
  lemma ParseIntDecimalRoundTrip(v: nat, k: nat)
    ensures ParseInt(Zeros(k) + DecimalDigits(v), false) == Success(v)
  {
    DecimalDigitsValue(v);
    LeadingZerosValue(k, DecimalDigits(v), false);
  }

  /** The lower-case hexadecimal digit of a value below 16. */
  function HexDigit(d: nat): (b: Byte)
    requires d < 16
    ensures IsHexDigit(b) && DigitValue(b) == d
  {
    if d < 10 then 48 + d else 87 + d
  }

  /** Hexadecimal digits of a number, most significant first. */
  function HexDigits(v: nat): (r: seq<Byte>)
    ensures r != [] && AllDigits(r, true)
  {
    if v < 16 then [HexDigit(v)] else HexDigits(v / 16) + [HexDigit(v % 16)]
  }

  lemma {:induction false} HexDigitsValue(v: nat)
    ensures DigitsValue(HexDigits(v), true) == v
  {
    if v >= 16 {
      var ds := HexDigits(v);
      assert ds[..|ds| - 1] == HexDigits(v / 16);
      HexDigitsValue(v / 16);
    }
  }

  /** A numeral without leading zeros, lower-cased, is the one `HexDigits`
      writes for its value. */
  lemma {:induction false} HexDigitsOfValue(ds: seq<Byte>)
    requires ds != [] && AllDigits(ds, true) && ds[0] != Zero
    ensures DigitsValue(ds, true) >= 1
    ensures HexDigits(DigitsValue(ds, true)) == LowerDigits(ds)
    decreases |ds|
  {
    var n := |ds| - 1;
    var v := DigitsValue(ds, true);
    assert IsHexDigit(ds[n]);
    if n == 0 {
      assert v == DigitValue(ds[0]);
    } else {
      HexDigitsOfValue(ds[..n]);
      var w := DigitsValue(ds[..n], true);
      assert v / 16 == w && v % 16 == DigitValue(ds[n]);
      assert LowerDigits(ds) == LowerDigits(ds[..n]) + [LowerDigits(ds)[n]];
    }
  }

  /** A numeral of the base, without prefix, is read as its digits' value. */
  lemma ParseIntOfDigits(code: seq<Byte>, hex: bool)
    requires code != [] && AllDigits(code, hex)
    ensures ParseInt(code, hex) == Success(DigitsValue(code, hex))
  {
    assert IsHexDigit(code[0]);
    assert |code| >= 2 ==> IsHexDigit(code[1]);
  }

  /** After "0x" or "0X" a hexadecimal numeral is read as its digits' value. */
  lemma ParseIntOfPrefixed(x: Byte, code: seq<Byte>)
    requires x == LowerX || x == UpperX
    requires code != [] && AllDigits(code, true)
    ensures ParseInt([Zero, x] + code, true) == Success(DigitsValue(code, true))
  {
    assert ([Zero, x] + code)[2..] == code;
  }

  /** Leading zeros, then the digits `HexDigits` writes for `v` with each
      letter in either case, are worth `v`. */
  lemma HexNumeralValue(v: nat, k: nat, ds: seq<Byte>)
    requires AllDigits(ds, true) && LowerDigits(ds) == HexDigits(v)
    ensures Zeros(k) + ds != [] && AllDigits(Zeros(k) + ds, true)
    ensures DigitsValue(Zeros(k) + ds, true) == v
  {
    HexDigitsValue(v);
    DigitsValueIgnoresCase(ds, true);
    LeadingZerosValue(k, ds, true);
  }

  /** Every way of writing `v` in hexadecimal without a prefix (any number of
      leading zeros, then its digits with each letter in either case) is read
      back as `v`. */
  lemma ParseIntHexRoundTrip(v: nat, k: nat, ds: seq<Byte>)
    requires AllDigits(ds, true) && LowerDigits(ds) == HexDigits(v)
    ensures ParseInt(Zeros(k) + ds, true) == Success(v)
  {
    HexNumeralValue(v, k, ds);
    ParseIntOfDigits(Zeros(k) + ds, true);
  }

  /** The same numerals after "0x" or "0X" are read back as `v` too. */
  lemma ParseIntPrefixedHexRoundTrip(x: Byte, v: nat, k: nat, ds: seq<Byte>)
    requires x == LowerX || x == UpperX
    requires AllDigits(ds, true) && LowerDigits(ds) == HexDigits(v)
    ensures ParseInt([Zero, x] + Zeros(k) + ds, true) == Success(v)
  {
    HexNumeralValue(v, k, ds);
    ParseIntOfPrefixed(x, Zeros(k) + ds);
    assert [Zero, x] + Zeros(k) + ds == [Zero, x] + (Zeros(k) + ds);
  }

  /** A numeral is its leading zeros, then digits worth as much as it. */
  lemma LeadingZerosSplit(code: seq<Byte>, hex: bool)
    requires code != [] && AllDigits(code, hex)
    ensures var k := LeadingZeroCount(code);
      && code[..k] == Zeros(k)
      && AllDigits(code[k..], hex)
      && DigitsValue(code[k..], hex) == DigitsValue(code, hex)
  {
    var k := LeadingZeroCount(code);
    var ds := code[k..];
    assert code[..k] == Zeros(k);
    assert code == Zeros(k) + ds;
    LeadingZerosValue(k, ds, hex);
  }

  /** A hexadecimal numeral that is a lone zero or starts with a non-zero
      digit is, lower-cased, the one `HexDigits` writes for its value. */
  lemma HexDigitsOfSignificant(ds: seq<Byte>)
    requires ds != [] && AllDigits(ds, true) && (ds[0] != Zero || |ds| == 1)
    ensures LowerDigits(ds) == HexDigits(DigitsValue(ds, true))
  {
    if ds[0] != Zero {
      HexDigitsOfValue(ds);
    } else {
      assert ds == [Zero];
    }
  }

  /** Conversely every hexadecimal numeral is leading zeros then the digits
      `HexDigits` writes for its value, in some case (and `ParseIntOfDigits`
      reads it as that value). */
  lemma HexNumeralForm(code: seq<Byte>)
    requires code != [] && AllDigits(code, true)
    ensures exists k :: (0 <= k < |code| && code[..k] == Zeros(k)
      && LowerDigits(code[k..]) == HexDigits(DigitsValue(code, true)))
  {
    var k := LeadingZeroCount(code);
    LeadingZerosSplit(code, true);
    HexDigitsOfSignificant(code[k..]);
  }

  // ---------------------------------------------------------------------------
  // Matching `&(#(x)?)?([A-Za-z0-9]+);` at the start of the input

  /** The groups of one match: `#` present, `x` present, and the code. */
  datatype Reference = Reference(numeric: bool, hex: bool, code: seq<Byte>)

  datatype Match = Match(ref: Reference, length: nat)

  predicate WellFormed(ref: Reference) {
    && (ref.hex ==> ref.numeric)
    && ref.code != []
    && forall i :: 0 <= i < |ref.code| ==> IsAlnum(ref.code[i])
  }

  /** The bytes before the code: `&`, `&#` or `&#x`. */
  function Opening(numeric: bool, hex: bool): seq<Byte> {
    [Amp] + (if numeric then [Hash] else []) + (if hex then [LowerX] else [])
  }

  /** The bytes a reference is written with. */
  function Spelling(ref: Reference): seq<Byte> {
    Opening(ref.numeric, ref.hex) + ref.code + [Semicolon]
  }

  /** The end of the longest run of alphanumerics starting at `from`. */
  function AlnumEnd(s: seq<Byte>, from: nat): (end: nat)
    requires from <= |s|
    ensures from <= end <= |s|
    ensures forall i :: from <= i < end ==> IsAlnum(s[i])
    ensures end < |s| ==> !IsAlnum(s[end])
    decreases |s| - from
  {
    if from == |s| || !IsAlnum(s[from]) then from else AlnumEnd(s, from + 1)
  }

  /** `([A-Za-z0-9]+);` at `from`: the index of the closing `;`, if any. A
      shorter run never helps, since it would stop before another alphanumeric. */
  function TerminatedRun(s: seq<Byte>, from: nat): (r: Option<nat>)
    requires from <= |s|
    ensures r.Some? ==> from < r.value < |s| && s[r.value] == Semicolon
    ensures r.Some? ==> forall i :: from <= i < r.value ==> IsAlnum(s[i])
  {
    var end := AlnumEnd(s, from);
    if end > from && end < |s| && s[end] == Semicolon then Some(end) else None
  }

  /** The rest of a match once its prefix (`&`, `&#` or `&#x`) ends at `from`. */
  function MatchFrom(s: seq<Byte>, numeric: bool, hex: bool, from: nat): (r: Option<Match>)
    requires from <= |s|
    ensures r.Some? ==> from + 2 <= r.value.length <= |s| && r.value.ref.code == s[from..r.value.length - 1]
    ensures r.Some? ==> r.value.ref.numeric == numeric && r.value.ref.hex == hex
    ensures r.Some? ==> s[r.value.length - 1] == Semicolon
    ensures r.Some? ==> forall i :: 0 <= i < |r.value.ref.code| ==> IsAlnum(r.value.ref.code[i])
    ensures r.Some? && s[..from] == Opening(numeric, hex) ==> s[..r.value.length] == Spelling(r.value.ref)
  {
    match TerminatedRun(s, from)
    case None => None
    case Some(end) =>
      assert s[..end + 1] == s[..from] + s[from..end] + [Semicolon];
      Some(Match(Reference(numeric, hex, s[from..end]), end + 1))
  }

  /** The regular expression at the start of `s`, with Python's backtracking:
      `#x` is tried first, then `#` alone, then neither (which cannot succeed
      after a `#`, since `#` is not alphanumeric). */
  function MatchAt(s: seq<Byte>): (r: Option<Match>)
    ensures r.Some? ==> WellFormed(r.value.ref) && 3 <= r.value.length <= |s|
    ensures r.Some? ==> s[..r.value.length] == Spelling(r.value.ref)
    ensures s == [] || s[0] != Amp ==> r.None?
  {
    if s == [] || s[0] != Amp then None
    else if |s| > 1 && s[1] == Hash then
      var withX := if |s| > 2 && s[2] == LowerX then MatchFrom(s, true, true, 3) else None;
      if withX.Some? then withX else MatchFrom(s, true, false, 2)
    else MatchFrom(s, false, false, 1)
  }

  /** The references that read back as themselves: a decimal code may start
      with `x` only when it is the single letter `x` (`&#x;`). */
  predicate Canonical(ref: Reference) {
    !(ref.numeric && !ref.hex && |ref.code| > 1 && ref.code[0] == LowerX)
  }

  lemma AlnumEndAt(s: seq<Byte>, from: nat, end: nat)
    requires from <= end < |s|
    requires forall i :: from <= i < end ==> IsAlnum(s[i])
    requires !IsAlnum(s[end])
    ensures AlnumEnd(s, from) == end
  {
  }

  /** A run of alphanumerics closed by `;` after any prefix is matched whole. */
  lemma MatchFromRun(p: seq<Byte>, code: seq<Byte>, rest: seq<Byte>, numeric: bool, hex: bool)
    requires code != [] && forall i :: 0 <= i < |code| ==> IsAlnum(code[i])
    ensures var s := p + code + [Semicolon] + rest;
      MatchFrom(s, numeric, hex, |p|) == Some(Match(Reference(numeric, hex, code), |p| + |code| + 1))
  {
    var s := p + code + [Semicolon] + rest;
    var end := |p| + |code|;
    assert forall i :: |p| <= i < end ==> s[i] == code[i - |p|];
    assert s[end] == Semicolon;
    AlnumEndAt(s, |p|, end);
    assert s[|p|..end] == code;
  }

  /** Matching reads back every canonical reference written at the start of
      the input, whatever follows it. */
  lemma MatchSpelling(ref: Reference, rest: seq<Byte>)
    requires WellFormed(ref) && Canonical(ref)
    ensures MatchAt(Spelling(ref) + rest) == Some(Match(ref, |Spelling(ref)|))
  {
    var code := ref.code;
    var p := [Amp] + (if ref.numeric then [Hash] else []) + (if ref.hex then [LowerX] else []);
    var s := p + code + [Semicolon] + rest;
    assert Spelling(ref) + rest == s;
    MatchFromRun(p, code, rest, ref.numeric, ref.hex);
    assert s[0] == Amp;
    if !ref.numeric {
      assert s[1] == code[0];
    } else if ref.hex {
      assert s[1] == Hash && s[2] == LowerX;
    } else {
      assert s[1] == Hash && s[2] == code[0];
      if code[0] == LowerX {
        assert s[3] == Semicolon;
        AlnumEndAt(s, 3, 3);
        assert MatchFrom(s, true, true, 3) == None;
      }
    }
  }

  // ---------------------------------------------------------------------------
  // The substitution pass

  /** `expand_entity`: the bytes one match is replaced with. */
  function Replacement(ref: Reference, matched: seq<Byte>, entities: EntityTable): (r: Result<seq<Byte>, Error>)
    ensures !ref.numeric ==> r.Success?
    ensures !ref.numeric && AsString(ref.code) !in entities ==> r == Success(matched)
    ensures !ref.numeric && AsString(ref.code) in entities ==>
      r == Success(EncodeString(entities[AsString(ref.code)]))
    ensures ref.numeric ==>
      (r.Success? <==> ParseInt(ref.code, ref.hex).Success? && IsScalar(ParseInt(ref.code, ref.hex).value))
    ensures ref.numeric && r.Success? ==> r.value == Utf8(ParseInt(ref.code, ref.hex).value)
    ensures ref.numeric && r.Failure? && ParseInt(ref.code, ref.hex).Success? ==>
      r.error == InvalidCodePoint(ParseInt(ref.code, ref.hex).value)
    ensures ref.numeric && ParseInt(ref.code, ref.hex).Failure? ==> r == Failure(InvalidLiteral(ref.code))
  {
    if ref.numeric then
      var v :- ParseInt(ref.code, ref.hex);
      if IsScalar(v) then Success(Utf8(v)) else Failure(InvalidCodePoint(v))
    else
      var name := AsString(ref.code);
      if name in entities then Success(EncodeString(entities[name])) else Success(matched)
  }

  /** `re.sub(pattern, expand_entity, raw)`: the matches, leftmost first and
      never overlapping, are replaced; replacement output is not scanned again;
      the first replacement that raises aborts the pass. */
  function Expand(s: seq<Byte>, entities: EntityTable): (r: Result<seq<Byte>, Error>)
    ensures r.Failure? ==> r.error.InvalidLiteral? || r.error.InvalidCodePoint?
    decreases |s|
  {
    if s == [] then Success([])
    else
      match MatchAt(s)
      case None =>
        var rest :- Expand(s[1..], entities);
        Success([s[0]] + rest)
      case Some(m) =>
        var rep :- Replacement(m.ref, s[..m.length], entities);
        var rest :- Expand(s[m.length..], entities);
        Success(rep + rest)
  }

  /** Two results in sequence: the first failure, else both outputs joined. */
  function Concat(first: Result<seq<Byte>, Error>, rest: Result<seq<Byte>, Error>): Result<seq<Byte>, Error> {
    match first
    case Failure(e) => Failure(e)
    case Success(p) => PrependTo(p, rest)
  }

  /** Bytes before the first `&` are copied unchanged. */
  lemma {:induction false} ExpandPlainPrefix(p: seq<Byte>, s: seq<Byte>, entities: EntityTable)
    requires Amp !in p
    ensures Expand(p + s, entities) == PrependTo(p, Expand(s, entities))
    decreases |p|
  {
    if p != [] {
      assert (p + s)[1..] == p[1..] + s;
      assert MatchAt(p + s).None?;
      ExpandPlainPrefix(p[1..], s, entities);
      match Expand(s, entities)
      case Success(v) =>
        assert [p[0]] + (p[1..] + v) == p + v;
      case Failure(_) =>
    } else {
      assert p + s == s;
      match Expand(s, entities)
      case Success(v) => assert p + v == v;
      case Failure(_) =>
    }
  }

  /** Input without any `&` is left exactly as it is. */
  lemma ExpandWithoutAmp(s: seq<Byte>, entities: EntityTable)
    requires Amp !in s
    ensures Expand(s, entities) == Success(s)
  {
    ExpandPlainPrefix(s, [], entities);
    assert s + [] == s;
  }

  /** A reference at the start is replaced and scanning resumes right after it,
      so the replacement text is never rescanned. */
  lemma ExpandReference(ref: Reference, rest: seq<Byte>, entities: EntityTable)
    requires WellFormed(ref) && Canonical(ref)
    ensures Expand(Spelling(ref) + rest, entities) ==
      Concat(Replacement(ref, Spelling(ref), entities), Expand(rest, entities))
  {
    var s := Spelling(ref) + rest;
    MatchSpelling(ref, rest);
    assert s[..|Spelling(ref)|] == Spelling(ref);
    assert s[|Spelling(ref)|..] == rest;
  }

  /** `&#N;` in decimal, leading zeros or not, becomes the UTF-8 encoding of
      code point N. */
  lemma ExpandDecimalReference(v: nat, k: nat, rest: seq<Byte>, entities: EntityTable)
    requires IsScalar(v)
    ensures Expand(Spelling(Reference(true, false, Zeros(k) + DecimalDigits(v))) + rest, entities) ==
      PrependTo(Utf8(v), Expand(rest, entities))
  {
    var code := Zeros(k) + DecimalDigits(v);
    var ref := Reference(true, false, code);
    ParseIntDecimalRoundTrip(v, k);
    assert AllDigits(code, false);
    assert IsDigit(code[0]);
    ExpandReference(ref, rest, entities);
  }

  /** `&#xN;` in hexadecimal, in any case and with any leading zeros, becomes
      the UTF-8 encoding of code point N. */
  lemma ExpandHexReference(v: nat, k: nat, ds: seq<Byte>, rest: seq<Byte>, entities: EntityTable)
    requires IsScalar(v)
    requires AllDigits(ds, true) && LowerDigits(ds) == HexDigits(v)
    ensures Expand(Spelling(Reference(true, true, Zeros(k) + ds)) + rest, entities) ==
      PrependTo(Utf8(v), Expand(rest, entities))
  {
    var code := Zeros(k) + ds;
    ParseIntHexRoundTrip(v, k, ds);
    LeadingZerosValue(k, ds, true);
    assert forall i :: 0 <= i < |code| ==> IsAlnum(code[i]);
    ExpandReference(Reference(true, true, code), rest, entities);
  }

  /** `&name;` for a name in the table becomes the UTF-8 encoding of its
      replacement text. */
  lemma ExpandNamedReference(code: seq<Byte>, rest: seq<Byte>, entities: EntityTable)
    requires WellFormed(Reference(false, false, code)) && AsString(code) in entities
    ensures Expand(Spelling(Reference(false, false, code)) + rest, entities) ==
      PrependTo(EncodeString(entities[AsString(code)]), Expand(rest, entities))
  {
    ExpandReference(Reference(false, false, code), rest, entities);
  }

  /** One step of the pass, as a sequencing of two results. */
  lemma ExpandStep(s: seq<Byte>, entities: EntityTable)
    requires s != []
    ensures MatchAt(s).None? ==> Expand(s, entities) == PrependTo([s[0]], Expand(s[1..], entities))
    ensures MatchAt(s).Some? ==>
      var m := MatchAt(s).value;
      Expand(s, entities) == Concat(Replacement(m.ref, s[..m.length], entities), Expand(s[m.length..], entities))
  {
  }

  /** Only a numeric reference can make the pass fail: without a `#` it
      succeeds whatever the table. */
  lemma {:induction false} ExpandWithoutHashSucceeds(s: seq<Byte>, entities: EntityTable)
    requires Hash !in s
    ensures Expand(s, entities).Success?
    decreases |s|
  {
    if s != [] {
      ExpandStep(s, entities);
      var r := MatchAt(s);
      if r.None? {
        ExpandWithoutHashSucceeds(s[1..], entities);
      } else {
        var m := r.value;
        assert s[1] == Spelling(m.ref)[1] && s[1] != Hash;
        ExpandWithoutHashSucceeds(s[m.length..], entities);
      }
    }
  }

  /** Leniency: with no numeric references, names the table does not hold are
      all left verbatim, so an empty table changes nothing. */
  lemma {:induction false} UnknownNamesStayVerbatim(s: seq<Byte>)
    requires Hash !in s
    ensures Expand(s, map[]) == Success(s)
    decreases |s|
  {
    if s != [] {
      ExpandStep(s, map[]);
      var r := MatchAt(s);
      if r.None? {
        UnknownNamesStayVerbatim(s[1..]);
        assert [s[0]] + s[1..] == s;
      } else {
        var m := r.value;
        assert s[1] == Spelling(m.ref)[1] && s[1] != Hash;
        assert Replacement(m.ref, s[..m.length], map[]) == Success(s[..m.length]);
        UnknownNamesStayVerbatim(s[m.length..]);
        assert s[..m.length] + s[m.length..] == s;
      }
    }
  }

  /** `Book._element_xhtml`: the serialized children of a chapter element (its
      own tag left out), concatenated, then expanded. */
  function SerializedChildren(kids: seq<Node>, serialize: Node -> seq<Byte>): (r: seq<Byte>)
    ensures kids == [] ==> r == []
    ensures |kids| == 1 ==> r == serialize(kids[0])
  {
    if kids == [] then [] else serialize(kids[0]) + SerializedChildren(kids[1..], serialize)
  }

  /** The children's serializations are joined in order, so the bytes of two
      runs of children are those of the first run then those of the second. */
  lemma {:induction false} SerializedChildrenAppend(a: seq<Node>, b: seq<Node>, serialize: Node -> seq<Byte>)
    ensures SerializedChildren(a + b, serialize) == SerializedChildren(a, serialize) + SerializedChildren(b, serialize)
  {
    if a == [] {
      assert a + b == b;
    } else {
      assert (a + b)[0] == a[0] && (a + b)[1..] == a[1..] + b;
      SerializedChildrenAppend(a[1..], b, serialize);
    }
  }

  function ElementXhtml(element: Node, entities: EntityTable, serialize: Node -> seq<Byte>): (r: Result<seq<Byte>, Error>)
    requires element.Element?
    ensures r.Failure? ==> r.error.InvalidLiteral? || r.error.InvalidCodePoint?
  {
    Expand(SerializedChildren(element.children, serialize), entities)
  }
}
