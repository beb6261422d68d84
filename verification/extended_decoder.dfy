/** The Extended Note Specification message (extended reply, subtype 0x02):
    an embedded standard status followed by an 18-byte note description
    whose currency code, base, sign and exponent give the bill. */
module ExtendedDecoder {
  import opened Wrappers
  import opened Bytes
  import opened StatusDecoder
  import opened FrameCodec

  const EXTENDED_OFFSET: nat := 7
  const EXTENSION_LENGTH: nat := 18
  const NOTE_SPECIFICATION: byte := 0x02
  const PLUS: byte := 0x2b   // '+'
  const MINUS: byte := 0x2d  // '-'

  predicate IsDigit(b: byte)
  {
    0x30 <= b <= 0x39
  }

  predicate AllDigits(s: seq<byte>)
  {
    forall i :: 0 <= i < |s| ==> IsDigit(s[i])
  }

  /** Bytes `parseInt` skips before the number: the ASCII white space. */
  predicate IsAsciiSpace(b: byte)
  {
    b == 0x20 || 0x09 <= b <= 0x0d
  }

  function DigitValue(b: byte): (v: nat)
    requires IsDigit(b)
    ensures v < 10
  {
    (b - 0x30) as nat
  }

  /** The decimal number a run of ASCII digits spells, most significant first. */
  function DecimalValue(s: seq<byte>): (v: nat)
    requires AllDigits(s)
  {
    if |s| == 0 then 0 else DecimalValue(s[..|s| - 1]) * 10 + DigitValue(s[|s| - 1])
  }

  /** The leading white space of `s` removed. */
  function TrimStart(s: seq<byte>): (r: seq<byte>)
    ensures |r| <= |s| && r == s[|s| - |r|..]
    ensures |r| > 0 ==> !IsAsciiSpace(r[0])
    ensures forall i :: 0 <= i < |s| - |r| ==> IsAsciiSpace(s[i])
  {
    if |s| > 0 && IsAsciiSpace(s[0]) then TrimStart(s[1..]) else s
  }

  /** The longest prefix of `s` made of digits. */
  function DigitRun(s: seq<byte>): (r: seq<byte>)
    ensures |r| <= |s| && r == s[..|r|]
    ensures AllDigits(r)
    ensures |r| < |s| ==> !IsDigit(s[|r|])
  {
    if |s| > 0 && IsDigit(s[0]) then [s[0]] + DigitRun(s[1..]) else []
  }

  /** `parseInt(field, 10)` on an ASCII field: white space is skipped, one
      sign is accepted, then the longest run of digits is read; with no digit
      the result is `NaN`, here `None`. */
  function ParseInt(s: seq<byte>): (r: Option<int>)
    ensures |s| > 0 && AllDigits(s) ==> r == Some(DecimalValue(s))
    ensures |s| == 0 ==> r.None?
    ensures (|s| > 0 && !IsAsciiSpace(s[0]) && !IsDigit(s[0])
             && s[0] != PLUS && s[0] != MINUS) ==> r.None?
  {
    var t := TrimStart(s);
    var negative := |t| > 0 && t[0] == MINUS;
    var u := if |t| > 0 && (t[0] == MINUS || t[0] == PLUS) then t[1..] else t;
    var digits := DigitRun(u);
    if |digits| == 0 then None
    else
      assert |s| > 0 && AllDigits(s) ==> t == s && u == s && digits == s;
      Some(if negative then -(DecimalValue(digits) as int) else DecimalValue(digits))
  }

  function Pow10Nat(n: nat): (p: nat)
    ensures p >= 1
  {
    if n == 0 then 1 else 10 * Pow10Nat(n - 1)
  }

  /** `Math.pow(10, k)` for an integer `k`, in exact arithmetic. */
  function Pow10(k: int): (p: real)
    ensures p > 0.0
    ensures k >= 0 ==> p == Pow10Nat(k) as real
    ensures k < 0 ==> p == 1.0 / (Pow10Nat(-k) as real)
  {
    if k >= 0 then Pow10Nat(k) as real else 1.0 / Pow10Nat(-k) as real
  }

  /** Powers of ten with opposite exponents are reciprocal, as for
      `Math.pow(10, k) * Math.pow(10, -k)`. */
  lemma Pow10Inverse(k: int)
    ensures Pow10(k) * Pow10(-k) == 1.0
  {
    if k > 0 {
      assert Pow10(-k) == 1.0 / (Pow10Nat(k) as real);
    } else if k < 0 {
      assert Pow10(k) == 1.0 / (Pow10Nat(-k) as real);
    }
  }

  /** The sign byte as a multiplier. Any other byte is `null`, which
      JavaScript's `*` turns into 0. */
  function SignOf(b: Option<byte>): (m: int)
    ensures m == 1 <==> b == Some(PLUS)
    ensures m == -1 <==> b == Some(MINUS)
    ensures m == 0 <==> b != Some(PLUS) && b != Some(MINUS)
  {
    if b == Some(PLUS) then 1 else if b == Some(MINUS) then -1 else 0
  }

  /** The 18-byte extension (`destructedExtendedData`); single bytes read
      past the end are `undefined`, here `None`. */
  datatype NoteSpec = NoteSpec(
    index: Option<byte>,
    code: seq<byte>,
    base: Option<int>,
    sign: int,
    exponent: Option<int>,
    orientation: Option<byte>,
    noteType: Option<byte>,
    series: Option<byte>,
    compatibility: Option<byte>,
    version: Option<byte>,
    banknoteClassification: Option<byte>,
    reserved: seq<byte>)

  /** Reads the extension's fields at their fixed offsets. */
  function DestructExtension(ext: seq<byte>): (r: NoteSpec)
    ensures |ext| >= EXTENSION_LENGTH ==>
              && r.code == ext[1..4]
              && r.base == ParseInt(ext[4..7])
              && r.exponent == ParseInt(ext[8..10])
              && |r.reserved| == 3
    ensures r.sign == SignOf(At(ext, 7))
  {
    NoteSpec(
      At(ext, 0),
      Slice(ext, 1, 4),
      ParseInt(Slice(ext, 4, 7)),
      SignOf(At(ext, 7)),
      ParseInt(Slice(ext, 8, 10)),
      At(ext, 10),
      At(ext, 11),
      At(ext, 12),
      At(ext, 13),
      At(ext, 14),
      At(ext, 15),
      Slice(ext, 15, 18))
  }

  /** The reserved slice starts at offset 15, the banknote classification
      byte, so the two fields share that byte. */
  lemma ReservedOverlapsClassification(ext: seq<byte>)
    requires |ext| >= 16
    ensures var spec := DestructExtension(ext);
            spec.banknoteClassification.Some? && |spec.reserved| > 0
            && spec.reserved[0] == spec.banknoteClassification.value
  {
    var spec := DestructExtension(ext);
    assert spec.banknoteClassification == At(ext, 15);
    assert spec.reserved == Slice(ext, 15, 18);
    SliceStartsAt(ext, 15, 18);
  }

  /** `sign * exponent` for a sign multiplier of 1, -1 or 0. */
  function SignedExponent(sign: int, exponent: int): int
  {
    if sign == 1 then exponent else if sign == -1 then -exponent else 0
  }

  /** `base * Math.pow(10, sign * exponent)` on numbers. */
  function Scale(base: int, sign: int, exponent: int): real
  {
    base as real * Pow10(SignedExponent(sign, exponent))
  }

  /** The denomination of a note specification: `NaN` (here `None`) as
      soon as the base or the exponent is `NaN`. */
  function Denomination(spec: NoteSpec): (d: Option<real>)
    ensures d.Some? <==> spec.base.Some? && spec.exponent.Some?
    ensures d.Some? && spec.sign == 0 ==> d.value == spec.base.value as real
  {
    if spec.base.None? || spec.exponent.None? then None
    else Some(Scale(spec.base.value, spec.sign, spec.exponent.value))
  }

  /** A bill as the extended message reports it: its denomination and the
      bytes of its currency code. */
  datatype Bill = Bill(denomination: Option<real>, code: seq<byte>)

  /** What a decoded reply tells the controller. */
  datatype Interpretation = Interpretation(status: Option<Status>, bill: Option<Bill>)

  /** `parseExtended`: `null` (here `Success(None)`) unless the subtype byte
      is 0x02. Otherwise the status comes from the six bytes after the
      subtype and the bill from the extension at offset 7; with fewer than
      six status bytes `parseStatus(null)` throws. */
  function ParseExtended(data: seq<byte>): (r: Result<Option<Interpretation>, DecodeError>)
    ensures At(data, 0) != Some(NOTE_SPECIFICATION) ==> r == Success(None)
    ensures At(data, 0) == Some(NOTE_SPECIFICATION) && |data| < 7 ==> r == Failure(UndefinedProperty)
    ensures At(data, 0) == Some(NOTE_SPECIFICATION) && |data| >= 7 ==>
              && r.Success? && r.value.Some?
              && r.value.value.status == ParseStatus(DestructData(data[1..7]).value)
              && r.value.value.bill.Some?
    ensures At(data, 0) == Some(NOTE_SPECIFICATION) && |data| >= EXTENDED_OFFSET + EXTENSION_LENGTH ==>
              var spec := DestructExtension(data[7..25]);
              r.value.value.bill == Some(Bill(Denomination(spec), data[8..11]))
    // A partial extension: JavaScript's slice keeps what there is of it, and
    // the currency code is what there is of bytes 8..10, shorter than three
    // bytes when the reply stops before byte 11.
    ensures At(data, 0) == Some(NOTE_SPECIFICATION) && |data| >= EXTENDED_OFFSET ==>
              r.value.value.bill.value.code == Slice(data, 8, 11)
    ensures At(data, 0) == Some(NOTE_SPECIFICATION) && EXTENDED_OFFSET <= |data| < EXTENDED_OFFSET + EXTENSION_LENGTH ==>
              r.value.value.bill.value.denomination == Denomination(DestructExtension(data[7..]))
  {
    var subType := At(data, 0);
    var ext := Slice(data, EXTENDED_OFFSET, EXTENDED_OFFSET + EXTENSION_LENGTH);
    var standard := DestructData(Slice(data, 1, EXTENDED_OFFSET));
    if subType != Some(NOTE_SPECIFICATION) then Success(None)
    else if standard.None? then Failure(UndefinedProperty)
    else
      ExtensionAt(data);
      var spec := DestructExtension(ext);
      Success(Some(Interpretation(ParseStatus(standard.value),
                                  Some(Bill(Denomination(spec), spec.code)))))
  }

  /** Where a complete extension lies in the reply data, and where its
      currency code lies. */
  lemma ExtensionAt(data: seq<byte>)
    ensures |data| >= EXTENDED_OFFSET + EXTENSION_LENGTH ==>
              var ext := Slice(data, EXTENDED_OFFSET, EXTENDED_OFFSET + EXTENSION_LENGTH);
              ext == data[7..25] && ext[1..4] == data[8..11]
    ensures EXTENDED_OFFSET <= |data| < EXTENDED_OFFSET + EXTENSION_LENGTH ==>
              Slice(data, EXTENDED_OFFSET, EXTENDED_OFFSET + EXTENSION_LENGTH) == data[7..]
    ensures |data| >= EXTENDED_OFFSET ==>
              Slice(Slice(data, EXTENDED_OFFSET, EXTENDED_OFFSET + EXTENSION_LENGTH), 1, 4)
              == Slice(data, 8, 11)
  {
    if |data| >= 25 {
      Subslice(data, 7, 25, 1, 4);
    } else if |data| >= 7 {
      assert Slice(data, 7, 25) == data[7..];
      SliceOfSuffix(data, 7, 1, 4);
    }
  }

  /** A complete note specification message reports the currency code held
      at bytes 8..10 of the reply data. */
  lemma ExtendedBillCode(data: seq<byte>)
    requires |data| >= EXTENDED_OFFSET + EXTENSION_LENGTH && data[0] == NOTE_SPECIFICATION
    ensures var r := ParseExtended(data);
            r.Success? && r.value.Some? && r.value.value.bill.Some?
            && r.value.value.bill.value.code == data[8..11]
  {
    var ext := Slice(data, EXTENDED_OFFSET, EXTENDED_OFFSET + EXTENSION_LENGTH);
    assert ext == data[7..25];
    assert ext[1..4] == data[8..11];
    assert DestructExtension(ext).code == data[8..11];
  }

  /** With a well-formed extension (three-digit base, `'+'` or `'-'`, two-digit
      exponent), the denomination is exactly `base * 10^(±exponent)`. */
  lemma {:induction false} DenominationOfDigits(ext: seq<byte>, base: nat, e: nat)
    requires |ext| >= EXTENSION_LENGTH
    requires AllDigits(ext[4..7]) && AllDigits(ext[8..10])
    requires base == DecimalValue(ext[4..7]) && e == DecimalValue(ext[8..10])
    requires ext[7] == PLUS || ext[7] == MINUS
    ensures ext[7] == PLUS ==>
              Denomination(DestructExtension(ext)) == Some((base as real) * (Pow10Nat(e) as real))
    ensures ext[7] == MINUS ==>
              Denomination(DestructExtension(ext)) == Some((base as real) / (Pow10Nat(e) as real))
  {
    ParsedFields(ext, base, e);
    DenominationBySign(DestructExtension(ext), base, e);
  }

  /** End to end: a note specification reply whose base (data bytes 11..13)
      and exponent (data bytes 15..16) are ASCII digits and whose sign
      (data byte 14) is `'+'` or `'-'` reports the bill `base * 10^(±e)`
      in the currency of data bytes 8..10. */
  lemma ExtendedDenomination(data: seq<byte>, base: nat, e: nat)
    requires |data| >= EXTENDED_OFFSET + EXTENSION_LENGTH && data[0] == NOTE_SPECIFICATION
    requires AllDigits(data[11..14]) && AllDigits(data[15..17])
    requires base == DecimalValue(data[11..14]) && e == DecimalValue(data[15..17])
    requires data[14] == PLUS || data[14] == MINUS
    ensures var r := ParseExtended(data);
            && r.Success? && r.value.Some? && r.value.value.bill.Some?
            && r.value.value.bill.value.code == data[8..11]
            && (data[14] == PLUS ==>
                  r.value.value.bill.value.denomination == Some((base as real) * (Pow10Nat(e) as real)))
            && (data[14] == MINUS ==>
                  r.value.value.bill.value.denomination == Some((base as real) / (Pow10Nat(e) as real)))
  {
    var ext := data[7..25];
    Subslice(data, 7, 25, 4, 7);
    Subslice(data, 7, 25, 8, 10);
    DenominationOfDigits(ext, base, e);
  }

  /** The numeric fields of an extension whose base and exponent are digits. */
  lemma ParsedFields(ext: seq<byte>, base: nat, e: nat)
    requires |ext| >= EXTENSION_LENGTH
    requires AllDigits(ext[4..7]) && AllDigits(ext[8..10])
    requires base == DecimalValue(ext[4..7]) && e == DecimalValue(ext[8..10])
    ensures var spec := DestructExtension(ext);
            spec.base == Some(base) && spec.exponent == Some(e) && spec.sign == SignOf(Some(ext[7]))
  {
  }

  /** The denomination for each sign multiplier, for a numeric base and exponent. */
  lemma DenominationBySign(spec: NoteSpec, base: int, e: nat)
    requires spec.base == Some(base) && spec.exponent == Some(e)
    ensures spec.sign == 1 ==> Denomination(spec) == Some((base as real) * (Pow10Nat(e) as real))
    ensures spec.sign == -1 ==> Denomination(spec) == Some((base as real) / (Pow10Nat(e) as real))
  {
    if spec.sign == 1 {
      ScalePositive(base, e);
    } else if spec.sign == -1 {
      ScaleNegative(base, e);
    }
  }

  lemma ScalePositive(base: int, e: nat)
    ensures Scale(base, 1, e) == (base as real) * (Pow10Nat(e) as real)
  {
  }

  lemma ScaleNegative(base: int, e: nat)
    ensures Scale(base, -1, e) == (base as real) / (Pow10Nat(e) as real)
  {
    var p := Pow10Nat(e) as real;
    var k: int := -(e as int);
    assert SignedExponent(-1, e) == k;
    var q := Pow10(k);
    assert Scale(base, -1, e) == (base as real) * q;
    if e == 0 {
      assert q == p == 1.0;
    } else {
      assert q == 1.0 / p;
    }
    TimesInverse(base as real, p, q);
    assert (base as real) * q == (base as real) / p;
  }

  /** Multiplying by the inverse is dividing. */
  lemma TimesInverse(x: real, p: real, q: real)
    requires p > 0.0 && q * p == 1.0
    ensures x * q == x / p
  {
  }

  /** Worked example: base "005", sign '+', exponent "01" is a 50 note. */
  lemma DenominationExampleFifty(ext: seq<byte>)
    requires |ext| >= EXTENSION_LENGTH
    requires ext[4..7] == [0x30, 0x30, 0x35] && ext[7] == PLUS && ext[8..10] == [0x30, 0x31]
    ensures Denomination(DestructExtension(ext)) == Some(50.0)
  {
    DigitsValue2(0x30, 0x31);
    DigitsValue3(0x30, 0x30, 0x35);
    ParsedFields(ext, 5, 1);
    TenToTheOne();
  }

  /** Worked example: base "010", sign '-', exponent "01" is a 1 note. */
  lemma DenominationExampleOne(ext: seq<byte>)
    requires |ext| >= EXTENSION_LENGTH
    requires ext[4..7] == [0x30, 0x31, 0x30] && ext[7] == MINUS && ext[8..10] == [0x30, 0x31]
    ensures Denomination(DestructExtension(ext)) == Some(1.0)
  {
    DigitsValue2(0x30, 0x31);
    DigitsValue3(0x30, 0x31, 0x30);
    ParsedFields(ext, 10, 1);
    TenToTheOne();
  }

  lemma TenToTheOne()
    ensures Pow10(1) == 10.0 && Pow10(-1) == 0.1
  {
  }

  lemma DigitsValue2(a: byte, b: byte)
    requires IsDigit(a) && IsDigit(b)
    ensures DecimalValue([a, b]) == DigitValue(a) * 10 + DigitValue(b)
  {
    assert [a, b][..1] == [a];
    assert [a][..0] == [];
    assert DecimalValue([a]) == DecimalValue([]) * 10 + DigitValue(a);
  }

  lemma DigitsValue3(a: byte, b: byte, c: byte)
    requires IsDigit(a) && IsDigit(b) && IsDigit(c)
    ensures DecimalValue([a, b, c]) == DigitValue(a) * 100 + DigitValue(b) * 10 + DigitValue(c)
  {
    assert [a, b, c][..2] == [a, b];
    DigitsValue2(a, b);
  }

  /** An unrecognised sign byte gives a multiplier of 0, so the
      denomination is the base itself, whatever the exponent, and no error
      is raised. */
  lemma UnknownSignKeepsBase(ext: seq<byte>)
    requires |ext| >= EXTENSION_LENGTH
    requires ext[7] != PLUS && ext[7] != MINUS
    requires AllDigits(ext[4..7]) && AllDigits(ext[8..10])
    ensures Denomination(DestructExtension(ext)) == Some(DecimalValue(ext[4..7]) as real)
  {
  }
}
