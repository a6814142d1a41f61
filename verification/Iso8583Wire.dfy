// What the octets of a field look like on the wire (app/iso8583.py:210-283), in digits and octets: which
// values a field takes, what stands in front of them, and which fault a refused value or octets have.
module Iso8583Wire {
  import opened Results
  import opened Bytes
  import opened Iso8583

  /** The octets of a value: its character codes, or itself. */
  function OctetsOf(value: FieldValue): seq<int> {
    match value
    case Text(text) => seq(|text|, i requires 0 <= i < |text| => text[i] as int)
    case Raw(raw) => raw
  }

  predicate Within(octets: seq<int>, low: int, high: int) {
    forall i :: 0 <= i < |octets| ==> low <= octets[i] <= high
  }

  /** What stands in front of a value of `length` octets: nothing, two digits, or three. */
  function LengthDigits(lengthType: LengthType, length: int): seq<int> {
    match lengthType
    case Fixed => []
    case LlVar => [48 + length / 10, 48 + length % 10]
    case LllVar => [48 + length / 100, 48 + length / 10 % 10, 48 + length % 10]
  }

  /** The values a field takes: digits, printable ASCII or any octets, of a length it allows. */
  predicate Takes(spec: FieldSpec, value: FieldValue) {
    var octets := OctetsOf(value);
    && (match spec.dataType
        case Numeric => value.Text? && Within(octets, 48, 57)
        case Ans => value.Text? && Within(octets, 32, 126)
        case Binary => value.Raw?)
    && if spec.lengthType.Fixed? then |octets| == spec.maxLength
       else spec.minLength <= |octets| <= spec.maxLength
  }

  lemma TextCodes(value: FieldValue)
    ensures value.Text? ==> (IsAscii(value.text) <==> Within(OctetsOf(value), 0, 127))
    ensures value.Text? && IsAscii(value.text) ==> AsciiEncode(value.text) == OctetsOf(value)
  {
    if value.Text? {
      var octets := OctetsOf(value);
      assert forall i :: 0 <= i < |octets| ==> octets[i] == value.text[i] as int;
      if IsAscii(value.text) {
        assert forall i :: 0 <= i < |octets| ==> AsciiDecode(AsciiEncode(value.text))[i] == value.text[i];
      }
    }
  }

  lemma DigitsOf(length: nat)
    ensures length <= 99 ==>
      Decimal(length, 2) == [('0' as int + length / 10) as char, ('0' as int + length % 10) as char]
    ensures length <= 999 ==>
      Decimal(length, 3) == [('0' as int + length / 100) as char, ('0' as int + length / 10 % 10) as char,
                             ('0' as int + length % 10) as char]
  {
    assert Decimal(length / 100, 0) == "" && length / 10 / 10 == length / 100 && length / 100 / 10 == length / 1000;
    assert Decimal(length / 1000, 0) == "";
    assert Decimal(length / 10, 1) == Decimal(length / 100, 0) + [('0' as int + length / 10 % 10) as char];
    assert Decimal(length / 100, 1) == Decimal(length / 1000, 0) + [('0' as int + length / 100 % 10) as char];
    assert Decimal(length / 10, 2) == Decimal(length / 100, 1) + [('0' as int + length / 10 % 10) as char];
  }

  lemma CoercedOctets(spec: FieldSpec, value: FieldValue)
    ensures CoerceValue(spec, value).Ok? ==> CoerceValue(spec, value).value == OctetsOf(value)
    ensures CoerceValue(spec, value).Ok? <==>
      match spec.dataType
      case Numeric => value.Text? && Within(OctetsOf(value), 48, 57)
      case Ans => value.Text? && Within(OctetsOf(value), 32, 126)
      case Binary => value.Raw?
  {
    TextCodes(value);
  }

  /** A field takes exactly these values. */
  lemma EncodesExactly(spec: FieldSpec, value: FieldValue)
    ensures EncodeField(spec, value).Ok? <==> Takes(spec, value)
  {
    hide CoerceValue, Decimal, AsciiEncode;
    CoercedOctets(spec, value);
  }

  /** The wire form of a field: its length digits, then the octets of its value. */
  lemma WireForm(spec: FieldSpec, value: FieldValue)
    requires spec.Valid() && EncodeField(spec, value).Ok?
    ensures EncodeField(spec, value).value == LengthDigits(spec.lengthType, |OctetsOf(value)|) + OctetsOf(value)
  {
    hide CoerceValue, Decimal;
    CoercedOctets(spec, value);
    var length := |OctetsOf(value)|;
    DigitsOf(length);
    if !spec.lengthType.Fixed? {
      var digits := Decimal(length, if spec.lengthType.LlVar? then 2 else 3);
      TextCodes(Text(digits));
      assert OctetsOf(Text(digits)) == LengthDigits(spec.lengthType, length);
    }
  }

  /** The decoder reads a value exactly from its wire form, and takes no octet more. */
  lemma ReadsExactly(spec: FieldSpec, s: Octets, value: FieldValue, width: nat)
    requires spec.Valid()
    ensures DecodeField(spec, s) == Ok(FieldRead(value, width)) <==>
      && Takes(spec, value) && width <= |s|
      && s[..width] == LengthDigits(spec.lengthType, |OctetsOf(value)|) + OctetsOf(value)
  {
    hide DecodeField, EncodeField, Takes, OctetsOf, LengthDigits;
    EncodesExactly(spec, value);
    if DecodeField(spec, s) == Ok(FieldRead(value, width)) {
      DecodedFieldEncodes(spec, s);
      WireForm(spec, value);
    }
    if Takes(spec, value) && width <= |s| {
      WireForm(spec, value);
      if s[..width] == EncodeField(spec, value).value {
        EncodedFieldDecodes(spec, value, s[width..]);
        assert s == s[..width] + s[width..];
      }
    }
  }

  /** The fault of a refused value: its type first, then its alphabet, then its length. */
  lemma RefusedValue(spec: FieldSpec, value: FieldValue)
    requires EncodeField(spec, value).Err?
    ensures EncodeField(spec, value).error ==
      if spec.dataType.Binary? && !value.Raw? then NeedsBytes(spec.number)
      else if !spec.dataType.Binary? && !value.Text? then NeedsString(spec.number)
      else if !spec.dataType.Binary? && !Within(OctetsOf(value), 0, 127) then TextNotAscii(spec.number)
      else if spec.dataType.Numeric? && !Within(OctetsOf(value), 48, 57) then TextNotDigits(spec.number)
      else if spec.dataType.Ans? && !Within(OctetsOf(value), 32, 126) then TextNotPrintable(spec.number)
      else if spec.lengthType.Fixed? then WrongFixedLength(spec.number)
      else LengthOutOfRange(spec.number)
  {
    TextCodes(value);
  }

  /** How many digits stand in front of a value. */
  function DigitCount(lengthType: LengthType): nat {
    |LengthDigits(lengthType, 0)|
  }

  /** The number two or three digits spell. */
  function Spelled(digits: seq<int>): int {
    if |digits| == 2 then (digits[0] - 48) * 10 + (digits[1] - 48)
    else if |digits| == 3 then (digits[0] - 48) * 100 + (digits[1] - 48) * 10 + (digits[2] - 48)
    else 0
  }

  lemma SpelledIsValue(digits: Octets)
    requires DigitOctets(digits) && (|digits| == 2 || |digits| == 3)
    ensures AllDigits(AsciiDecode(digits)) && DecimalValue(AsciiDecode(digits)) == Spelled(digits)
  {
    var s := AsciiDecode(digits);
    assert s[..1][..0] == "";
    assert DecimalValue(s[..1]) == digits[0] - 48;
    assert s[..2][..1] == s[..1];
    assert DecimalValue(s[..2]) == DecimalValue(s[..1]) * 10 + (digits[1] - 48);
    if |digits| == 3 {
      assert s[..3][..2] == s[..2] && s[..3] == s;
    } else {
      assert s[..2] == s;
    }
  }

  /** The fault of refused octets: the length digits first, then the length, then the octets that must
      be there, then their alphabet. */
  lemma RefusedOctets(spec: FieldSpec, s: Octets)
    requires spec.Valid() && DecodeField(spec, s).Err?
    ensures var n := DigitCount(spec.lengthType);
      var length := if spec.lengthType.Fixed? || n > |s| then spec.maxLength else Spelled(s[..n]);
      DecodeField(spec, s).error ==
        if n > |s| then PrefixTruncated(spec.number)
        else if !Within(s[..n], 48, 57) then PrefixNotDigits(spec.number)
        else if !spec.lengthType.Fixed? && !(spec.minLength <= length <= spec.maxLength) then
          LengthOutOfRange(spec.number)
        else if n + length > |s| then ValueTruncated(spec.number)
        else if spec.dataType.Numeric? then TextNotDigits(spec.number)
        else TextNotPrintable(spec.number)
  {
    var n := DigitCount(spec.lengthType);
    if !spec.lengthType.Fixed? && n <= |s| && Within(s[..n], 48, 57) {
      assert DigitOctets(s[..n]);
      SpelledIsValue(s[..n]);
    }
    hide DecimalValue, AsciiDecode;
  }

  /** The limits of a profile entry: element 2 to 128; up to 99 octets behind two digits and 999 behind
      three; a least length only where the length varies. */
  lemma SpecLimits(spec: FieldSpec)
    ensures spec.Valid() <==>
      && 1 < spec.number < 129 && 0 <= spec.minLength <= spec.maxLength && 0 < spec.maxLength
      && match spec.lengthType
         case Fixed => spec.minLength == 0
         case LlVar => spec.maxLength < 100
         case LllVar => spec.maxLength < 1000
  {
  }

  /** An MTI is four digits, on either side of the wire. */
  lemma MtiExactly(mti: string, raw: Octets)
    ensures EncodeMti(mti).Ok? <==> |mti| == 4 && forall i :: 0 <= i < 4 ==> 48 <= mti[i] as int <= 57
    ensures EncodeMti(mti).Ok? ==> EncodeMti(mti).value == OctetsOf(Text(mti))
    ensures EncodeMti(mti).Err? ==> EncodeMti(mti).error == MtiNotFourDigits
    ensures DecodeMti(raw).Ok? <==> |raw| == 4 && Within(raw, 48, 57)
    ensures DecodeMti(raw).Ok? ==> OctetsOf(Text(DecodeMti(raw).value)) == raw
    ensures DecodeMti(raw).Err? ==>
      DecodeMti(raw).error == if Within(raw, 0, 127) then MtiNotFourDigits else MtiNotAscii
  {
    TextCodes(Text(mti));
    if IsAsciiOctets(raw) {
      var text := AsciiDecode(raw);
      assert forall i :: 0 <= i < |raw| ==> text[i] as int == raw[i];
      assert OctetsOf(Text(text)) == raw;
    }
  }
}
