// The strict ISO 8583 message codec (app/iso8583.py): reference functions for every field-spec map,
// the two inverse laws, prefix freedom, and the loops of the source proved against the functions.
module Iso8583 {
  import opened Results
  import opened Bytes
  import opened Bits

  datatype DataType = Numeric | Ans | Binary

  datatype LengthType = Fixed | LlVar | LllVar

  datatype FieldSpec = FieldSpec(
    number: int, dataType: DataType, lengthType: LengthType, maxLength: int, minLength: int)
  {
    /** The checks of `FieldSpec.__post_init__`. */
    predicate Valid() {
      && 2 <= number <= 128
      && maxLength > 0
      && 0 <= minLength <= maxLength
      && (lengthType.Fixed? ==> minLength == 0)
      && (lengthType.LlVar? ==> maxLength <= 99)
      && (lengthType.LllVar? ==> maxLength <= 999)
    }

    function PrefixWidth(): nat {
      match lengthType
      case Fixed => 0
      case LlVar => 2
      case LllVar => 3
    }
  }

  type FieldSpecs = map<int, FieldSpec>

  /** What the codec's constructor checks of its profile. */
  predicate ValidSpecs(specs: FieldSpecs) {
    forall n :: n in specs ==> SpecFor(specs[n], n)
  }

  predicate SpecFor(spec: FieldSpec, n: int) {
    spec.Valid() && spec.number == n
  }

  datatype FieldValue = Text(text: string) | Raw(raw: Octets)

  datatype Message = Message(mti: string, fields: map<int, FieldValue>)

  /** One constructor per place where the source raises `ISO8583CodecError`. */
  datatype CodecError =
    | MessageTooShort
    | MtiNotAscii
    | MtiNotFourDigits
    | SecondaryBitmapTruncated
    | FieldNumberOutOfRange(number: int)
    | NoFieldSpec(number: int)
    | WrongFixedLength(number: int)
    | LengthOutOfRange(number: int)
    | PrefixTruncated(number: int)
    | PrefixNotDigits(number: int)
    | ValueTruncated(number: int)
    | NeedsBytes(number: int)
    | NeedsString(number: int)
    | TextNotAscii(number: int)
    | TextNotDigits(number: int)
    | TextNotPrintable(number: int)
    | TrailingBytes

  // ----- message type ------------------------------------------------------------------

  function EncodeMti(mti: string): (r: Result<Octets, CodecError>)
  {
    if |mti| == 4 && AllDigits(mti) then Ok(AsciiEncode(mti)) else Err(MtiNotFourDigits)
  }

  function DecodeMti(raw: Octets): (r: Result<string, CodecError>)
  {
    if !IsAsciiOctets(raw) then Err(MtiNotAscii)
    else
      var mti := AsciiDecode(raw);
      var _ :- EncodeMti(mti);
      Ok(mti)
  }

  // ----- one field ---------------------------------------------------------------------

  function ValidateText(spec: FieldSpec, raw: Octets): (r: Result<(), CodecError>)
  {
    if spec.dataType.Numeric? && exists i :: 0 <= i < |raw| && !(48 <= raw[i] <= 57) then
      Err(TextNotDigits(spec.number))
    else if spec.dataType.Ans? && exists i :: 0 <= i < |raw| && !(0x20 <= raw[i] <= 0x7E) then
      Err(TextNotPrintable(spec.number))
    else
      Ok(())
  }

  function CoerceValue(spec: FieldSpec, value: FieldValue): (r: Result<Octets, CodecError>)
  {
    if spec.dataType.Binary? then
      if value.Raw? then Ok(value.raw) else Err(NeedsBytes(spec.number))
    else if !value.Text? then Err(NeedsString(spec.number))
    else if !IsAscii(value.text) then Err(TextNotAscii(spec.number))
    else
      var raw := AsciiEncode(value.text);
      var _ :- ValidateText(spec, raw);
      Ok(raw)
  }

  function EncodeField(spec: FieldSpec, value: FieldValue): (r: Result<Octets, CodecError>)
  {
    var raw :- CoerceValue(spec, value);
    if spec.lengthType.Fixed? then
      if |raw| != spec.maxLength then Err(WrongFixedLength(spec.number)) else Ok(raw)
    else if !(spec.minLength <= |raw| <= spec.maxLength) then Err(LengthOutOfRange(spec.number))
    else Ok(AsciiEncode(Decimal(|raw|, spec.PrefixWidth())) + raw)
  }

  datatype FieldRead = FieldRead(value: FieldValue, width: nat)

  function DecodeValue(spec: FieldSpec, raw: Octets): (r: Result<FieldValue, CodecError>)
  {
    if spec.dataType.Binary? then Ok(Raw(raw))
    else
      var _ :- ValidateText(spec, raw);
      assert IsAsciiOctets(raw);
      Ok(Text(AsciiDecode(raw)))
  }

  /** `bytes.isascii() and bytes.isdigit()`. */
  predicate DigitOctets(s: Octets) {
    forall i :: 0 <= i < |s| ==> 48 <= s[i] <= 57
  }

  /** The field at the head of `s` and the number of octets it took, length prefix included. */
  function DecodeField(spec: FieldSpec, s: Octets): (r: Result<FieldRead, CodecError>)
    requires spec.Valid()
    ensures r.Ok? ==> r.value.width <= |s|
  {
    var width := spec.PrefixWidth();
    if spec.lengthType.Fixed? then
      if spec.maxLength > |s| then Err(ValueTruncated(spec.number))
      else
        var value :- DecodeValue(spec, s[..spec.maxLength]);
        Ok(FieldRead(value, spec.maxLength))
    else if width > |s| then Err(PrefixTruncated(spec.number))
    else if !DigitOctets(s[..width]) then Err(PrefixNotDigits(spec.number))
    else
      var prefix := AsciiDecode(s[..width]);
      assert AllDigits(prefix);
      var length := DecimalValue(prefix);
      if !(spec.minLength <= length <= spec.maxLength) then Err(LengthOutOfRange(spec.number))
      else if width + length > |s| then Err(ValueTruncated(spec.number))
      else
        var value :- DecodeValue(spec, s[width..width + length]);
        Ok(FieldRead(value, width + length))
  }

  lemma Pow10Small()
    ensures Pow10(2) == 100 && Pow10(3) == 1000
  {
    assert Pow10(1) == 10;
  }

  lemma CoerceOfDecode(spec: FieldSpec, raw: Octets)
    requires DecodeValue(spec, raw).Ok?
    ensures CoerceValue(spec, DecodeValue(spec, raw).value) == Ok(raw)
  {
    if !spec.dataType.Binary? {
      AsciiRoundTrip(raw);
    }
  }

  lemma DecodeOfCoerce(spec: FieldSpec, value: FieldValue)
    requires CoerceValue(spec, value).Ok?
    ensures DecodeValue(spec, CoerceValue(spec, value).value) == Ok(value)
  {
  }

  lemma EncodedPrefixReads(length: nat, width: nat, rest: Octets)
    requires (width == 2 && length <= 99) || (width == 3 && length <= 999)
    ensures var s := AsciiEncode(Decimal(length, width)) + rest;
      && DigitOctets(s[..width])
      && AllDigits(AsciiDecode(s[..width]))
      && DecimalValue(AsciiDecode(s[..width])) == length
  {
    Pow10Small();
    ValueOfDecimal(length, width);
    var s := AsciiEncode(Decimal(length, width)) + rest;
    assert s[..width] == AsciiEncode(Decimal(length, width));
  }

  /** An encoded field is read back whatever follows it. */
  lemma EncodedFieldDecodes(spec: FieldSpec, value: FieldValue, rest: Octets)
    requires spec.Valid() && EncodeField(spec, value).Ok?
    ensures var e := EncodeField(spec, value).value;
      DecodeField(spec, e + rest) == Ok(FieldRead(value, |e|))
  {
    hide CoerceValue, DecodeValue, DecimalValue, Decimal, AsciiEncode, AsciiDecode;
    var e := EncodeField(spec, value).value;
    var raw := CoerceValue(spec, value).value;
    DecodeOfCoerce(spec, value);
    if spec.lengthType.Fixed? {
      assert (e + rest)[..spec.maxLength] == raw;
    } else {
      var width := spec.PrefixWidth();
      EncodedPrefixReads(|raw|, width, raw + rest);
      var prefix := AsciiEncode(Decimal(|raw|, width));
      assert e + rest == prefix + (raw + rest);
      assert (e + rest)[width..width + |raw|] == raw;
    }
  }

  lemma DecodedFixedEncodes(spec: FieldSpec, s: Octets)
    requires spec.Valid() && DecodeField(spec, s).Ok? && spec.lengthType.Fixed?
    ensures var f := DecodeField(spec, s).value;
      EncodeField(spec, f.value) == Ok(s[..f.width])
  {
    CoerceOfDecode(spec, s[..spec.maxLength]);
  }

  lemma DecodedVariableEncodes(spec: FieldSpec, s: Octets)
    requires spec.Valid() && DecodeField(spec, s).Ok? && !spec.lengthType.Fixed?
    ensures var f := DecodeField(spec, s).value;
      EncodeField(spec, f.value) == Ok(s[..f.width])
  {
    var f := DecodeField(spec, s).value;
    var width := spec.PrefixWidth();
    var raw := s[width..f.width];
    assert DecodeValue(spec, raw) == Ok(f.value);
    CoerceOfDecode(spec, raw);
    DecimalOfValue(AsciiDecode(s[..width]));
    AsciiRoundTrip(s[..width]);
    assert EncodeField(spec, f.value) == Ok(s[..width] + raw);
    assert s[..f.width] == s[..width] + raw;
  }

  /** A field that was read re-encodes to exactly the octets it took. */
  lemma DecodedFieldEncodes(spec: FieldSpec, s: Octets)
    requires spec.Valid() && DecodeField(spec, s).Ok?
    ensures var f := DecodeField(spec, s).value;
      EncodeField(spec, f.value) == Ok(s[..f.width])
  {
    if spec.lengthType.Fixed? {
      DecodedFixedEncodes(spec, s);
    } else {
      DecodedVariableEncodes(spec, s);
    }
  }

  // ----- bitmaps -----------------------------------------------------------------------

  /** The numbers of `numbers` in [lo, hi), in increasing order. */
  function Ascending(numbers: set<int>, lo: int, hi: int): (s: seq<int>)
    decreases hi - lo
  {
    if lo >= hi then []
    else (if lo in numbers then [lo] else []) + Ascending(numbers, lo + 1, hi)
  }

  lemma {:induction false} AscendingSpec(numbers: set<int>, lo: int, hi: int)
    ensures forall n :: n in Ascending(numbers, lo, hi) <==> lo <= n < hi && n in numbers
    ensures forall i, j :: 0 <= i < j < |Ascending(numbers, lo, hi)| ==>
      Ascending(numbers, lo, hi)[i] < Ascending(numbers, lo, hi)[j]
    decreases hi - lo
  {
    if lo < hi {
      AscendingSpec(numbers, lo + 1, hi);
      var rest := Ascending(numbers, lo + 1, hi);
      forall i | 0 <= i < |rest|
        ensures lo < rest[i]
      {
        assert rest[i] in rest;
      }
    }
  }

  lemma {:induction false} AscendingSplit(numbers: set<int>, lo: int, mid: int, hi: int)
    requires lo <= mid <= hi
    ensures Ascending(numbers, lo, hi) == Ascending(numbers, lo, mid) + Ascending(numbers, mid, hi)
    decreases mid - lo
  {
    if lo < mid {
      AscendingSplit(numbers, lo + 1, mid, hi);
    }
  }

  /** The OR of `1 << (top - n)` over the numbers n of `numbers` in [lo, hi). */
  function Mask(numbers: set<int>, top: int, lo: int, hi: int): (m: nat)
    requires hi <= top + 1
    decreases hi - lo
  {
    if hi <= lo then 0
    else
      var m := Mask(numbers, top, lo, hi - 1);
      if hi - 1 in numbers then SetBit(m, top - (hi - 1)) else m
  }

  lemma {:induction false} MaskBits(numbers: set<int>, top: int, lo: int, hi: int, k: nat)
    requires hi <= top + 1
    ensures Bit(Mask(numbers, top, lo, hi), k) <==> lo <= top - k < hi && top - k in numbers
    decreases hi - lo
  {
    if hi <= lo {
      BitOfZero(k);
    } else {
      MaskBits(numbers, top, lo, hi - 1, k);
      BitOfSet(Mask(numbers, top, lo, hi - 1), top - (hi - 1), k);
    }
  }

  lemma {:induction false} MaskBound(numbers: set<int>, top: int, lo: int, hi: int)
    requires hi <= top + 1 && top - lo < 64
    ensures Mask(numbers, top, lo, hi) < Pow2(64)
    decreases hi - lo
  {
    if hi > lo {
      MaskBound(numbers, top, lo, hi - 1);
      SetBitBound(Mask(numbers, top, lo, hi - 1), top - (hi - 1), 64);
    }
  }

  predicate HasSecondary(numbers: set<int>) {
    exists n :: n in numbers && n > 64
  }

  function PrimaryWord(numbers: set<int>): nat
  {
    var m := Mask(numbers, 64, 2, 65);
    if HasSecondary(numbers) then SetBit(m, 63) else m
  }

  function SecondaryWord(numbers: set<int>): nat
  {
    Mask(numbers, 128, 65, 129)
  }

  function BitmapOctets(numbers: set<int>): (s: Octets)
    ensures |s| == if HasSecondary(numbers) then 16 else 8
  {
    ToBigEndian(PrimaryWord(numbers), 8)
    + if HasSecondary(numbers) then ToBigEndian(SecondaryWord(numbers), 8) else []
  }

  lemma WordBounds(numbers: set<int>)
    ensures PrimaryWord(numbers) < Pow2(64) && SecondaryWord(numbers) < Pow2(64)
    ensures Pow256(8) == Pow2(64)
  {
    Pow256IsPow2(8);
    MaskBound(numbers, 64, 2, 65);
    MaskBound(numbers, 128, 65, 129);
    SetBitBound(Mask(numbers, 64, 2, 65), 63, 64);
  }

  lemma PrimaryBits(numbers: set<int>, k: nat)
    ensures Bit(PrimaryWord(numbers), k) <==>
      (2 <= 64 - k <= 64 && 64 - k in numbers) || (k == 63 && HasSecondary(numbers))
  {
    MaskBits(numbers, 64, 2, 65, k);
    BitOfSet(Mask(numbers, 64, 2, 65), 63, k);
  }

  /** The bit of data element n in a word whose first element is `base + 1`: the base is 0 for the
      primary bitmap, whose DE1 is an indicator and not data, and 64 for the secondary. */
  predicate Announces(word: nat, base: nat, n: int)
    requires base < n <= base + 64
  {
    n != 1 && Bit(word, base + 64 - n)
  }

  /** The elements from `n` on that a word announces, most significant bit first. */
  function Listed(word: nat, base: nat, n: int): (s: seq<int>)
    requires base < n <= base + 65
    decreases base + 65 - n
  {
    if n == base + 65 then []
    else (if Announces(word, base, n) then [n] else []) + Listed(word, base, n + 1)
  }

  /** If a word announces the members of `numbers`, it lists them in increasing order. */
  lemma {:induction false} ListedIsAscending(word: nat, base: nat, n: int, numbers: set<int>)
    requires base < n <= base + 65
    requires forall k :: n <= k <= base + 64 ==> (Announces(word, base, k) <==> k in numbers)
    ensures Listed(word, base, n) == Ascending(numbers, n, base + 65)
    decreases base + 65 - n
  {
    if n < base + 65 {
      ListedIsAscending(word, base, n + 1, numbers);
    }
  }

  /** The members a word announces. */
  ghost function Members(word: nat, base: nat): (s: set<int>)
    ensures forall n :: base < n <= base + 64 ==> (n in s <==> Announces(word, base, n))
    ensures forall n :: n in s ==> base < n <= base + 64
  {
    set n: int | base < n <= base + 64 && Announces(word, base, n)
  }

  // ----- whole messages ----------------------------------------------------------------

  /** The conditions under which `encode` raises nothing. */
  predicate Encodable(specs: FieldSpecs, m: Message) {
    EncodeMti(m.mti).Ok? && FieldsEncodable(specs, m.fields)
  }

  function Body(specs: FieldSpecs, fields: map<int, FieldValue>, lo: int): (s: Octets)
    requires FieldsEncodable(specs, fields)
    decreases 129 - lo
  {
    if lo > 128 then []
    else (if lo in fields then EncodeField(specs[lo], fields[lo]).value else [])
         + Body(specs, fields, lo + 1)
  }

  /** `encode`, where it succeeds. */
  function Encode(specs: FieldSpecs, m: Message): (r: Option<Octets>)
  {
    if Encodable(specs, m) then
      Some(EncodeMti(m.mti).value + BitmapOctets(m.fields.Keys) + Body(specs, m.fields, 2))
    else None
  }

  /** The error `encode` raises for one element, if any. */
  function FieldFault(specs: FieldSpecs, n: int, value: FieldValue): (r: Option<CodecError>)
  {
    if !(2 <= n <= 128) then Some(FieldNumberOutOfRange(n))
    else if n !in specs then Some(NoFieldSpec(n))
    else match EncodeField(specs[n], value)
      case Ok(_) => None
      case Err(e) => Some(e)
  }

  datatype Header = Header(mti: string, numbers: seq<int>, width: nat)

  /** The MTI and bitmaps at the head of `raw`, and the numbers they announce. */
  function DecodeHeader(raw: Octets): (r: Result<Header, CodecError>)
    ensures r.Ok? ==> 12 <= r.value.width <= |raw|
  {
    if |raw| < 12 then Err(MessageTooShort)
    else
      var mti :- DecodeMti(raw[..4]);
      var primary := BigEndian(raw[4..12]);
      if !Bit(primary, 63) then Ok(Header(mti, Listed(primary, 0, 1), 12))
      else if |raw| < 20 then Err(SecondaryBitmapTruncated)
      else
        var secondary := BigEndian(raw[12..20]);
        Ok(Header(mti, Listed(primary, 0, 1) + Listed(secondary, 64, 65), 20))
  }

  datatype FieldsRead = FieldsRead(fields: map<int, FieldValue>, width: nat)

  function DecodeFields(specs: FieldSpecs, numbers: seq<int>, s: Octets): (r: Result<FieldsRead, CodecError>)
    requires ValidSpecs(specs)
    ensures r.Ok? ==> r.value.width <= |s|
    decreases |numbers|
  {
    if numbers == [] then Ok(FieldsRead(map[], 0))
    else if numbers[0] !in specs then Err(NoFieldSpec(numbers[0]))
    else
      assert SpecFor(specs[numbers[0]], numbers[0]);
      var first :- DecodeField(specs[numbers[0]], s);
      Then(numbers[0], first, DecodeFields(specs, numbers[1..], s[first.width..]))
  }

  /** Element `n`, read as `first`, ahead of what the later elements read as. */
  function Then(n: int, first: FieldRead, rest: Result<FieldsRead, CodecError>): (r: Result<FieldsRead, CodecError>)
  {
    var after :- rest;
    Ok(FieldsRead(map[n := first.value] + after.fields, first.width + after.width))
  }

  function Decode(specs: FieldSpecs, raw: Octets): (r: Result<Message, CodecError>)
    requires ValidSpecs(specs)
  {
    var header :- DecodeHeader(raw);
    var read :- DecodeFields(specs, header.numbers, raw[header.width..]);
    if header.width + read.width != |raw| then Err(TrailingBytes)
    else Ok(Message(header.mti, read.fields))
  }

  // ----- forward law -------------------------------------------------------------------

  function From(fields: map<int, FieldValue>, lo: int): map<int, FieldValue> {
    map n | n in fields && n >= lo :: fields[n]
  }

  /** Every value of `fields` has an encoding under the profile. */
  predicate FieldsEncodable(specs: FieldSpecs, fields: map<int, FieldValue>) {
    forall n :: n in fields ==> 2 <= n <= 128 && n in specs && EncodeField(specs[n], fields[n]).Ok?
  }

  /** One turn of the decoding loop. */
  lemma DecodeFieldsCons(specs: FieldSpecs, n: int, later: seq<int>, s: Octets)
    requires ValidSpecs(specs)
    ensures n in specs ==> specs[n].Valid()
    ensures var all := DecodeFields(specs, [n] + later, s);
      if n !in specs then all == Err(NoFieldSpec(n))
      else if DecodeField(specs[n], s).Err? then all == Err(DecodeField(specs[n], s).error)
      else all == Then(n, DecodeField(specs[n], s).value,
                       DecodeFields(specs, later, s[DecodeField(specs[n], s).value.width..]))
  {
    hide DecodeField, FieldSpec.Valid;
    var numbers := [n] + later;
    assert numbers[0] == n && numbers[1..] == later;
    if n in specs {
      SpecForValid(specs, n);
    }
  }

  lemma EncodedFieldStep(specs: FieldSpecs, n: int, value: FieldValue, later: seq<int>, rest: Octets)
    requires ValidSpecs(specs) && n in specs && EncodeField(specs[n], value).Ok?
    requires DecodeFields(specs, later, rest).Ok?
    ensures var e := EncodeField(specs[n], value).value; var after := DecodeFields(specs, later, rest).value;
      DecodeFields(specs, [n] + later, e + rest)
      == Ok(FieldsRead(map[n := value] + after.fields, |e| + after.width))
  {
    hide EncodeField, DecodeField, DecodeFields, FieldSpec.Valid;
    var e := EncodeField(specs[n], value).value;
    DecodeFieldsCons(specs, n, later, e + rest);
    EncodedFieldDecodes(specs[n], value, rest);
    assert (e + rest)[|e|..] == rest;
  }

  lemma DecodeNone(specs: FieldSpecs)
    requires ValidSpecs(specs)
    ensures DecodeFields(specs, [], []) == Ok(FieldsRead(map[], 0))
  {
  }

  lemma {:induction false} EncodedBodyDecodes(specs: FieldSpecs, fields: map<int, FieldValue>, lo: int)
    requires ValidSpecs(specs) && FieldsEncodable(specs, fields) && lo <= 129
    ensures var body := Body(specs, fields, lo);
      DecodeFields(specs, Ascending(fields.Keys, lo, 129), body) == Ok(FieldsRead(From(fields, lo), |body|))
    decreases 129 - lo
  {
    hide EncodeField, DecodeFields;
    if lo > 128 {
      DecodeNone(specs);
      assert From(fields, lo) == map[];
    } else {
      EncodedBodyDecodes(specs, fields, lo + 1);
      if lo in fields {
        EncodedFieldStep(specs, lo, fields[lo], Ascending(fields.Keys, lo + 1, 129), Body(specs, fields, lo + 1));
        assert From(fields, lo) == map[lo := fields[lo]] + From(fields, lo + 1);
      } else {
        assert From(fields, lo) == From(fields, lo + 1);
        assert Ascending(fields.Keys, lo, 129) == Ascending(fields.Keys, lo + 1, 129);
        assert Body(specs, fields, lo) == Body(specs, fields, lo + 1);
      }
    }
  }

  lemma AscendingFromTwo(numbers: set<int>)
    requires 1 !in numbers
    ensures Ascending(numbers, 1, 65) == Ascending(numbers, 2, 65)
  {
  }

  lemma EncodedPrimaryLists(numbers: set<int>)
    requires forall n :: n in numbers ==> 2 <= n <= 128
    ensures Bit(PrimaryWord(numbers), 63) <==> HasSecondary(numbers)
    ensures Listed(PrimaryWord(numbers), 0, 1) == Ascending(numbers, 2, 65)
  {
    hide PrimaryWord, Bit, HasSecondary, Listed, Ascending;
    var primary := PrimaryWord(numbers);
    PrimaryBits(numbers, 63);
    forall n | 1 <= n <= 64
      ensures Announces(primary, 0, n) <==> n in numbers
    {
      PrimaryBits(numbers, 64 - n);
    }
    ListedIsAscending(primary, 0, 1, numbers);
    AscendingFromTwo(numbers);
  }

  lemma EncodedSecondaryLists(numbers: set<int>)
    requires forall n :: n in numbers ==> 2 <= n <= 128
    ensures Listed(SecondaryWord(numbers), 64, 65) == Ascending(numbers, 65, 129)
  {
    hide Bit, Mask, Listed, Ascending;
    forall n | 65 <= n <= 128
      ensures Announces(SecondaryWord(numbers), 64, n) <==> n in numbers
    {
      MaskBits(numbers, 128, 65, 129, 128 - n);
    }
    ListedIsAscending(SecondaryWord(numbers), 64, 65, numbers);
  }

  /** The words of an encoded bitmap announce exactly the encoded numbers, in increasing order. */
  lemma EncodedWordsList(numbers: set<int>)
    requires forall n :: n in numbers ==> 2 <= n <= 128
    ensures Bit(PrimaryWord(numbers), 63) <==> HasSecondary(numbers)
    ensures Listed(PrimaryWord(numbers), 0, 1)
            + (if HasSecondary(numbers) then Listed(SecondaryWord(numbers), 64, 65) else [])
            == Ascending(numbers, 2, 129)
  {
    hide PrimaryWord, SecondaryWord, Bit, Listed, Ascending;
    EncodedPrimaryLists(numbers);
    AscendingSplit(numbers, 2, 65, 129);
    if HasSecondary(numbers) {
      EncodedSecondaryLists(numbers);
    } else {
      NoneAbove(numbers, 65);
    }
  }

  lemma EncodedBitmapReads(numbers: set<int>, rest: Octets)
    ensures var raw := BitmapOctets(numbers) + rest;
      && BigEndian(raw[..8]) == PrimaryWord(numbers)
      && (HasSecondary(numbers) ==> BigEndian(raw[8..16]) == SecondaryWord(numbers))
  {
    var raw := BitmapOctets(numbers) + rest;
    WordBounds(numbers);
    assert raw[..8] == ToBigEndian(PrimaryWord(numbers), 8);
    BigEndianOfTo(PrimaryWord(numbers), 8);
    if HasSecondary(numbers) {
      assert raw[8..16] == ToBigEndian(SecondaryWord(numbers), 8);
      BigEndianOfTo(SecondaryWord(numbers), 8);
    }
  }

  lemma EncodedHeaderDecodes(mti: string, numbers: set<int>, rest: Octets)
    requires EncodeMti(mti).Ok?
    requires forall n :: n in numbers ==> 2 <= n <= 128
    ensures var head := EncodeMti(mti).value + BitmapOctets(numbers);
      DecodeHeader(head + rest) == Ok(Header(mti, Ascending(numbers, 2, 129), |head|))
  {
    hide PrimaryWord, SecondaryWord, Bit, Listed, Ascending, HasSecondary, BigEndian;
    var mtiOctets := EncodeMti(mti).value;
    var tail := BitmapOctets(numbers) + rest;
    var raw := mtiOctets + BitmapOctets(numbers) + rest;
    assert raw == mtiOctets + tail;
    assert raw[..4] == mtiOctets;
    assert raw[4..12] == tail[..8];
    EncodedBitmapReads(numbers, rest);
    EncodedWordsList(numbers);
    assert DecodeMti(mtiOctets) == Ok(mti);
    if HasSecondary(numbers) {
      assert raw[12..20] == tail[8..16];
    } else {
      assert Listed(PrimaryWord(numbers), 0, 1) + [] == Listed(PrimaryWord(numbers), 0, 1);
    }
  }

  lemma {:induction false} NoneAbove(numbers: set<int>, lo: int)
    requires forall n :: n in numbers ==> n < lo
    ensures Ascending(numbers, lo, 129) == []
    decreases 129 - lo
  {
    if lo < 129 {
      NoneAbove(numbers, lo + 1);
    }
  }

  lemma FieldsInRange(specs: FieldSpecs, fields: map<int, FieldValue>)
    requires FieldsEncodable(specs, fields)
    ensures forall n :: n in fields.Keys ==> 2 <= n <= 128
    ensures From(fields, 2) == fields
  {
  }

  /** Whatever `encode` accepts is read back unchanged, for every profile. */
  lemma DecodeOfEncode(specs: FieldSpecs, m: Message)
    requires ValidSpecs(specs) && Encode(specs, m).Some?
    ensures Decode(specs, Encode(specs, m).value) == Ok(m)
  {
    hide FieldsEncodable, DecodeFields, DecodeHeader, BitmapOctets, EncodeMti, Body;
    FieldsInRange(specs, m.fields);
    var raw := Encode(specs, m).value;
    var head := EncodeMti(m.mti).value + BitmapOctets(m.fields.Keys);
    var body := Body(specs, m.fields, 2);
    EncodedHeaderDecodes(m.mti, m.fields.Keys, body);
    assert raw == head + body && raw[|head|..] == body;
    EncodedBodyDecodes(specs, m.fields, 2);
  }

  // ----- reverse law -------------------------------------------------------------------

  lemma BodyCons(specs: FieldSpecs, lo: int, value: FieldValue, after: map<int, FieldValue>)
    requires 2 <= lo <= 128 && lo in specs && EncodeField(specs[lo], value).Ok?
    requires FieldsEncodable(specs, after) && forall n :: n in after ==> n > lo
    ensures var fields := map[lo := value] + after;
      FieldsEncodable(specs, fields)
      && Body(specs, fields, lo) == EncodeField(specs[lo], value).value + Body(specs, after, lo + 1)
  {
    hide EncodeField;
    BodyTail(specs, map[lo := value] + after, after, lo + 1);
  }

  /** The fields read for the elements of `keys` from `lo` on re-encode to the octets they took. */
  lemma {:induction false} DecodedBodyEncodes(specs: FieldSpecs, keys: set<int>, lo: int, s: Octets)
    requires ValidSpecs(specs) && 2 <= lo <= 129
    requires DecodeFields(specs, Ascending(keys, lo, 129), s).Ok?
    ensures var read := DecodeFields(specs, Ascending(keys, lo, 129), s).value;
      && (forall n :: n in read.fields <==> n in keys && lo <= n < 129)
      && FieldsEncodable(specs, read.fields)
      && Body(specs, read.fields, lo) == s[..read.width]
    decreases 129 - lo
  {
    hide EncodeField, DecodeField, DecodeFields, FieldSpec.Valid, FieldsEncodable;
    if lo > 128 {
      NothingDecoded(specs, s);
    } else if lo in keys {
      var later := Ascending(keys, lo + 1, 129);
      assert Ascending(keys, lo, 129) == [lo] + later;
      DecodeFieldsCons(specs, lo, later, s);
      var first := DecodeField(specs[lo], s).value;
      var rest := s[first.width..];
      DecodedFieldEncodes(specs[lo], s);
      DecodedBodyEncodes(specs, keys, lo + 1, rest);
      var after := DecodeFields(specs, later, rest).value;
      BodyCons(specs, lo, first.value, after.fields);
      assert s[..first.width + after.width] == s[..first.width] + rest[..after.width];
    } else {
      assert Ascending(keys, lo, 129) == Ascending(keys, lo + 1, 129);
      DecodedBodyEncodes(specs, keys, lo + 1, s);
      var fields := DecodeFields(specs, Ascending(keys, lo, 129), s).value.fields;
      assert Body(specs, fields, lo) == Body(specs, fields, lo + 1);
    }
  }

  lemma NothingDecoded(specs: FieldSpecs, s: Octets)
    requires ValidSpecs(specs)
    ensures DecodeFields(specs, [], s) == Ok(FieldsRead(map[], 0))
    ensures FieldsEncodable(specs, map[])
  {
  }

  lemma SpecForValid(specs: FieldSpecs, n: int)
    requires ValidSpecs(specs) && n in specs
    ensures specs[n].Valid()
  {
    assert SpecFor(specs[n], n);
  }

  /** The body from `lo` on depends only on the fields from `lo` on. */
  lemma {:induction false} BodyTail(specs: FieldSpecs, a: map<int, FieldValue>, b: map<int, FieldValue>, lo: int)
    requires FieldsEncodable(specs, a) && FieldsEncodable(specs, b)
    requires forall n :: n >= lo ==> (n in a <==> n in b) && (n in a ==> a[n] == b[n])
    ensures Body(specs, a, lo) == Body(specs, b, lo)
    decreases 129 - lo
  {
    if lo <= 128 {
      BodyTail(specs, a, b, lo + 1);
    }
  }

  /** The elements announced by a header, as a set. */
  ghost function Announced(raw: Octets): set<int>
    requires |raw| >= 12
  {
    var primary := BigEndian(raw[4..12]);
    Members(primary, 0)
    + if Bit(primary, 63) && |raw| >= 20 then Members(BigEndian(raw[12..20]), 64) else {}
  }

  lemma HeaderLists(raw: Octets)
    requires DecodeHeader(raw).Ok?
    ensures forall n :: n in Announced(raw) ==> 2 <= n <= 128
    ensures DecodeHeader(raw).value.numbers == Ascending(Announced(raw), 2, 129)
  {
    hide Bit, Listed, Ascending, BigEndian, Members;
    var primary := BigEndian(raw[4..12]);
    var keys := Announced(raw);
    forall n | 1 <= n <= 64
      ensures Announces(primary, 0, n) <==> n in keys
    {
    }
    ListedIsAscending(primary, 0, 1, keys);
    AscendingFromTwo(keys);
    AscendingSplit(keys, 2, 65, 129);
    if Bit(primary, 63) {
      var secondary := BigEndian(raw[12..20]);
      forall n | 65 <= n <= 128
        ensures Announces(secondary, 64, n) <==> n in keys
      {
      }
      ListedIsAscending(secondary, 64, 65, keys);
    } else {
      NoneAbove(keys, 65);
    }
  }

  lemma WordOfOctets(s: Octets)
    requires |s| == 8
    ensures BigEndian(s) < Pow2(64)
    ensures ToBigEndian(BigEndian(s), 8) == s
    ensures Bit(BigEndian(s), 63) <==> s[0] >= 128
  {
    BigEndianBound(s);
    Pow256IsPow2(8);
    ToOfBigEndian(s);
    TopBitOfOctets(s);
    TopBit(BigEndian(s), 63);
  }

  /** Data element n is announced by bit 64 - n of the first word. */
  lemma PrimaryAgrees(raw: Octets, k: nat)
    requires |raw| >= 12 && k < 63
    ensures Bit(PrimaryWord(Announced(raw)), k) == Bit(BigEndian(raw[4..12]), k)
  {
    hide PrimaryWord, BigEndian, Bit, Members;
    PrimaryBits(Announced(raw), k);
    assert Announces(BigEndian(raw[4..12]), 0, 64 - k) <==> 64 - k in Announced(raw);
  }

  lemma NonZeroSlice(raw: Octets)
    requires |raw| >= 20
    ensures BigEndian(raw[12..20]) != 0 <==> exists i :: 12 <= i < 20 && raw[i] != 0
  {
    var s := raw[12..20];
    ZeroOctets(s);
    assert forall i :: 0 <= i < 8 ==> s[i] == raw[12 + i];
    if i :| 12 <= i < 20 && raw[i] != 0 {
      assert s[i - 12] != 0;
    }
  }

  lemma SecondaryAgrees(raw: Octets)
    requires |raw| >= 20 && Bit(BigEndian(raw[4..12]), 63)
    ensures SecondaryWord(Announced(raw)) == BigEndian(raw[12..20])
    ensures HasSecondary(Announced(raw)) <==> exists i :: 12 <= i < 20 && raw[i] != 0
  {
    hide SecondaryWord, BigEndian, Bit, Members;
    var keys := Announced(raw);
    var secondary := BigEndian(raw[12..20]);
    WordOfOctets(raw[12..20]);
    WordBounds(keys);
    forall k: nat | k < 64
      ensures Bit(SecondaryWord(keys), k) == Bit(secondary, k)
      ensures Bit(secondary, k) == (128 - k in keys)
    {
      SecondaryBits(keys, k);
      assert Announces(secondary, 64, 128 - k) <==> 128 - k in keys;
    }
    BitsDetermine(SecondaryWord(keys), secondary, 64);
    NonZeroSlice(raw);
    if HasSecondary(keys) {
      var n :| n in keys && n > 64;
      assert Bit(secondary, 128 - n);
      BitOfZero(128 - n);
    } else {
      assert forall k: nat :: k < 64 ==> !Bit(secondary, k);
      ZeroHasNoBits(secondary, 64);
    }
  }

  lemma SecondaryBits(numbers: set<int>, k: nat)
    requires k < 64
    ensures Bit(SecondaryWord(numbers), k) <==> 128 - k in numbers
  {
    MaskBits(numbers, 128, 65, 129, k);
  }

  lemma BitmapReserialises(raw: Octets)
    requires DecodeHeader(raw).Ok?
    ensures raw[4] >= 128 ==> |raw| >= 20
    ensures var keys := Announced(raw);
      if raw[4] < 128 || exists i :: 12 <= i < 20 && raw[i] != 0
      then BitmapOctets(keys) == raw[4..DecodeHeader(raw).value.width]
      else BitmapOctets(keys) == [raw[4] - 128] + raw[5..12]
  {
    hide PrimaryWord, SecondaryWord, BigEndian, Bit, Members, HasSecondary, Listed;
    var keys := Announced(raw);
    var primary := BigEndian(raw[4..12]);
    WordOfOctets(raw[4..12]);
    WordBounds(keys);
    PrimaryBits(keys, 63);
    forall k: nat | k < 63
      ensures Bit(PrimaryWord(keys), k) == Bit(primary, k)
    {
      PrimaryAgrees(raw, k);
    }
    assert raw[4..12][0] == raw[4];
    if raw[4] >= 128 {
      SecondaryAgrees(raw);
      WordOfOctets(raw[12..20]);
    } else {
      NoSecondary(raw);
    }
    if HasSecondary(keys) || raw[4] < 128 {
      assert forall k: nat :: k < 64 ==> Bit(PrimaryWord(keys), k) == Bit(primary, k);
      BitsDetermine(PrimaryWord(keys), primary, 64);
      if raw[4] >= 128 {
        assert raw[4..20] == raw[4..12] + raw[12..20];
      }
    } else {
      ClearedPrimary(raw);
    }
  }

  lemma NoSecondary(raw: Octets)
    requires |raw| >= 12 && !Bit(BigEndian(raw[4..12]), 63)
    ensures !HasSecondary(Announced(raw))
  {
  }

  /** With DE1 set and no element above 64, the re-encoded primary bitmap has DE1 cleared. */
  lemma ClearedPrimary(raw: Octets)
    requires |raw| >= 12 && raw[4] >= 128 && !HasSecondary(Announced(raw))
    requires forall k: nat :: k < 63 ==> Bit(PrimaryWord(Announced(raw)), k) == Bit(BigEndian(raw[4..12]), k)
    ensures ToBigEndian(PrimaryWord(Announced(raw)), 8) == [raw[4] - 128] + raw[5..12]
  {
    hide PrimaryWord, BigEndian, Bit, Members, HasSecondary, Announced, ToBigEndian;
    var keys := Announced(raw);
    var word := PrimaryWord(keys);
    var s := raw[4..12];
    assert s[0] == raw[4] && s[1..] == raw[5..12];
    WordOfOctets(s);
    WordBounds(keys);
    PrimaryBits(keys, 63);
    forall k: nat | k < 64
      ensures Bit(SetBit(word, 63), k) == Bit(BigEndian(s), k)
    {
      BitOfSet(word, 63, k);
    }
    SetBitBound(word, 63, 64);
    BitsDetermine(SetBit(word, 63), BigEndian(s), 64);
    SetBitIsAdd(word, 63);
    ClearTop(s);
    var cleared: Octets := [raw[4] - 128] + raw[5..12];
    assert BigEndian(cleared) == word;
    WordOfOctets(cleared);
  }

  /** The parts of an accepted message: its header, and the encoding of the fields it announces. */
  lemma DecodedParts(specs: FieldSpecs, raw: Octets)
    requires ValidSpecs(specs) && Decode(specs, raw).Ok?
    ensures DecodeHeader(raw).Ok? && |raw| >= 12
    ensures var m := Decode(specs, raw).value; var header := DecodeHeader(raw).value;
      && m.mti == header.mti && m.fields.Keys == Announced(raw)
      && FieldsEncodable(specs, m.fields)
      && Body(specs, m.fields, 2) == raw[header.width..]
  {
    hide DecodeFields, DecodeHeader, Body, FieldsEncodable, Announced, Ascending;
    var header := DecodeHeader(raw).value;
    var keys := Announced(raw);
    var rest := raw[header.width..];
    HeaderLists(raw);
    DecodedBodyEncodes(specs, keys, 2, rest);
    var m := Decode(specs, raw).value;
    assert forall n :: n in m.fields <==> n in keys;
    assert m.fields.Keys == keys;
    assert rest[..|rest|] == rest;
  }

  /** Every accepted message re-encodes, and to the very octets it was read from exactly when DE1
      is clear or some secondary bitmap octet is not zero. Otherwise the encoder drops the empty
      secondary bitmap and its indicator. */
  lemma EncodeOfDecode(specs: FieldSpecs, raw: Octets)
    requires ValidSpecs(specs) && Decode(specs, raw).Ok?
    ensures |raw| >= 12 && (raw[4] >= 128 ==> |raw| >= 20)
    ensures var again := Encode(specs, Decode(specs, raw).value);
      && again.Some?
      && (again.value == raw <==> (raw[4] < 128 || exists i :: 12 <= i < 20 && raw[i] != 0))
      && (again.value != raw ==> again.value == raw[..4] + ([raw[4] - 128] + raw[5..12]) + raw[20..])
  {
    hide Decode, DecodeHeader, BitmapOctets, Body, FieldsEncodable, Announced, EncodeMti, DecodeMti;
    DecodedParts(specs, raw);
    HeaderParts(raw);
    var width := DecodeHeader(raw).value.width;
    BitmapReserialises(raw);
    MtiReserialises(raw[..4]);
    var again := Encode(specs, Decode(specs, raw).value).value;
    if raw[4] < 128 || exists i :: 12 <= i < 20 && raw[i] != 0 {
      assert again == raw[..4] + raw[4..width] + raw[width..];
      assert raw == raw[..4] + raw[4..width] + raw[width..];
    } else {
      assert again == raw[..4] + ([raw[4] - 128] + raw[5..12]) + raw[20..];
      assert |again| == |raw| - 8;
    }
  }

  lemma HeaderParts(raw: Octets)
    requires DecodeHeader(raw).Ok?
    ensures DecodeMti(raw[..4]) == Ok(DecodeHeader(raw).value.mti)
    ensures raw[4] >= 128 ==> |raw| >= 20
    ensures DecodeHeader(raw).value.width == if raw[4] >= 128 then 20 else 12
  {
    hide DecodeMti, BigEndian, Bit, Listed;
    assert raw[4..12][0] == raw[4];
    WordOfOctets(raw[4..12]);
  }

  lemma MtiReserialises(raw: Octets)
    requires DecodeMti(raw).Ok?
    ensures EncodeMti(DecodeMti(raw).value) == Ok(raw)
  {
    AsciiRoundTrip(raw);
  }

  /** The law fails for a message that announces an empty secondary bitmap. */
  lemma EmptySecondaryIsDropped(specs: FieldSpecs)
    requires ValidSpecs(specs)
    ensures var zeros: Octets := [0, 0, 0, 0, 0, 0, 0];
      var raw: Octets := [48, 56, 48, 48] + ([128] + zeros) + ([0] + zeros);
      && Decode(specs, raw) == Ok(Message("0800", map[]))
      && Encode(specs, Message("0800", map[])) != Some(raw)
  {
    hide DecodeFields, DecodeHeader, ToBigEndian, Mask;
    var zeros: Octets := [0, 0, 0, 0, 0, 0, 0];
    var first: Octets := [128] + zeros;
    var second: Octets := [0] + zeros;
    var raw: Octets := [48, 56, 48, 48] + first + second;
    EmptyHeader([48, 56, 48, 48], first, second);
    DecodeNone(specs);
    assert raw[20..] == [];
    var m := Message("0800", map[]);
    assert m.fields.Keys == {};
    NothingToEncode(specs);
    assert |EncodeMti(m.mti).value + BitmapOctets(m.fields.Keys) + Body(specs, m.fields, 2)| == 12;
  }

  lemma {:induction false} NothingToEncode(specs: FieldSpecs, lo: int := 2)
    ensures Body(specs, map[], lo) == []
    decreases 129 - lo
  {
    if lo <= 128 {
      NothingToEncode(specs, lo + 1);
    }
  }

  lemma EmptyHeader(mti: Octets, first: Octets, second: Octets)
    requires mti == [48, 56, 48, 48]
    requires first == [128, 0, 0, 0, 0, 0, 0, 0] && second == [0, 0, 0, 0, 0, 0, 0, 0]
    ensures DecodeHeader(mti + first + second) == Ok(Header("0800", [], 20))
  {
    hide BigEndian, Bit, Listed, DecodeMti;
    var raw := mti + first + second;
    Join(mti, first, second);
    EmptyWords(first, second);
    MtiOf0800(mti);
    assert Listed(BigEndian(first), 0, 1) + Listed(BigEndian(second), 64, 65) == [];
  }

  lemma Join(mti: Octets, first: Octets, second: Octets)
    requires |mti| == 4 && |first| == 8 && |second| == 8
    ensures var raw := mti + first + second;
      raw[..4] == mti && raw[4..12] == first && raw[12..20] == second && |raw| == 20
  {
  }

  lemma MtiOf0800(mti: Octets)
    requires mti == [48, 56, 48, 48]
    ensures DecodeMti(mti) == Ok("0800")
  {
    assert AsciiDecode(mti) == "0800";
  }

  lemma EmptyWords(first: Octets, second: Octets)
    requires first == [128, 0, 0, 0, 0, 0, 0, 0] && second == [0, 0, 0, 0, 0, 0, 0, 0]
    ensures Bit(BigEndian(first), 63)
    ensures Listed(BigEndian(first), 0, 1) == [] && Listed(BigEndian(second), 64, 65) == []
  {
    hide BigEndian, Bit, Listed, SetBit, ToBigEndian, Pow2;
    WordOfOctets(first);
    ZeroOctets(second);
    ClearTop(first);
    assert [first[0] - 128] + first[1..] == second;
    BitOfZero(63);
    SetBitIsAdd(0, 63);
    ListsNothing(BigEndian(first), 0);
    ListsNothing(0, 64);
  }

  lemma ListsNothing(word: nat, base: nat)
    requires word == 0 || (word == SetBit(0, 63) && base == 0)
    ensures Listed(word, base, base + 1) == []
  {
    hide Bit, Listed, SetBit;
    forall n | base < n <= base + 64
      ensures !Announces(word, base, n)
    {
      BitOfZero(base + 64 - n);
      BitOfSet(0, 63, base + 64 - n);
    }
    ListedIsAscending(word, base, base + 1, {});
    AscendingOfNone(base + 1, base + 65);
  }

  lemma {:induction false} AscendingOfNone(lo: int, hi: int)
    ensures Ascending({}, lo, hi) == []
    decreases hi - lo
  {
    if lo < hi {
      AscendingOfNone(lo + 1, hi);
    }
  }

  // ----- prefix freedom ----------------------------------------------------------------

  lemma FieldIgnoresSuffix(spec: FieldSpec, s: Octets, suffix: Octets)
    requires spec.Valid() && DecodeField(spec, s).Ok?
    ensures DecodeField(spec, s + suffix) == DecodeField(spec, s)
  {
    hide EncodeField;
    DecodedFieldEncodes(spec, s);
    var f := DecodeField(spec, s).value;
    EncodedFieldDecodes(spec, f.value, s[f.width..] + suffix);
    assert s[..f.width] + (s[f.width..] + suffix) == s + suffix;
  }

  lemma {:induction false} FieldsIgnoreSuffix(specs: FieldSpecs, numbers: seq<int>, s: Octets, suffix: Octets)
    requires ValidSpecs(specs) && DecodeFields(specs, numbers, s).Ok?
    ensures DecodeFields(specs, numbers, s + suffix) == DecodeFields(specs, numbers, s)
    decreases |numbers|
  {
    hide DecodeField, FieldSpec.Valid;
    if numbers != [] {
      var n := numbers[0];
      SpecForValid(specs, n);
      FieldIgnoresSuffix(specs[n], s, suffix);
      var width := DecodeField(specs[n], s).value.width;
      FieldsIgnoreSuffix(specs, numbers[1..], s[width..], suffix);
      assert (s + suffix)[width..] == s[width..] + suffix;
    }
  }

  lemma HeaderIgnoresSuffix(raw: Octets, suffix: Octets)
    requires DecodeHeader(raw).Ok?
    ensures DecodeHeader(raw + suffix) == DecodeHeader(raw)
  {
    hide DecodeMti, Bit, BigEndian, Listed;
    var long := raw + suffix;
    assert long[..4] == raw[..4] && long[4..12] == raw[4..12];
    if Bit(BigEndian(raw[4..12]), 63) {
      assert long[12..20] == raw[12..20];
    }
  }

  /** No accepted message is a proper prefix of another. */
  lemma PrefixFree(specs: FieldSpecs, raw: Octets, suffix: Octets)
    requires ValidSpecs(specs) && Decode(specs, raw).Ok? && Decode(specs, raw + suffix).Ok?
    ensures suffix == []
  {
    hide DecodeHeader, DecodeFields;
    HeaderIgnoresSuffix(raw, suffix);
    var header := DecodeHeader(raw).value;
    FieldsIgnoreSuffix(specs, header.numbers, raw[header.width..], suffix);
    assert (raw + suffix)[header.width..] == raw[header.width..] + suffix;
  }
}
