// The loops of `ISO8583Codec` (app/iso8583.py): updating dictionaries, masks and an offset step by
// step, they compute the reference functions of module Iso8583.
module Iso8583Codec {
  import opened Results
  import opened Bytes
  import opened Bits
  import opened Iso8583

  /** `_encode_bitmap`: the mapping is visited in any order, each number ORs in its bit. */
  method EncodeBitmap(numbers: set<int>) returns (bitmap: Octets)
    requires forall n :: n in numbers ==> 2 <= n <= 128
    ensures bitmap == BitmapOctets(numbers)
  {
    hide Bit, SetBit, Pow2, Mask, ToBigEndian;
    var primary: nat := 0;
    var secondary: nat := 0;
    ZeroWord();
    var hasSecondary := HasSecondary(numbers);
    if hasSecondary {
      OrInto(0, 63);
      primary := SetBit(primary, 63);
    }
    var left := numbers;
    while left != {}
      invariant left <= numbers
      invariant primary < Pow2(64) && secondary < Pow2(64)
      invariant forall k: nat :: k < 64 ==>
        (Bit(primary, k) <==> 64 - k in numbers - left || (k == 63 && hasSecondary))
      invariant forall k: nat :: k < 64 ==> (Bit(secondary, k) <==> 128 - k in numbers - left)
      decreases left
    {
      SomeMember(left);
      var number: int :| number in left;
      if number <= 64 {
        OrInto(primary, 64 - number);
        primary := SetBit(primary, 64 - number);
      } else {
        OrInto(secondary, 128 - number);
        secondary := SetBit(secondary, 128 - number);
      }
      left := left - {number};
    }
    assert numbers - left == numbers;
    WordsAreMasks(numbers, primary, secondary);
    bitmap := ToBigEndian(primary, 8) + if hasSecondary then ToBigEndian(secondary, 8) else [];
  }

  lemma SomeMember(s: set<int>)
    ensures s != {} ==> exists n :: n in s
  {
    if forall n :: n !in s {
      assert s == {};
    }
  }

  lemma ZeroWord()
    ensures 0 < Pow2(64) && forall k: nat :: !Bit(0, k)
  {
    forall k: nat
      ensures !Bit(0, k)
    {
      BitOfZero(k);
    }
  }

  lemma OrInto(word: nat, k: nat)
    requires word < Pow2(64) && k < 64
    ensures SetBit(word, k) < Pow2(64)
    ensures forall j: nat :: Bit(SetBit(word, k), j) <==> j == k || Bit(word, j)
  {
    SetBitBound(word, k, 64);
    forall j: nat
      ensures Bit(SetBit(word, k), j) <==> j == k || Bit(word, j)
    {
      BitOfSet(word, k, j);
    }
  }

  /** The words built in any order are the masks of the reference encoder. */
  lemma WordsAreMasks(numbers: set<int>, primary: nat, secondary: nat)
    requires forall n :: n in numbers ==> 2 <= n <= 128
    requires primary < Pow2(64) && secondary < Pow2(64)
    requires forall k: nat :: k < 64 ==>
      (Bit(primary, k) <==> 64 - k in numbers || (k == 63 && HasSecondary(numbers)))
    requires forall k: nat :: k < 64 ==> (Bit(secondary, k) <==> 128 - k in numbers)
    ensures primary == PrimaryWord(numbers) && secondary == SecondaryWord(numbers)
  {
    hide Bit, PrimaryWord, SecondaryWord;
    WordBounds(numbers);
    forall k: nat | k < 64
      ensures Bit(primary, k) == Bit(PrimaryWord(numbers), k)
      ensures Bit(secondary, k) == Bit(SecondaryWord(numbers), k)
    {
      PrimaryBits(numbers, k);
      SecondaryBits(numbers, k);
    }
    BitsDetermine(primary, PrimaryWord(numbers), 64);
    BitsDetermine(secondary, SecondaryWord(numbers), 64);
  }

  /** `_decode_field_numbers`: one pass over the bits of each word. */
  method DecodeFieldNumbers(primary: nat, secondaryRaw: Octets) returns (numbers: seq<int>)
    ensures numbers == Listed(primary, 0, 1)
      + if secondaryRaw != [] then Listed(BigEndian(secondaryRaw), 64, 65) else []
  {
    hide Bit, BigEndian, Listed;
    numbers := [];
    assert numbers + Listed(primary, 0, 1) == Listed(primary, 0, 1);
    for bit := 0 to 64
      invariant numbers + Listed(primary, 0, bit + 1) == Listed(primary, 0, 1)
    {
      ListedFrom(primary, 0, bit + 1, numbers);
      if Bit(primary, 63 - bit) {
        var number := bit + 1;
        if number != 1 {
          numbers := numbers + [number];
        }
      }
    }
    ListedEnd(primary, 0);
    assert numbers + [] == numbers;
    if secondaryRaw != [] {
      var secondary := BigEndian(secondaryRaw);
      ghost var before := numbers;
      for bit := 0 to 64
        invariant numbers + Listed(secondary, 64, bit + 65) == before + Listed(secondary, 64, 65)
      {
        ListedFrom(secondary, 64, bit + 65, numbers);
        if Bit(secondary, 63 - bit) {
          numbers := numbers + [bit + 65];
        }
      }
      ListedEnd(secondary, 64);
      assert numbers + [] == numbers;
    }
  }

  lemma ListedFrom(word: nat, base: nat, n: int, done: seq<int>)
    requires base < n <= base + 64
    ensures done + Listed(word, base, n)
      == (if n != 1 && Bit(word, base + 64 - n) then done + [n] else done) + Listed(word, base, n + 1)
  {
    hide Bit;
  }

  lemma ListedEnd(word: nat, base: nat)
    ensures Listed(word, base, base + 65) == []
  {
  }

  lemma BodyFrom(specs: FieldSpecs, fields: map<int, FieldValue>, n: int, done: Octets)
    requires FieldsEncodable(specs, fields) && n <= 128
    ensures done + Body(specs, fields, n)
      == (if n in fields then done + EncodeField(specs[n], fields[n]).value else done) + Body(specs, fields, n + 1)
  {
    hide EncodeField;
  }

  lemma BodyEnd(specs: FieldSpecs, fields: map<int, FieldValue>)
    requires FieldsEncodable(specs, fields)
    ensures Body(specs, fields, 129) == []
  {
  }

  /** An order in which the caller's mapping yields its elements. */
  ghost predicate Lists(order: seq<int>, numbers: set<int>) {
    && (forall i, j :: 0 <= i < j < |order| ==> order[i] != order[j])
    && (forall n :: n in numbers <==> n in order)
  }

  /** The fault of the first element, in the mapping's order, that has one. */
  function FirstFault(specs: FieldSpecs, fields: map<int, FieldValue>, order: seq<int>): (e: Option<CodecError>)
    requires forall i :: 0 <= i < |order| ==> order[i] in fields
  {
    if order == [] then None
    else
      var fault := FieldFault(specs, order[0], fields[order[0]]);
      if fault.Some? then fault else FirstFault(specs, fields, order[1..])
  }

  lemma {:induction false} FirstFaultAt(specs: FieldSpecs, fields: map<int, FieldValue>, order: seq<int>, i: nat)
    requires forall k :: 0 <= k < |order| ==> order[k] in fields
    requires i < |order| && FieldFault(specs, order[i], fields[order[i]]).Some?
    requires forall k :: 0 <= k < i ==> FieldFault(specs, order[k], fields[order[k]]).None?
    ensures FirstFault(specs, fields, order) == FieldFault(specs, order[i], fields[order[i]])
  {
    hide FieldFault;
    if i > 0 {
      assert forall k :: 0 < k < |order| ==> order[k] == order[1..][k - 1];
      FirstFaultAt(specs, fields, order[1..], i - 1);
    }
  }

  /** `ISO8583Codec.encode`: it accepts exactly the encodable messages, whatever the order of the
      caller's mapping; an MTI fault comes first, then the first element fault in that order. */
  method EncodeMessage(specs: FieldSpecs, m: Message, order: seq<int>) returns (r: Result<Octets, CodecError>)
    requires Lists(order, m.fields.Keys)
    ensures r.Ok? <==> Encode(specs, m).Some?
    ensures r.Ok? ==> Encode(specs, m) == Some(r.value)
    ensures r.Err? ==>
      if EncodeMti(m.mti).Err? then r.error == MtiNotFourDigits
      else FirstFault(specs, m.fields, order) == Some(r.error)
  {
    hide EncodeField, BitmapOctets, Body, FirstFault;
    var mti := EncodeMti(m.mti);
    if mti.Err? {
      return Err(mti.error);
    }
    var normalized: map<int, Octets> := map[];
    for i := 0 to |order|
      invariant forall n :: n in normalized <==> n in order[..i]
      invariant normalized.Keys <= m.fields.Keys
      invariant forall n :: n in normalized ==> FieldFault(specs, n, m.fields[n]) == None
      invariant forall n :: n in normalized ==> n in specs && Ok(normalized[n]) == EncodeField(specs[n], m.fields[n])
      invariant forall k :: 0 <= k < i ==> FieldFault(specs, order[k], m.fields[order[k]]) == None
    {
      var number := order[i];
      var value := m.fields[number];
      var fault := FieldFault(specs, number, value);
      if fault.Some? {
        FirstFaultAt(specs, m.fields, order, i);
        assert number in m.fields && fault != None;
      }
      if !(2 <= number <= 128) {
        return Err(FieldNumberOutOfRange(number));
      }
      if number !in specs {
        return Err(NoFieldSpec(number));
      }
      var encoded := EncodeField(specs[number], value);
      if encoded.Err? {
        return Err(encoded.error);
      }
      normalized := normalized[number := encoded.value];
    }
    assert order[..|order|] == order;
    assert forall n :: n in m.fields <==> n in normalized;
    assert normalized.Keys == m.fields.Keys;
    assert FieldsEncodable(specs, m.fields);
    var bitmap := EncodeBitmap(m.fields.Keys);
    var body: Octets := [];
    for number := 2 to 129
      invariant body + Body(specs, m.fields, number) == Body(specs, m.fields, 2)
    {
      BodyFrom(specs, m.fields, number, body);
      if number in normalized {
        body := body + normalized[number];
      }
    }
    BodyEnd(specs, m.fields);
    assert body + [] == body && [] + Body(specs, m.fields, 2) == Body(specs, m.fields, 2);
    r := Ok(mti.value + bitmap + body);
  }

  /** What the whole message decodes to once `fields` have been read in `width` octets. */
  ghost function Merged(fields: map<int, FieldValue>, width: nat, rest: Result<FieldsRead, CodecError>)
    : Result<FieldsRead, CodecError>
  {
    match rest
    case Ok(after) => Ok(FieldsRead(fields + after.fields, width + after.width))
    case Err(e) => Err(e)
  }

  lemma MergeStep(specs: FieldSpecs, fields: map<int, FieldValue>, width: nat, n: int, later: seq<int>, s: Octets)
    requires ValidSpecs(specs)
    ensures n in specs ==> specs[n].Valid()
    ensures var all := Merged(fields, width, DecodeFields(specs, [n] + later, s));
      if n !in specs then all == Err(NoFieldSpec(n))
      else if DecodeField(specs[n], s).Err? then all == Err(DecodeField(specs[n], s).error)
      else var f := DecodeField(specs[n], s).value;
        all == Merged(fields[n := f.value], width + f.width, DecodeFields(specs, later, s[f.width..]))
  {
    hide DecodeField, DecodeFields, FieldSpec.Valid;
    DecodeFieldsCons(specs, n, later, s);
    if n in specs && DecodeField(specs[n], s).Ok? {
      var f := DecodeField(specs[n], s).value;
      var rest := DecodeFields(specs, later, s[f.width..]);
      if rest.Ok? {
        assert fields + (map[n := f.value] + rest.value.fields) == fields[n := f.value] + rest.value.fields;
      }
    }
  }

  /** `ISO8583Codec.decode`. */
  method DecodeMessage(specs: FieldSpecs, raw: Octets) returns (r: Result<Message, CodecError>)
    requires ValidSpecs(specs)
    ensures r == Decode(specs, raw)
  {
    hide DecodeField, DecodeFields, FieldSpec.Valid, BigEndian, Listed, DecodeMti;
    if |raw| < 12 {
      return Err(MessageTooShort);
    }
    var mti := DecodeMti(raw[..4]);
    if mti.Err? {
      return Err(mti.error);
    }
    var primary := BigEndian(raw[4..12]);
    var hasSecondary := Bit(primary, 63);
    var bitmapEnd := if hasSecondary then 20 else 12;
    if |raw| < bitmapEnd {
      return Err(SecondaryBitmapTruncated);
    }
    var numbers := DecodeFieldNumbers(primary, if hasSecondary then raw[12..20] else []);
    if !hasSecondary {
      assert Listed(primary, 0, 1) + [] == Listed(primary, 0, 1);
    }
    assert DecodeHeader(raw) == Ok(Header(mti.value, numbers, bitmapEnd));
    ghost var whole := DecodeFields(specs, numbers, raw[bitmapEnd..]);
    var offset := bitmapEnd;
    var fields: map<int, FieldValue> := map[];
    MergeNone(whole);
    assert numbers[0..] == numbers;
    for i := 0 to |numbers|
      invariant bitmapEnd <= offset <= |raw|
      invariant whole == Merged(fields, offset - bitmapEnd, DecodeFields(specs, numbers[i..], raw[offset..]))
    {
      var number := numbers[i];
      assert numbers[i..] == [number] + numbers[i + 1..];
      MergeStep(specs, fields, offset - bitmapEnd, number, numbers[i + 1..], raw[offset..]);
      if number !in specs {
        return Err(NoFieldSpec(number));
      }
      var read := DecodeField(specs[number], raw[offset..]);
      if read.Err? {
        return Err(read.error);
      }
      assert raw[offset..][read.value.width..] == raw[offset + read.value.width..];
      fields := fields[number := read.value.value];
      offset := offset + read.value.width;
    }
    DecodedAll(specs, numbers, raw[offset..], fields, offset - bitmapEnd);
    if offset != |raw| {
      return Err(TrailingBytes);
    }
    r := Ok(Message(mti.value, fields));
  }

  lemma MergeNone(rest: Result<FieldsRead, CodecError>)
    ensures Merged(map[], 0, rest) == rest
  {
    if rest.Ok? {
      assert map[] + rest.value.fields == rest.value.fields;
    }
  }

  lemma DecodedAll(specs: FieldSpecs, numbers: seq<int>, s: Octets, fields: map<int, FieldValue>, width: nat)
    requires ValidSpecs(specs)
    ensures Merged(fields, width, DecodeFields(specs, numbers[|numbers|..], s)) == Ok(FieldsRead(fields, width))
  {
    assert numbers[|numbers|..] == [];
    assert fields + map[] == fields;
  }
}
