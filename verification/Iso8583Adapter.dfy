// The boundary between ISO 8583 messages and the canonical model (app/iso8583_adapter.py), under
// the default field profile, and the two end-to-end laws from canonical request to octets.
module Iso8583Adapter {
  import opened Results
  import opened Bytes
  import opened Canonical
  import opened Iso8583

  /** `DEFAULT_FIELD_SPECS`. */
  function DefaultSpecs(): FieldSpecs {
    map[
      2 := FieldSpec(2, Numeric, LlVar, 19, 1),
      3 := FieldSpec(3, Numeric, Fixed, 6, 0),
      4 := FieldSpec(4, Numeric, Fixed, 12, 0),
      7 := FieldSpec(7, Numeric, Fixed, 10, 0),
      11 := FieldSpec(11, Numeric, Fixed, 6, 0),
      12 := FieldSpec(12, Numeric, Fixed, 6, 0),
      13 := FieldSpec(13, Numeric, Fixed, 4, 0),
      37 := FieldSpec(37, Ans, Fixed, 12, 0),
      38 := FieldSpec(38, Ans, Fixed, 6, 0),
      39 := FieldSpec(39, Ans, Fixed, 2, 0),
      41 := FieldSpec(41, Ans, Fixed, 8, 0),
      42 := FieldSpec(42, Ans, Fixed, 15, 0),
      49 := FieldSpec(49, Numeric, Fixed, 3, 0),
      52 := FieldSpec(52, Binary, Fixed, 8, 0),
      55 := FieldSpec(55, Binary, LllVar, 999, 1),
      70 := FieldSpec(70, Numeric, Fixed, 3, 0)
    ]
  }

  lemma DefaultSpecsValid()
    ensures ValidSpecs(DefaultSpecs())
  {
  }

  /** One constructor per way a mapping can fail: a mapping error of the adapter, or a check of the
      canonical model that raises a plain `ValueError`. */
  datatype MappingError =
    | WrongMti
    | MissingField(number: int)
    | NotText(number: int)
    | UnsupportedProcessingCode
    | AmountNotPositive
    | UnsupportedNumericCurrency
    | IccNotBinary
    | InvalidInstrument
    | InvalidCorrelation
    | InvalidRequest
    | UnsupportedAlphaCurrency
    | AmountTooWide
    | TerminalIdWidth
    | MerchantIdWidth

  function AlphaCurrency(numeric: string): (r: Option<string>)
  {
    if numeric == "504" then Some("MAD")
    else if numeric == "840" then Some("USD")
    else if numeric == "978" then Some("EUR")
    else None
  }

  function NumericCurrency(alpha: string): (r: Option<string>)
  {
    if alpha == "MAD" then Some("504")
    else if alpha == "USD" then Some("840")
    else if alpha == "EUR" then Some("978")
    else None
  }

  function RequiredText(fields: map<int, FieldValue>, number: int): (r: Result<string, MappingError>)
  {
    if number !in fields then Err(MissingField(number))
    else if !fields[number].Text? then Err(NotText(number))
    else Ok(fields[number].text)
  }

  function CorrelationKey(m: Message): (r: Result<NetworkCorrelation, MappingError>)
    ensures r.Ok? ==> r.value.Valid()
  {
    var stan :- RequiredText(m.fields, 11);
    var rrn :- RequiredText(m.fields, 37);
    var key := NetworkCorrelation(stan, rrn);
    if key.Valid() then Ok(key) else Err(InvalidCorrelation)
  }

  function ResponseMti(mti: string): (r: Option<string>)
  {
    if mti == "0200" then Some("0210")
    else if mti == "0400" then Some("0410")
    else if mti == "0800" then Some("0810")
    else None
  }

  /** Whether a response has the expected MTI and the same STAN and RRN. */
  predicate CorrelatesResponse(request: Message, response: Message) {
    && ResponseMti(request.mti) == Some(response.mti)
    && CorrelationKey(request).Ok?
    && CorrelationKey(request) == CorrelationKey(response)
  }

  /** `int(amount_text)` is modelled on the digit strings every decoded message carries in DE4. */
  predicate DecimalAmount(m: Message) {
    4 in m.fields && m.fields[4].Text? ==> m.fields[4].text != "" && AllDigits(m.fields[4].text)
  }

  /** `authorization_from_iso8583`. */
  function FromMessage(m: Message): (r: Result<AuthorizationRequest, MappingError>)
    requires DecimalAmount(m)
    ensures r.Ok? ==> r.value.Valid()
  {
    if m.mti != "0200" then Err(WrongMti)
    else
      var processingCode :- RequiredText(m.fields, 3);
      if processingCode != "000000" then Err(UnsupportedProcessingCode)
      else
        var amountText :- RequiredText(m.fields, 4);
        var amount := DecimalValue(amountText);
        if amount <= 0 then Err(AmountNotPositive)
        else
          var numeric :- RequiredText(m.fields, 49);
          if AlphaCurrency(numeric).None? then Err(UnsupportedNumericCurrency)
          else if 55 in m.fields && !m.fields[55].Raw? then Err(IccNotBinary)
          else BuildRequest(m, amount, AlphaCurrency(numeric).value)
  }

  /** The constructor calls at the end of `authorization_from_iso8583`, in evaluation order. */
  function BuildRequest(m: Message, amount: nat, currency: string): (r: Result<AuthorizationRequest, MappingError>)
    requires 55 in m.fields ==> m.fields[55].Raw?
    ensures r.Ok? ==> r.value.Valid()
  {
    var merchantId :- RequiredText(m.fields, 42);
    var terminalId :- RequiredText(m.fields, 41);
    var pan :- RequiredText(m.fields, 2);
    var instrument := CardPaymentInstrument(pan, if 55 in m.fields then Some(m.fields[55].raw) else None);
    if !instrument.Valid() then Err(InvalidInstrument)
    else
      var correlation :- CorrelationKey(m);
      var request := AuthorizationRequest(amount, currency, merchantId, terminalId, instrument, correlation);
      if request.OwnFieldsValid() then Ok(request) else Err(InvalidRequest)
  }

  const MAX_AMOUNT := 999_999_999_999

  function MappedFields(r: AuthorizationRequest, numeric: string): (fields: map<int, FieldValue>)
    requires 0 <= r.amountMinor
  {
    map[
      2 := Text(r.instrument.pan),
      3 := Text("000000"),
      4 := Text(Decimal(r.amountMinor, 12)),
      11 := Text(r.correlation.stan),
      37 := Text(r.correlation.rrn),
      41 := Text(r.terminalId),
      42 := Text(r.merchantId),
      49 := Text(numeric)
    ] + match r.instrument.iccData
        case Some(icc) => map[55 := Raw(icc)]
        case None => map[]
  }

  /** `authorization_to_iso8583`. */
  function ToMessage(r: AuthorizationRequest): (m: Result<Message, MappingError>)
    requires r.Valid()
  {
    var numeric := NumericCurrency(r.currency);
    if numeric.None? then Err(UnsupportedAlphaCurrency)
    else if r.amountMinor > MAX_AMOUNT then Err(AmountTooWide)
    else if |r.terminalId| != 8 then Err(TerminalIdWidth)
    else if |r.merchantId| != 15 then Err(MerchantIdWidth)
    else Ok(Message("0200", MappedFields(r, numeric.value)))
  }

  /** The octets a canonical request is sent as, when the adapter and the codec accept it. */
  function ToOctets(r: AuthorizationRequest): (b: Option<Octets>)
    requires r.Valid()
  {
    match ToMessage(r)
    case Ok(m) => Encode(DefaultSpecs(), m)
    case Err(_) => None
  }

  /** The canonical requests that fit the widths and alphabets of the default profile. */
  predicate WithinProfile(r: AuthorizationRequest) {
    && NumericCurrency(r.currency).Some?
    && r.amountMinor <= MAX_AMOUNT
    && |r.terminalId| == 8 && IsPrintable(r.terminalId)
    && |r.merchantId| == 15 && IsPrintable(r.merchantId)
    && (r.instrument.iccData.Some? ==> |r.instrument.iccData.value| <= 999)
  }

  // ----- what the codec accepts in one text or binary field ----------------------------

  lemma TextOctets(value: FieldValue, lo: nat, hi: nat)
    requires hi < 128
    ensures value.Text? && IsAscii(value.text) ==>
      ((forall i :: 0 <= i < |value.text| ==> lo <= AsciiEncode(value.text)[i] <= hi)
       <==> (forall i :: 0 <= i < |value.text| ==> lo <= value.text[i] as int <= hi))
  {
    if value.Text? && IsAscii(value.text) {
      assert forall i :: 0 <= i < |value.text| ==> AsciiEncode(value.text)[i] == value.text[i] as int;
    }
  }

  /** A mapped request is accepted by the codec exactly when it fits the profile. */
  lemma ToOctetsExact(r: AuthorizationRequest)
    requires r.Valid()
    ensures ToOctets(r).Some? <==> WithinProfile(r)
  {
    hide EncodeField, Encode, BitmapOctets, Body;
    if ToMessage(r).Ok? {
      var m := ToMessage(r).value;
      MappedEncodable(r, NumericCurrency(r.currency).value);
      assert Encode(DefaultSpecs(), m).Some? <==> Encodable(DefaultSpecs(), m) by {
        EncodeIsPartial(m);
      }
    }
  }

  lemma EncodeIsPartial(m: Message)
    ensures Encode(DefaultSpecs(), m).Some? <==> Encodable(DefaultSpecs(), m)
  {
    hide Encodable, BitmapOctets, Body;
  }

  /** The elements a canonical request maps to: DE55 only when it carries ICC data. */
  const MAPPED_ELEMENTS: set<int> := {2, 3, 4, 11, 37, 41, 42, 49, 55}

  predicate DigitsText(value: FieldValue, width: nat) {
    value.Text? && |value.text| == width && AllDigits(value.text)
  }

  predicate PrintableText(value: FieldValue, width: nat) {
    value.Text? && |value.text| == width && IsPrintable(value.text)
  }

  /** What the default profile accepts in an element. */
  predicate ElementFits(n: int, value: FieldValue) {
    if n == 2 then value.Text? && 1 <= |value.text| <= 19 && AllDigits(value.text)
    else if n == 3 || n == 11 || n == 12 then DigitsText(value, 6)
    else if n == 4 then DigitsText(value, 12)
    else if n == 7 then DigitsText(value, 10)
    else if n == 13 then DigitsText(value, 4)
    else if n == 49 || n == 70 then DigitsText(value, 3)
    else if n == 37 then PrintableText(value, 12)
    else if n == 38 then PrintableText(value, 6)
    else if n == 39 then PrintableText(value, 2)
    else if n == 41 then PrintableText(value, 8)
    else if n == 42 then PrintableText(value, 15)
    else if n == 52 then value.Raw? && |value.raw| == 8
    else n == 55 && value.Raw? && 1 <= |value.raw| <= 999
  }

  /** The default profile knows sixteen elements, and takes in each exactly the values that fit. */
  lemma ElementFitsExact(n: int, value: FieldValue)
    ensures n in DefaultSpecs() <==> n in {2, 3, 4, 7, 11, 12, 13, 37, 38, 39, 41, 42, 49, 52, 55, 70}
    ensures n in DefaultSpecs() ==> (EncodeField(DefaultSpecs()[n], value).Ok? <==> ElementFits(n, value))
  {
    hide EncodeField;
    if n in DefaultSpecs() {
      TakesExactly(DefaultSpecs()[n], value);
    }
  }

  /** The values an entry takes, in terms of strings. */
  lemma TakesExactly(spec: FieldSpec, value: FieldValue)
    ensures EncodeField(spec, value).Ok? <==>
      && (match spec.dataType
          case Numeric => value.Text? && AllDigits(value.text)
          case Ans => value.Text? && IsPrintable(value.text)
          case Binary => value.Raw?)
      && var length := if value.Text? then |value.text| else |value.raw|;
      if spec.lengthType.Fixed? then length == spec.maxLength else spec.minLength <= length <= spec.maxLength
  {
    TextOctets(value, 48, 57);
    TextOctets(value, 0x20, 0x7E);
  }

  lemma MappedFieldsAt(r: AuthorizationRequest, numeric: string)
    requires 0 <= r.amountMinor
    ensures var f := MappedFields(r, numeric);
      && f.Keys == MAPPED_ELEMENTS - (if r.instrument.iccData.None? then {55} else {})
      && f[2] == Text(r.instrument.pan) && f[3] == Text("000000") && f[4] == Text(Decimal(r.amountMinor, 12))
      && f[11] == Text(r.correlation.stan) && f[37] == Text(r.correlation.rrn)
      && f[41] == Text(r.terminalId) && f[42] == Text(r.merchantId) && f[49] == Text(numeric)
      && (55 in f ==> f[55] == Raw(r.instrument.iccData.value))
  {
  }

  lemma MappedEncodable(r: AuthorizationRequest, numeric: string)
    requires r.Valid() && NumericCurrency(r.currency) == Some(numeric) && r.amountMinor <= MAX_AMOUNT
    requires |r.terminalId| == 8 && |r.merchantId| == 15
    ensures Encodable(DefaultSpecs(), Message("0200", MappedFields(r, numeric))) <==> WithinProfile(r)
  {
    hide EncodeField, DefaultSpecs, MappedFields, Decimal, ElementFits;
    var fields := MappedFields(r, numeric);
    var specs := DefaultSpecs();
    MappedFieldsAt(r, numeric);
    forall n | n in fields
      ensures n in specs && (EncodeField(specs[n], fields[n]).Ok? <==> ElementFits(n, fields[n]))
    {
      ElementFitsExact(n, fields[n]);
    }
    MappedFit(r, numeric);
    assert FieldsEncodable(specs, fields) <==> forall n :: n in fields ==> ElementFits(n, fields[n]);
  }

  lemma MappedFit(r: AuthorizationRequest, numeric: string)
    requires r.Valid() && NumericCurrency(r.currency) == Some(numeric) && r.amountMinor <= MAX_AMOUNT
    requires |r.terminalId| == 8 && |r.merchantId| == 15
    ensures var f := MappedFields(r, numeric);
      (forall n :: n in f ==> ElementFits(n, f[n])) <==> WithinProfile(r)
  {
    hide MappedFields, Decimal, IsPrintable, IsUpperAlpha;
    var f := MappedFields(r, numeric);
    MappedFieldsAt(r, numeric);
    if forall n :: n in f ==> ElementFits(n, f[n]) {
      assert ElementFits(41, f[41]) && ElementFits(42, f[42]);
      assert 55 in f ==> ElementFits(55, f[55]);
    }
  }

  // ----- canonical request to octets and back ------------------------------------------

  /** Mapping out and back in is the identity on every request the adapter accepts. */
  lemma FromOfTo(r: AuthorizationRequest)
    requires r.Valid() && ToMessage(r).Ok?
    ensures DecimalAmount(ToMessage(r).value)
    ensures FromMessage(ToMessage(r).value) == Ok(r)
  {
    hide MappedFields, Decimal, DecimalValue;
    var numeric := NumericCurrency(r.currency).value;
    MappedFieldsAt(r, numeric);
    AmountRoundTrip(r.amountMinor);
    var m := Message("0200", MappedFields(r, numeric));
    var icc := r.instrument.iccData;
    assert CorrelationKey(m) == Ok(r.correlation);
    assert BuildRequest(m, r.amountMinor, r.currency) == Ok(r) by {
      assert CardPaymentInstrument(r.instrument.pan, if 55 in m.fields then Some(m.fields[55].raw) else None)
          == r.instrument;
    }
  }

  lemma Pow10Twelve()
    ensures Pow10(12) == MAX_AMOUNT + 1
  {
    Pow10Small();
    assert Pow10(4) == 10_000 && Pow10(5) == 100_000 && Pow10(6) == 1_000_000;
    assert Pow10(7) == 10_000_000 && Pow10(8) == 100_000_000 && Pow10(9) == 1_000_000_000;
    assert Pow10(10) == 10_000_000_000 && Pow10(11) == 100_000_000_000;
  }

  lemma AmountRoundTrip(amount: nat)
    requires amount <= MAX_AMOUNT
    ensures DecimalValue(Decimal(amount, 12)) == amount
  {
    Pow10Twelve();
    ValueOfDecimal(amount, 12);
  }

  /** Every canonical request within the profile survives the wire. */
  lemma RequestRoundTrip(r: AuthorizationRequest)
    requires r.Valid() && WithinProfile(r)
    ensures ValidSpecs(DefaultSpecs()) && ToOctets(r).Some?
    ensures var decoded := Decode(DefaultSpecs(), ToOctets(r).value);
      decoded.Ok? && DecimalAmount(decoded.value) && FromMessage(decoded.value) == Ok(r)
  {
    hide Encode, Decode, FromMessage, DecimalAmount, DefaultSpecs;
    DefaultSpecsValid();
    ToOctetsExact(r);
    var m := ToMessage(r).value;
    DecodeOfEncode(DefaultSpecs(), m);
    FromOfTo(r);
  }

  // ----- octets to canonical request and back ------------------------------------------

  /** Under the default profile every element of a decoded message has its shape. */
  lemma DecodedElementsFit(raw: Octets)
    requires ValidSpecs(DefaultSpecs()) && Decode(DefaultSpecs(), raw).Ok?
    ensures var m := Decode(DefaultSpecs(), raw).value;
      && DecimalAmount(m)
      && forall n :: n in m.fields ==> ElementFits(n, m.fields[n])
  {
    hide Decode, DefaultSpecs, EncodeField, Body, ElementFits, DecimalAmount;
    DecodedParts(DefaultSpecs(), raw);
    var m := Decode(DefaultSpecs(), raw).value;
    forall n | n in m.fields
      ensures ElementFits(n, m.fields[n])
    {
      ElementFitsExact(n, m.fields[n]);
    }
    AmountIsDecimal(m);
  }

  lemma AmountIsDecimal(m: Message)
    requires 4 in m.fields ==> ElementFits(4, m.fields[4])
    ensures DecimalAmount(m)
  {
  }


  function Restrict(fields: map<int, FieldValue>): (f: map<int, FieldValue>)
  {
    map n | n in fields && n in MAPPED_ELEMENTS :: fields[n]
  }

  /** A message that maps to a canonical request maps back to its mapped elements, unchanged. */
  lemma ToOfFrom(m: Message)
    requires forall n :: n in m.fields && n in MAPPED_ELEMENTS ==> ElementFits(n, m.fields[n])
    requires DecimalAmount(m) && FromMessage(m).Ok?
    ensures ToMessage(FromMessage(m).value) == Ok(Message(m.mti, Restrict(m.fields)))
  {
    hide Decimal, DecimalValue, MappedFields;
    var r := FromMessage(m).value;
    var numeric := m.fields[49].text;
    assert ElementFits(4, m.fields[4]) && ElementFits(41, m.fields[41]) && ElementFits(42, m.fields[42]);
    AmountText(m.fields[4].text);
    CurrencyInverse(numeric);
    MappedFieldsAt(r, numeric);
    RequestParts(m);
    assert MappedFields(r, numeric) == Restrict(m.fields);
  }

  lemma AmountText(text: string)
    requires |text| == 12 && AllDigits(text)
    ensures DecimalValue(text) <= MAX_AMOUNT && Decimal(DecimalValue(text), 12) == text
  {
    DecimalOfValue(text);
    DecimalBound(text);
    Pow10Twelve();
  }

  lemma CurrencyInverse(numeric: string)
    requires AlphaCurrency(numeric).Some?
    ensures NumericCurrency(AlphaCurrency(numeric).value) == Some(numeric)
  {
  }

  lemma RequestParts(m: Message)
    requires DecimalAmount(m) && FromMessage(m).Ok?
    ensures m.mti == "0200" && {2, 3, 4, 11, 37, 41, 42, 49} <= m.fields.Keys
    ensures var r := FromMessage(m).value; var f := m.fields;
      && f[2] == Text(r.instrument.pan) && f[3] == Text("000000")
      && f[11] == Text(r.correlation.stan) && f[37] == Text(r.correlation.rrn)
      && f[41] == Text(r.terminalId) && f[42] == Text(r.merchantId)
      && f[4].Text? && f[4].text != "" && AllDigits(f[4].text) && r.amountMinor == DecimalValue(f[4].text)
      && f[49].Text? && AlphaCurrency(f[49].text) == Some(r.currency)
      && (55 in f ==> f[55].Raw?)
      && r.instrument.iccData == if 55 in f then Some(f[55].raw) else None
  {
    hide DecimalValue;
  }

  /** An accepted message that maps to a canonical request comes back from it octet for octet
      exactly when DE1 is clear and it carries no element outside the mapping. */
  lemma OctetsRoundTrip(raw: Octets)
    requires ValidSpecs(DefaultSpecs()) && Decode(DefaultSpecs(), raw).Ok?
    requires DecimalAmount(Decode(DefaultSpecs(), raw).value)
    requires FromMessage(Decode(DefaultSpecs(), raw).value).Ok?
    ensures |raw| >= 12
    ensures var m := Decode(DefaultSpecs(), raw).value;
      ToOctets(FromMessage(m).value) == Some(raw) <==> raw[4] < 128 && m.fields.Keys <= MAPPED_ELEMENTS
  {
    hide Decode, DefaultSpecs, FromMessage, DecimalAmount, ElementFits, Encode;
    var specs := DefaultSpecs();
    var m := Decode(specs, raw).value;
    var r := FromMessage(m).value;
    DecodedElementsFit(raw);
    ToOfFrom(m);
    EncodeOfDecode(specs, raw);
    var back := Message(m.mti, Restrict(m.fields));
    assert ToMessage(r) == Ok(back);
    if m.fields.Keys <= MAPPED_ELEMENTS {
      assert Restrict(m.fields) == m.fields;
      if raw[4] >= 128 {
        NoSecondaryElements(specs, raw);
      }
    } else if ToOctets(r) == Some(raw) {
      DecodeOfEncode(specs, back);
      assert false;
    }
  }

  /** An accepted message with DE1 set and no element above 64 has an empty secondary bitmap. */
  lemma NoSecondaryElements(specs: FieldSpecs, raw: Octets)
    requires ValidSpecs(specs) && Decode(specs, raw).Ok?
    requires forall n :: n in Decode(specs, raw).value.fields ==> n <= 64
    requires |raw| >= 12 && raw[4] >= 128
    ensures |raw| >= 20 && !exists i :: 12 <= i < 20 && raw[i] != 0
  {
    hide Decode, Body, FieldsEncodable, DecodeHeader, Announced;
    DecodedParts(specs, raw);
    HeaderParts(raw);
    assert raw[4..12][0] == raw[4];
    WordOfOctets(raw[4..12]);
    SecondaryAgrees(raw);
  }

  // ----- which messages and requests map, and why not ----------------------------------

  predicate HasText(m: Message, n: int) {
    n in m.fields && m.fields[n].Text?
  }

  /** The fault of a text element that cannot be read. */
  function TextFault(m: Message, n: int): MappingError {
    if n in m.fields then NotText(n) else MissingField(n)
  }

  /** A message maps to a canonical request exactly when it is an 0200 purchase of a positive amount in
      one of three currencies, with a PAN, a terminal, a merchant and trace references of their widths. */
  lemma MapsExactly(m: Message)
    requires DecimalAmount(m)
    ensures FromMessage(m).Ok? <==>
      && m.mti == "0200"
      && HasText(m, 2) && HasText(m, 3) && HasText(m, 4) && HasText(m, 11)
      && HasText(m, 37) && HasText(m, 41) && HasText(m, 42) && HasText(m, 49)
      && m.fields[3].text == "000000" && DecimalValue(m.fields[4].text) >= 1
      && m.fields[49].text in {"504", "840", "978"}
      && (55 in m.fields ==> m.fields[55].Raw? && |m.fields[55].raw| > 0)
      && 11 < |m.fields[2].text| < 20 && CodesWithin(m.fields[2].text, 48, 57)
      && |m.fields[11].text| == 6 && CodesWithin(m.fields[11].text, 48, 57)
      && |m.fields[37].text| == 12 && CodesWithin(m.fields[37].text, 32, 126)
      && |m.fields[41].text| > 0 && |m.fields[42].text| > 0
  {
    hide DecimalValue;
  }

  /** The fault of a message that does not map: the checks in the order they are made. */
  lemma MappingFaults(m: Message)
    requires DecimalAmount(m) && FromMessage(m).Err?
    ensures FromMessage(m).error ==
      if m.mti != "0200" then WrongMti
      else if !HasText(m, 3) then TextFault(m, 3)
      else if m.fields[3].text != "000000" then UnsupportedProcessingCode
      else if !HasText(m, 4) then TextFault(m, 4)
      else if DecimalValue(m.fields[4].text) == 0 then AmountNotPositive
      else if !HasText(m, 49) then TextFault(m, 49)
      else if m.fields[49].text !in {"504", "840", "978"} then UnsupportedNumericCurrency
      else if 55 in m.fields && m.fields[55].Text? then IccNotBinary
      else if !HasText(m, 42) then TextFault(m, 42)
      else if !HasText(m, 41) then TextFault(m, 41)
      else if !HasText(m, 2) then TextFault(m, 2)
      else if !CardPaymentInstrument(m.fields[2].text, if 55 in m.fields then Some(m.fields[55].raw) else None).Valid()
        then InvalidInstrument
      else if !HasText(m, 11) then TextFault(m, 11)
      else if !HasText(m, 37) then TextFault(m, 37)
      else if !NetworkCorrelation(m.fields[11].text, m.fields[37].text).Valid() then InvalidCorrelation
      else InvalidRequest
  {
    hide DecimalValue;
  }

  /** A canonical request is refused for its currency, then its amount, then its terminal, then its
      merchant; otherwise it maps. */
  lemma RequestFaults(r: AuthorizationRequest)
    requires r.Valid()
    ensures ToMessage(r).Ok? || ToMessage(r).error ==
      if r.currency !in {"MAD", "USD", "EUR"} then UnsupportedAlphaCurrency
      else if r.amountMinor >= 1_000_000_000_000 then AmountTooWide
      else if |r.terminalId| != 8 then TerminalIdWidth
      else MerchantIdWidth
    ensures ToMessage(r).Ok? <==>
      && r.currency in {"MAD", "USD", "EUR"} && r.amountMinor < 1_000_000_000_000
      && |r.terminalId| == 8 && |r.merchantId| == 15
  {
    hide MappedFields;
  }

  /** The currencies pair up as ISO 4217 numbers and names. */
  lemma Currencies(alpha: string, numeric: string)
    ensures NumericCurrency(alpha) == Some(numeric) <==>
      (alpha, numeric) in {("MAD", "504"), ("USD", "840"), ("EUR", "978")}
    ensures AlphaCurrency(numeric) == Some(alpha) <==>
      (alpha, numeric) in {("MAD", "504"), ("USD", "840"), ("EUR", "978")}
  {
  }

  // ----- which response answers which request ------------------------------------------

  /** The response to a request of the network: its MTI is the request's with the third digit raised by
      one, and its trace references are the request's. */
  predicate Answers(request: Message, response: Message) {
    && (request.mti, response.mti) in {("0200", "0210"), ("0400", "0410"), ("0800", "0810")}
    && HasText(request, 11) && HasText(response, 11) && request.fields[11].text == response.fields[11].text
    && HasText(request, 37) && HasText(response, 37) && request.fields[37].text == response.fields[37].text
  }

  lemma CorrelatesExactly(request: Message, response: Message)
    requires CorrelationKey(response).Ok?
    ensures CorrelatesResponse(request, response) <==> Answers(request, response)
  {
  }

  /** The key of a message is its STAN and its retrieval reference. */
  lemma KeyExactly(m: Message)
    ensures CorrelationKey(m).Ok? <==>
      && HasText(m, 11) && |m.fields[11].text| == 6 && CodesWithin(m.fields[11].text, 48, 57)
      && HasText(m, 37) && |m.fields[37].text| == 12 && CodesWithin(m.fields[37].text, 32, 126)
    ensures CorrelationKey(m).Ok? ==>
      CorrelationKey(m).value == NetworkCorrelation(m.fields[11].text, m.fields[37].text)
  {
  }
}
