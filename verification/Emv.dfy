// The strict EMV BER-TLV parser (app/emv.py): reference functions on suffixes, the encoder they
// invert, and the offset-threading loops of the source proved against the reference functions.
module Emv {
  import opened Results
  import opened Bytes
  import opened Strings

  const MAX_TAG_BYTES := 4
  const MAX_LENGTH_BYTES := 3
  const MAX_NESTING_DEPTH := 8

  /** One constructor per place where the source raises `EMVTLVError`. */
  datatype TlvError =
    | EmptyPayload
    | TrailingBytes
    | NestingTooDeep
    | ValueTruncated
    | EmptyConstructed
    | ConstructedTrailingBytes
    | TagTruncated
    | PaddingByte
    | MultiByteTagTruncated
    | TagTooWide
    | NonCanonicalTag
    | LengthTruncated
    | IndefiniteLength
    | LengthTooWide
    | LongLengthTruncated
    | LeadingZeroLength
    | NonCanonicalLength

  /** A parsed item; the tag is kept as upper-case hexadecimal text. */
  datatype BerTlv = BerTlv(tag: string, value: Octets, constructed: bool, children: seq<BerTlv>)

  // ----- hexadecimal tags --------------------------------------------------------------

  function HexDigit(n: nat): (c: char)
    requires n < 16
  {
    if n < 10 then ('0' as int + n) as char else ('A' as int + n - 10) as char
  }

  function HexValue(c: char): (n: nat)
    ensures n < 16
  {
    if '0' <= c <= '9' then c as int - '0' as int
    else if 'A' <= c <= 'F' then c as int - 'A' as int + 10
    else 0
  }

  /** `bytes.hex().upper()`. */
  function Hex(b: Octets): (s: string)
    ensures |s| == 2 * |b|
  {
    if b == [] then "" else [HexDigit(b[0] / 16), HexDigit(b[0] % 16)] + Hex(b[1..])
  }

  function Unhex(s: string): Octets
  {
    if |s| < 2 then [] else [HexValue(s[0]) * 16 + HexValue(s[1])] + Unhex(s[2..])
  }

  lemma {:induction false} UnhexOfHex(b: Octets)
    ensures Unhex(Hex(b)) == b
  {
    if b != [] {
      assert Hex(b)[2..] == Hex(b[1..]);
      UnhexOfHex(b[1..]);
    }
  }

  // ----- identifier octets -------------------------------------------------------------

  /** The total width of the tag, given that its first `width` octets have been accepted. */
  function ContinueTag(s: Octets, width: nat): (r: Result<nat, TlvError>)
    requires 1 <= width
    ensures r.Ok? ==> width < r.value <= |s|
    decreases |s| - width
  {
    if width >= |s| then Err(MultiByteTagTruncated)
    else if width >= MAX_TAG_BYTES then Err(TagTooWide)
    else if width == 1 && s[1] % 128 == 0 then Err(NonCanonicalTag)
    else if s[width] < 128 then Ok(width + 1)
    else ContinueTag(s, width + 1)
  }

  /** The width of the tag at the head of `s`. */
  function TagWidth(s: Octets): (r: Result<nat, TlvError>)
    ensures r.Ok? ==> 1 <= r.value <= |s|
  {
    if s == [] then Err(TagTruncated)
    else if s[0] == 0x00 || s[0] == 0xFF then Err(PaddingByte)
    else if s[0] % 32 == 31 then ContinueTag(s, 1)
    else Ok(1)
  }

  /** Bit 6 of the first identifier octet: the `first & 0x20` of the source. */
  predicate IsConstructed(first: Byte) {
    first / 32 % 2 == 1
  }

  /** The identifier octets the profile allows: at most four, minimal, no padding octet. */
  predicate CanonicalTag(t: Octets) {
    && 1 <= |t| <= MAX_TAG_BYTES
    && t[0] != 0x00 && t[0] != 0xFF
    && if t[0] % 32 != 31 then |t| == 1
       else
         && |t| >= 2
         && t[1] % 128 != 0
         && (forall i :: 1 <= i < |t| - 1 ==> t[i] >= 128)
         && t[|t| - 1] < 128
  }

  lemma {:induction false} ContinueTagExact(s: Octets, width: nat, w: nat)
    requires 1 <= width <= MAX_TAG_BYTES && width <= |s|
    requires forall i :: 1 <= i < width ==> s[i] >= 128
    requires width >= 2 ==> s[1] % 128 != 0
    ensures ContinueTag(s, width) == Ok(w) <==>
      && width < w <= |s| && w <= MAX_TAG_BYTES && s[1] % 128 != 0
      && (forall i :: 1 <= i < w - 1 ==> s[i] >= 128) && s[w - 1] < 128
    decreases |s| - width
  {
    if width < |s| && width < MAX_TAG_BYTES && !(width == 1 && s[1] % 128 == 0) && s[width] >= 128 {
      ContinueTagExact(s, width + 1, w);
    }
  }

  /** `TagWidth` accepts exactly the canonical tags, and a tag is never a prefix of another. */
  lemma TagWidthExact(s: Octets, w: nat)
    ensures TagWidth(s) == Ok(w) <==> w <= |s| && CanonicalTag(s[..w])
  {
    if s != [] && s[0] % 32 == 31 {
      ContinueTagExact(s, 1, w);
      if w <= |s| {
        assert forall i :: 0 <= i < w ==> s[..w][i] == s[i];
      }
    }
  }

  // ----- length octets -----------------------------------------------------------------

  datatype LengthField = LengthField(length: nat, width: nat)

  /** The length at the head of `s` and the number of octets it took. */
  function ReadLength(s: Octets): (r: Result<LengthField, TlvError>)
    ensures r.Ok? ==> 1 <= r.value.width <= |s|
  {
    if s == [] then Err(LengthTruncated)
    else if s[0] < 0x80 then Ok(LengthField(s[0], 1))
    else if s[0] == 0x80 then Err(IndefiniteLength)
    else
      var width := s[0] - 0x80;
      if width > MAX_LENGTH_BYTES then Err(LengthTooWide)
      else if 1 + width > |s| then Err(LongLengthTruncated)
      else if s[1] == 0 then Err(LeadingZeroLength)
      else
        var length := BigEndian(s[1..1 + width]);
        if length < 0x80 then Err(NonCanonicalLength) else Ok(LengthField(length, 1 + width))
  }

  /** The minimal definite form of a length (section 10.1 of ITU-T X.690), below 2^24. */
  function EncodeLength(n: nat): (s: Octets)
    requires n < 0x100_0000
  {
    if n < 0x80 then [n]
    else if n < 0x100 then [0x81, n]
    else if n < 0x1_0000 then [0x82, n / 256, n % 256]
    else [0x83, n / 65536, n / 256 % 256, n % 256]
  }

  lemma BigEndianSmall(s: Octets)
    ensures |s| == 1 ==> BigEndian(s) == s[0]
    ensures |s| == 2 ==> BigEndian(s) == 256 * (s[0] as int) + s[1]
    ensures |s| == 3 ==> BigEndian(s) == 65536 * (s[0] as int) + 256 * (s[1] as int) + s[2]
  {
    if |s| == 3 {
      BigEndianSmall(s[..2]);
    } else if |s| == 2 {
      BigEndianSmall(s[..1]);
    } else if |s| == 1 {
      assert s[..0] == [];
    }
  }

  lemma EncodedLengthHead(s: Octets, f: LengthField)
    requires f.length < 0x100_0000 && f.width <= |s| && s[..f.width] == EncodeLength(f.length)
    ensures ReadLength(s) == Ok(f)
  {
    hide BigEndian;
    var e := EncodeLength(f.length);
    assert |e| == f.width;
    assert forall i :: 0 <= i < |e| ==> s[i] == e[i];
    if |e| > 1 {
      BigEndianSmall(s[1..|e|]);
    }
  }

  lemma Digits256(n: nat, a: Byte, b: Byte, c: Byte)
    requires n == 65536 * (a as int) + 256 * (b as int) + c
    ensures n / 65536 == a && n / 256 % 256 == b && n % 256 == c
  {
    assert n / 256 == 256 * (a as int) + b;
  }

  lemma ReadLengthIsMinimal(s: Octets, f: LengthField)
    requires ReadLength(s) == Ok(f)
    ensures f.length < 0x100_0000 && s[..f.width] == EncodeLength(f.length)
  {
    hide BigEndian;
    if f.width > 1 {
      BigEndianSmall(s[1..f.width]);
    }
    if f.width == 3 {
      Digits256(f.length, 0, s[1], s[2]);
    } else if f.width == 4 {
      Digits256(f.length, s[1], s[2], s[3]);
    }
    assert |EncodeLength(f.length)| == f.width;
    assert forall i :: 0 <= i < f.width ==> s[i] == EncodeLength(f.length)[i];
  }

  /** `ReadLength` accepts exactly the minimal encodings of the lengths below 2^24. */
  lemma ReadLengthExact(s: Octets, f: LengthField)
    ensures ReadLength(s) == Ok(f) <==>
      f.length < 0x100_0000 && f.width <= |s| && s[..f.width] == EncodeLength(f.length)
  {
    if ReadLength(s) == Ok(f) {
      ReadLengthIsMinimal(s, f);
    }
    if f.length < 0x100_0000 && f.width <= |s| && s[..f.width] == EncodeLength(f.length) {
      EncodedLengthHead(s, f);
    }
  }

  /** The fault of a length that cannot be read, in the order of the checks. */
  lemma LengthFaults(s: Octets)
    requires ReadLength(s).Err?
    ensures ReadLength(s).error ==
      if |s| == 0 then LengthTruncated
      else if s[0] == 128 then IndefiniteLength
      else if s[0] > 131 then LengthTooWide
      else if |s| < s[0] as int - 127 then LongLengthTruncated
      else if s[1] == 0 then LeadingZeroLength
      else NonCanonicalLength
    ensures s == [] || s[0] >= 128
  {
  }

  // ----- items -------------------------------------------------------------------------

  /** The items of `s`, whose constructed items open level `depth + 1`. */
  function ParseItems(s: Octets, depth: nat): (r: Result<seq<BerTlv>, TlvError>)
    decreases |s|, 2
  {
    if depth > MAX_NESTING_DEPTH then Err(NestingTooDeep) else ParseRun(s, depth)
  }

  function ParseRun(s: Octets, depth: nat): (r: Result<seq<BerTlv>, TlvError>)
    decreases |s|, 1
  {
    if s == [] then Ok([])
    else
      var item :- ParseItem(s, depth);
      var rest :- ParseRun(s[item.width..], depth);
      Ok([item.tlv] + rest)
  }

  datatype ItemAt = ItemAt(tlv: BerTlv, width: nat)

  /** The first item of `s` and its total width. */
  function ParseItem(s: Octets, depth: nat): (r: Result<ItemAt, TlvError>)
    requires s != []
    ensures r.Ok? ==> 2 <= r.value.width <= |s|
    decreases |s|, 0
  {
    var w :- TagWidth(s);
    var field :- ReadLength(s[w..]);
    var start := w + field.width;
    if start + field.length > |s| then Err(ValueTruncated)
    else
      var value := s[start..start + field.length];
      var constructed := IsConstructed(s[0]);
      var children :-
        if !constructed then Ok([])
        else if value == [] then Err(EmptyConstructed)
        else ParseItems(value, depth + 1);
      Ok(ItemAt(BerTlv(Hex(s[..w]), value, constructed, children), start + field.length))
  }

  /** `parse_ber_tlv`. */
  function ParseBerTlv(payload: Octets): (r: Result<seq<BerTlv>, TlvError>)
  {
    if payload == [] then Err(EmptyPayload) else ParseItems(payload, 0)
  }

  // ----- the encoder the parser inverts ------------------------------------------------

  function EncodeItem(t: BerTlv): Octets
    requires |t.value| < 0x100_0000
  {
    Unhex(t.tag) + EncodeLength(|t.value|) + t.value
  }

  predicate LengthsFit(ts: seq<BerTlv>) {
    forall i :: 0 <= i < |ts| ==> |ts[i].value| < 0x100_0000
  }

  function EncodeForest(ts: seq<BerTlv>): Octets
    requires LengthsFit(ts)
  {
    if ts == [] then [] else EncodeItem(ts[0]) + EncodeForest(ts[1..])
  }

  /** An item that may stand at level `depth`: a canonical tag in upper-case hex, a length below
      2^24, and a constructed value that is the encoding of its well-formed children. */
  predicate WellFormed(t: BerTlv, depth: nat)
    decreases t, 0
  {
    && Hex(Unhex(t.tag)) == t.tag
    && CanonicalTag(Unhex(t.tag))
    && |t.value| < 0x100_0000
    && t.constructed == IsConstructed(Unhex(t.tag)[0])
    && if t.constructed then
         && t.value != []
         && depth < MAX_NESTING_DEPTH
         && WellFormedForest(t.children, depth + 1)
         && t.value == EncodeForest(t.children)
       else t.children == []
  }

  predicate WellFormedForest(ts: seq<BerTlv>, depth: nat)
    ensures WellFormedForest(ts, depth) ==> LengthsFit(ts)
    decreases ts, 1
  {
    if ts == [] then true
    else WellFormed(ts[0], depth) && WellFormedForest(ts[1..], depth)
  }

  // ----- cutting and joining octets ----------------------------------------------------

  lemma Cut(s: Octets, a: nat, b: nat, c: nat)
    requires a <= b <= c <= |s|
    ensures s[..c] == s[..a] + s[a..b] + s[b..c]
    ensures s[a..][..b - a] == s[a..b]
    ensures s == s[..c] + s[c..]
  {
  }

  lemma Join(tag: Octets, length: Octets, value: Octets, rest: Octets)
    ensures var s := tag + length + value + rest; var start := |tag| + |length|;
      && s[..|tag|] == tag
      && s[|tag|..][..|length|] == length
      && s[start..start + |value|] == value
      && s[start + |value|..] == rest
  {
    var s := tag + length + value + rest;
    assert s == tag + (length + (value + rest));
    assert s[|tag|..] == length + (value + rest);
  }

  // ----- the two inverse laws ----------------------------------------------------------

  /** Every accepted item re-encodes to exactly the octets it was read from. */
  lemma {:induction false} ParsedItemEncodes(s: Octets, depth: nat)
    requires s != [] && depth <= MAX_NESTING_DEPTH && ParseItem(s, depth).Ok?
    ensures var item := ParseItem(s, depth).value;
      WellFormed(item.tlv, depth) && EncodeItem(item.tlv) == s[..item.width]
    decreases |s|, 0
  {
    hide TagWidth, ReadLength, CanonicalTag, EncodeLength;
    var w := TagWidth(s).value;
    var field := ReadLength(s[w..]).value;
    var start := w + field.width;
    var item := ParseItem(s, depth).value;
    var t := item.tlv;
    TagWidthExact(s, w);
    ReadLengthExact(s[w..], field);
    UnhexOfHex(s[..w]);
    Cut(s, w, start, item.width);
    assert t.tag == Hex(s[..w]) && t.value == s[start..item.width];
    assert t.constructed == IsConstructed(s[..w][0]);
    if t.constructed {
      ParsedForestEncodes(t.value, depth + 1);
    }
  }

  lemma {:induction false} ParsedForestEncodes(s: Octets, depth: nat)
    requires ParseItems(s, depth).Ok?
    ensures depth <= MAX_NESTING_DEPTH
    ensures WellFormedForest(ParseItems(s, depth).value, depth)
    ensures EncodeForest(ParseItems(s, depth).value) == s
    decreases |s|, 1
  {
    hide ParseItem, WellFormed, EncodeItem;
    if s != [] {
      ParsedItemEncodes(s, depth);
      var item := ParseItem(s, depth).value;
      var rest := s[item.width..];
      ParsedForestEncodes(rest, depth);
      var tail := ParseItems(rest, depth).value;
      ForestCons(item.tlv, tail, depth);
      assert ParseItems(s, depth) == Ok([item.tlv] + tail);
      assert s == s[..item.width] + rest;
    }
  }

  lemma ForestCons(head: BerTlv, tail: seq<BerTlv>, depth: nat)
    requires WellFormed(head, depth) && WellFormedForest(tail, depth)
    ensures WellFormedForest([head] + tail, depth)
    ensures EncodeForest([head] + tail) == EncodeItem(head) + EncodeForest(tail)
  {
    hide WellFormed, EncodeItem;
    var all := [head] + tail;
    assert all[0] == head && all[1..] == tail;
    WellFormedFits(head, depth);
  }

  lemma WellFormedFits(t: BerTlv, depth: nat)
    requires WellFormed(t, depth)
    ensures |t.value| < 0x100_0000
  {
  }

  /** Every well-formed item is read back from its encoding, whatever follows it. */
  lemma {:induction false} EncodedItemParses(t: BerTlv, depth: nat, rest: Octets)
    requires WellFormed(t, depth)
    ensures ParseItem(EncodeItem(t) + rest, depth) == Ok(ItemAt(t, |EncodeItem(t)|))
    decreases t, 0
  {
    hide TagWidth, ReadLength, EncodeLength;
    var tag := Unhex(t.tag);
    var length := EncodeLength(|t.value|);
    var s := EncodeItem(t) + rest;
    Join(tag, length, t.value, rest);
    assert s == tag + length + t.value + rest;
    TagWidthExact(s, |tag|);
    ReadLengthExact(s[|tag|..], LengthField(|t.value|, |length|));
    if t.constructed {
      EncodedForestParses(t.children, depth + 1);
    }
  }

  lemma {:induction false} EncodedForestParses(ts: seq<BerTlv>, depth: nat)
    requires depth <= MAX_NESTING_DEPTH && WellFormedForest(ts, depth)
    ensures ParseItems(EncodeForest(ts), depth) == Ok(ts)
    decreases ts, 1
  {
    hide WellFormed, ParseItem;
    if ts != [] {
      WellFormedFits(ts[0], depth);
      var head := EncodeItem(ts[0]);
      var tail := EncodeForest(ts[1..]);
      EncodedItemParses(ts[0], depth, tail);
      EncodedForestParses(ts[1..], depth);
      assert (head + tail)[|head|..] == tail;
      assert head + tail != [] by {
        EncodedNonEmpty(ts[0], depth);
      }
      assert ts == [ts[0]] + ts[1..];
    }
  }

  lemma EncodedNonEmpty(t: BerTlv, depth: nat)
    requires WellFormed(t, depth)
    ensures |t.value| < 0x100_0000 && |EncodeItem(t)| >= 2 + |t.value|
  {
  }

  /** The parser accepts exactly the encodings of non-empty well-formed forests of at most nine
      levels, and returns the one forest each of them encodes. */
  lemma TlvBijection(payload: Octets, forest: seq<BerTlv>)
    ensures ParseBerTlv(payload) == Ok(forest) <==>
      forest != [] && WellFormedForest(forest, 0) && EncodeForest(forest) == payload
  {
    if payload != [] && ParseBerTlv(payload) == Ok(forest) {
      ParsedForestEncodes(payload, 0);
    }
    if forest != [] && WellFormedForest(forest, 0) && EncodeForest(forest) == payload {
      EncodedForestParses(forest, 0);
      var e := EncodeItem(forest[0]);
      assert |e| >= 1;
    }
  }

  // ----- the shape of what is accepted, in terms of its text ---------------------------

  /** Bit 6 of the first octet, read off the first hexadecimal digit of the tag. */
  predicate ConstructedTag(tag: string) {
    tag != "" && tag[0] in {'2', '3', '6', '7', 'A', 'B', 'E', 'F'}
  }

  lemma FirstNibble(first: Byte)
    ensures IsConstructed(first) <==> first as int / 16 in {2, 3, 6, 7, 10, 11, 14, 15}
  {
  }

  lemma FirstDigit(t: Octets)
    requires t != []
    ensures ConstructedTag(Hex(t)) <==> IsConstructed(t[0])
  {
  }

  /** How deep a forest is. */
  function Levels(ts: seq<BerTlv>): (n: nat)
    ensures n == 0 <==> ts == []
  {
    if ts == [] then 0
    else
      var first, rest := 1 + Levels(ts[0].children), Levels(ts[1..]);
      if first > rest then first else rest
  }

  /** A forest whose items are what their tags, lengths and values say, at any depth. */
  predicate Shaped(ts: seq<BerTlv>)
    ensures Shaped(ts) ==> LengthsFit(ts)
  {
    ts == [] || (
      var t := ts[0];
      && Shaped(ts[1..])
      && 2 <= |t.tag| <= 8 && Hex(Unhex(t.tag)) == t.tag && CanonicalTag(Unhex(t.tag))
      && |t.value| < 0x100_0000
      && t.constructed == ConstructedTag(t.tag)
      && Shaped(t.children)
      && (if t.constructed then t.value != [] && t.value == EncodeForest(t.children) else t.children == []))
  }

  lemma {:induction false} WellFormedExactly(ts: seq<BerTlv>, depth: nat)
    requires depth <= 8
    ensures WellFormedForest(ts, depth) <==> Shaped(ts) && (ts == [] || depth + Levels(ts) <= 9)
    decreases ts
  {
    if ts != [] {
      WellFormedExactly(ts[1..], depth);
      ItemWellFormedExactly(ts[0], depth);
    }
  }

  lemma {:induction false} ItemWellFormedExactly(t: BerTlv, depth: nat)
    requires depth <= 8
    ensures WellFormed(t, depth) <==> Shaped([t]) && depth + 1 + Levels(t.children) <= 9
    decreases t
  {
    assert [t][1..] == [];
    if Hex(Unhex(t.tag)) == t.tag && CanonicalTag(Unhex(t.tag)) {
      FirstDigit(Unhex(t.tag));
      assert EncodeForest([]) == [] && Shaped([]);
      if depth < 8 {
        WellFormedExactly(t.children, depth + 1);
        assert t.constructed && t.children == [] ==> !Shaped([t]) && !WellFormed(t, depth);
      } else {
        assert Shaped([t]) && t.children == [] ==> !t.constructed;
      }
    }
  }

  /** The parser accepts exactly the encodings of non-empty shaped forests of at most nine levels. */
  lemma TlvForestsExactly(payload: Octets, forest: seq<BerTlv>)
    ensures ParseBerTlv(payload) == Ok(forest) <==>
      forest != [] && Shaped(forest) && Levels(forest) <= 9 && EncodeForest(forest) == payload
  {
    hide ParseBerTlv, WellFormedForest, Shaped, EncodeForest;
    TlvBijection(payload, forest);
    WellFormedExactly(forest, 0);
  }

  /** In every accepted forest, at every level, an item is constructed exactly when its tag says so, its
      tag has one to four octets, and only a constructed item has children. */
  lemma {:induction false} ShapedItems(ts: seq<BerTlv>)
    requires Shaped(ts)
    ensures forall t :: t in PreOrder(ts) ==>
      2 <= |t.tag| <= 8 && (t.constructed <==> ConstructedTag(t.tag)) && (t.children != [] <==> t.constructed)
    decreases ts
  {
    if ts != [] {
      ShapedItems(ts[1..]);
      ShapedItems(ts[0].children);
      assert PreOrder(ts) == [ts[0]] + PreOrder(ts[0].children) + PreOrder(ts[1..]);
    }
  }

  lemma ParsedItemsShaped(payload: Octets)
    requires ParseBerTlv(payload).Ok?
    ensures forall t :: t in PreOrder(ParseBerTlv(payload).value) ==>
      2 <= |t.tag| <= 8 && (t.constructed <==> ConstructedTag(t.tag)) && (t.children != [] <==> t.constructed)
  {
    hide ParseBerTlv, Shaped, EncodeForest;
    TlvForestsExactly(payload, ParseBerTlv(payload).value);
    ShapedItems(ParseBerTlv(payload).value);
  }

  // ----- the loops of the source -------------------------------------------------------

  datatype TagRead = TagRead(tag: string, constructed: bool, offset: nat)

  datatype ItemsRead = ItemsRead(items: seq<BerTlv>, offset: nat)

  /** `_read_tag`: the loop that grows `tag_bytes` octet by octet. */
  method ReadTag(payload: Octets, offset: nat, limit: nat) returns (r: Result<TagRead, TlvError>)
    requires offset <= limit <= |payload|
    ensures var s := payload[offset..limit];
      r == match TagWidth(s)
           case Ok(w) => Ok(TagRead(Hex(s[..w]), IsConstructed(s[0]), offset + w))
           case Err(e) => Err(e)
    ensures r.Ok? ==>
      && |r.value.tag| == 2 * (r.value.offset - offset) <= 8
      && (r.value.constructed <==> payload[offset] as int / 16 in {2, 3, 6, 7, 10, 11, 14, 15})
  {
    hide IsConstructed;
    ghost var s := payload[offset..limit];
    if offset >= limit {
      return Err(TagTruncated);
    }
    var first := payload[offset];
    if first == 0x00 || first == 0xFF {
      return Err(PaddingByte);
    }
    var tagBytes: Octets := [first];
    var position := offset + 1;
    if first % 32 == 31 {
      var more := true;
      while more
        invariant offset < position <= limit
        invariant tagBytes == s[..position - offset] && |tagBytes| <= MAX_TAG_BYTES
        invariant more ==> ContinueTag(s, position - offset) == ContinueTag(s, 1)
        invariant !more ==> ContinueTag(s, 1) == Ok(position - offset)
        decreases limit - position, more
      {
        if position >= limit {
          return Err(MultiByteTagTruncated);
        }
        if |tagBytes| >= MAX_TAG_BYTES {
          return Err(TagTooWide);
        }
        var current := payload[position];
        if |tagBytes| == 1 && current % 128 == 0 {
          return Err(NonCanonicalTag);
        }
        tagBytes := tagBytes + [current];
        position := position + 1;
        more := current >= 128;
      }
    }
    FirstNibble(first);
    r := Ok(TagRead(Hex(tagBytes), IsConstructed(first), position));
  }

  /** What is known of a run once `done` items have been read off it. */
  function Prepend(done: seq<BerTlv>, rest: Result<seq<BerTlv>, TlvError>): Result<seq<BerTlv>, TlvError> {
    match rest
    case Ok(items) => Ok(done + items)
    case Err(e) => Err(e)
  }

  lemma PrependLaws(a: seq<BerTlv>, b: seq<BerTlv>, rest: Result<seq<BerTlv>, TlvError>)
    ensures Prepend([], rest) == rest
    ensures Prepend(a + b, rest) == Prepend(a, Prepend(b, rest))
  {
    if rest.Ok? {
      assert [] + rest.value == rest.value;
      assert a + b + rest.value == a + (b + rest.value);
    }
  }

  lemma SliceOfSlice(s: Octets, lo: nat, hi: nat, a: nat, b: nat)
    requires lo <= hi <= |s| && a <= b <= hi - lo
    ensures s[lo..hi][a..b] == s[lo + a..lo + b]
  {
    assert forall i :: 0 <= i < b - a ==> s[lo..hi][a..b][i] == s[lo + a..lo + b][i];
  }

  /** One turn of the loop: either its item fails, or it is appended to `done`. */
  lemma RunStep(done: seq<BerTlv>, payload: Octets, offset: nat, limit: nat, depth: nat)
    requires offset < limit <= |payload|
    ensures var run := Prepend(done, ParseRun(payload[offset..limit], depth));
      match ParseItem(payload[offset..limit], depth)
      case Err(e) => run == Err(e)
      case Ok(item) =>
        && offset + item.width <= limit
        && run == Prepend(done + [item.tlv], ParseRun(payload[offset + item.width..limit], depth))
  {
    var s := payload[offset..limit];
    var first := ParseItem(s, depth);
    if first.Ok? {
      SliceOfSlice(payload, offset, limit, first.value.width, limit - offset);
      PrependLaws(done, [first.value.tlv], ParseRun(s[first.value.width..], depth));
    }
  }

  /** The body of the loop of `_parse_items`: one tag, one length, one value, its children. */
  method ParseItemAt(payload: Octets, offset: nat, limit: nat, depth: nat)
    returns (r: Result<ItemAt, TlvError>)
    requires offset < limit <= |payload|
    ensures r == ParseItem(payload[offset..limit], depth)
    decreases limit - offset, 0
  {
    hide TagWidth, ReadLength;
    ghost var s := payload[offset..limit];
    var tagRead := ReadTag(payload, offset, limit);
    if tagRead.Err? {
      return Err(tagRead.error);
    }
    var valueAt := tagRead.value.offset;
    SliceOfSlice(payload, offset, limit, valueAt - offset, limit - offset);
    var lengthRead := ReadLength(payload[valueAt..limit]);
    if lengthRead.Err? {
      return Err(lengthRead.error);
    }
    valueAt := valueAt + lengthRead.value.width;
    var end := valueAt + lengthRead.value.length;
    if end > limit {
      return Err(ValueTruncated);
    }
    var value := payload[valueAt..end];
    SliceOfSlice(payload, offset, limit, valueAt - offset, end - offset);
    var children: seq<BerTlv> := [];
    if tagRead.value.constructed {
      if value == [] {
        return Err(EmptyConstructed);
      }
      assert value[0..|value|] == value;
      var inner := ParseItemsAt(value, 0, |value|, depth + 1);
      if inner.Err? {
        return Err(inner.error);
      }
      if inner.value.offset != |value| {
        return Err(ConstructedTrailingBytes);
      }
      children := inner.value.items;
    }
    r := Ok(ItemAt(BerTlv(tagRead.value.tag, value, tagRead.value.constructed, children), end - offset));
  }

  /** `_parse_items`. It always stops exactly at `limit`, so the trailing-octets test its callers
      make on the returned offset never fires. */
  method ParseItemsAt(payload: Octets, start: nat, limit: nat, depth: nat)
    returns (r: Result<ItemsRead, TlvError>)
    requires start <= limit <= |payload|
    ensures r == match ParseItems(payload[start..limit], depth)
                 case Ok(items) => Ok(ItemsRead(items, limit))
                 case Err(e) => Err(e)
    decreases limit - start, 1
  {
    hide ParseItem;
    if depth > MAX_NESTING_DEPTH {
      return Err(NestingTooDeep);
    }
    ghost var whole := ParseRun(payload[start..limit], depth);
    ghost var rest := whole;
    var items: seq<BerTlv> := [];
    var offset := start;
    PrependLaws([], [], whole);
    while offset < limit
      invariant start <= offset <= limit
      invariant rest == ParseRun(payload[offset..limit], depth) && whole == Prepend(items, rest)
    {
      RunStep(items, payload, offset, limit, depth);
      var item := ParseItemAt(payload, offset, limit, depth);
      if item.Err? {
        return Err(item.error);
      }
      rest := ParseRun(payload[offset + item.value.width..limit], depth);
      items := items + [item.value.tlv];
      offset := offset + item.value.width;
    }
    assert whole == Ok(items) by {
      assert payload[limit..limit] == [] && items + [] == items;
    }
    r := Ok(ItemsRead(items, offset));
  }

  /** `parse_ber_tlv`: the loops compute the reference parse, and never report trailing octets. */
  method Parse(payload: Octets) returns (r: Result<seq<BerTlv>, TlvError>)
    ensures r == ParseBerTlv(payload)
    ensures r != Err(TrailingBytes)
  {
    if payload == [] {
      return Err(EmptyPayload);
    }
    assert payload[0..|payload|] == payload;
    ParseNeverTrails(payload, 0);
    var read := ParseItemsAt(payload, 0, |payload|, 0);
    if read.Err? {
      return Err(read.error);
    }
    if read.value.offset != |payload| {
      return Err(TrailingBytes);
    }
    r := Ok(read.value.items);
  }

  lemma {:induction false} ParseNeverTrails(s: Octets, depth: nat)
    ensures ParseItems(s, depth) != Err(TrailingBytes)
    ensures ParseItems(s, depth) != Err(ConstructedTrailingBytes)
    decreases |s|
  {
    if s != [] && depth <= MAX_NESTING_DEPTH {
      var item := ParseItem(s, depth);
      TagWidthErrors(s, 1);
      if TagWidth(s).Ok? && ReadLength(s[TagWidth(s).value..]).Ok? {
        var field := ReadLength(s[TagWidth(s).value..]).value;
        var start := TagWidth(s).value + field.width;
        if start + field.length <= |s| {
          ParseNeverTrails(s[start..start + field.length], depth + 1);
        }
      }
      if item.Ok? {
        ParseNeverTrails(s[item.value.width..], depth);
      }
    }
  }

  lemma {:induction false} TagWidthErrors(s: Octets, width: nat)
    requires 1 <= width
    ensures ContinueTag(s, width) !in {Err(TrailingBytes), Err(ConstructedTrailingBytes)}
    decreases |s| - width
  {
    if width < |s| && width < MAX_TAG_BYTES {
      TagWidthErrors(s, width + 1);
    }
  }

  // ----- traversal ---------------------------------------------------------------------

  /** The items in document order, parents before children. */
  function PreOrder(ts: seq<BerTlv>): (r: seq<BerTlv>)
    decreases ts, 1
  {
    if ts == [] then [] else PreOrderOf(ts[0]) + PreOrder(ts[1..])
  }

  function PreOrderOf(t: BerTlv): (r: seq<BerTlv>)
    decreases t, 0
  {
    [t] + PreOrder(t.children)
  }

  function WithTag(ts: seq<BerTlv>, tag: string): (r: seq<BerTlv>)
  {
    if ts == [] then []
    else (if ts[0].tag == tag then [ts[0]] else []) + WithTag(ts[1..], tag)
  }

  lemma {:induction false} WithTagConcat(a: seq<BerTlv>, b: seq<BerTlv>, tag: string)
    ensures WithTag(a + b, tag) == WithTag(a, tag) + WithTag(b, tag)
  {
    if a == [] {
      assert a + b == b;
    } else {
      var ab := a + b;
      assert ab[0] == a[0] && ab[1..] == a[1..] + b;
      WithTagConcat(a[1..], b, tag);
      assert WithTag(ab, tag) == (if a[0].tag == tag then [a[0]] else []) + WithTag(a[1..] + b, tag);
    }
  }

  lemma {:induction false} PreOrderConcat(a: seq<BerTlv>, b: seq<BerTlv>)
    ensures PreOrder(a + b) == PreOrder(a) + PreOrder(b)
  {
    if a == [] {
      assert a + b == b;
    } else {
      var ab := a + b;
      assert ab[0] == a[0] && ab[1..] == a[1..] + b;
      PreOrderConcat(a[1..], b);
    }
  }

  lemma FoundSoFar(items: seq<BerTlv>, i: nat, tag: string)
    requires i < |items|
    ensures WithTag(PreOrder(items[..i + 1]), tag) ==
            WithTag(PreOrder(items[..i]), tag)
            + (if items[i].tag == tag then [items[i]] else [])
            + WithTag(PreOrder(items[i].children), tag)
  {
    var item := items[i];
    assert items[..i + 1] == items[..i] + [item];
    assert [item][1..] == [];
    assert PreOrder([item]) == PreOrderOf(item) + [] == PreOrderOf(item);
    PreOrderConcat(items[..i], [item]);
    WithTagConcat(PreOrder(items[..i]), PreOrderOf(item), tag);
    WithTagConcat([item], PreOrder(item.children), tag);
  }

  /** `find_tags`: the matching items of the pre-order walk, in order and with duplicates. */
  method FindTags(items: seq<BerTlv>, tag: string) returns (matches: seq<BerTlv>)
    ensures matches == WithTag(PreOrder(items), Upper(tag))
    decreases items
  {
    var normalized := Upper(tag);
    assert Upper(normalized) == normalized;
    matches := [];
    for i := 0 to |items|
      invariant matches == WithTag(PreOrder(items[..i]), normalized)
    {
      var item := items[i];
      if item.tag == normalized {
        matches := matches + [item];
      }
      if item.children != [] {
        var below := FindTags(item.children, normalized);
        matches := matches + below;
      }
      FoundSoFar(items, i, normalized);
    }
    assert items[..|items|] == items;
  }

  lemma {:induction false} ItemSize(t: BerTlv, depth: nat)
    requires WellFormed(t, depth)
    ensures 2 * |PreOrderOf(t)| <= |EncodeItem(t)|
    decreases t, 0
  {
    if t.constructed {
      ForestSize(t.children, depth + 1);
    }
  }

  lemma {:induction false} ForestSize(ts: seq<BerTlv>, depth: nat)
    requires WellFormedForest(ts, depth)
    ensures 2 * |PreOrder(ts)| <= |EncodeForest(ts)|
    decreases ts, 1
  {
    if ts != [] {
      ItemSize(ts[0], depth);
      ForestSize(ts[1..], depth);
    }
  }

  /** An accepted payload has at least two octets per node at every level. */
  lemma ParsedSize(payload: Octets)
    requires ParseBerTlv(payload).Ok?
    ensures 2 * |PreOrder(ParseBerTlv(payload).value)| <= |payload|
  {
    var forest := ParseBerTlv(payload).value;
    TlvBijection(payload, forest);
    ForestSize(forest, 0);
  }

  /** Payloads concatenate: the items of the second follow those of the first. */
  lemma {:induction false} ParseConcat(a: Octets, b: Octets, depth: nat)
    requires ParseItems(a, depth).Ok?
    ensures ParseItems(a + b, depth) == Prepend(ParseItems(a, depth).value, ParseItems(b, depth))
    decreases |a|
  {
    hide ParseItem, WellFormed, EncodeItem;
    if a == [] {
      assert a + b == b;
      PrependLaws([], [], ParseItems(b, depth));
    } else {
      ParsedItemEncodes(a, depth);
      var item := ParseItem(a, depth).value;
      var rest := a[item.width..];
      WellFormedFits(item.tlv, depth);
      EncodedItemParses(item.tlv, depth, rest + b);
      assert a + b == EncodeItem(item.tlv) + (rest + b);
      assert (a + b)[item.width..] == rest + b;
      ParseConcat(rest, b, depth);
      PrependLaws([item.tlv], ParseItems(rest, depth).value, ParseItems(b, depth));
    }
  }
}
