/** The partner of the BER-TLV decoder: an encoder for well-formed element
    trees, and the proof that the decoder gives each tree back with no
    error and no warning.  Also the shape every decoded level has: at most
    one error, and then a sentinel item as the last item. */
module TlvRoundTrip {
  import opened Common
  import opened TlvDecoder

  // ---------------------------------------------------------------------
  // Hex encoding

  /** The upper-case hex digit of d. */
  function HexDigit(d: nat): (c: char)
    requires d < 16
    ensures IsHexDigit(c) && DigitValue(c) == d && UpperChar(c) == c
  {
    if d < 10 then ('0' as int + d) as char else ('A' as int + d - 10) as char
  }

  function HexByte(b: byte): string
  {
    [HexDigit(b / 16), HexDigit(b % 16)]
  }

  /** Bytes as upper-case hex, two characters per byte. */
  function HexOf(bs: seq<byte>): (s: string)
    ensures |s| == 2 * |bs|
    decreases |bs|
  {
    if bs == [] then [] else HexOf(bs[..|bs| - 1]) + HexByte(bs[|bs| - 1])
  }

  /** The unsigned big-endian number a byte string denotes. */
  function BigEndian(bs: seq<byte>): nat
    decreases |bs|
  {
    if bs == [] then 0 else BigEndian(bs[..|bs| - 1]) * 256 + bs[|bs| - 1]
  }

  lemma HexValueSnoc(s: string, c: char)
    requires AllHex(s) && IsHexDigit(c)
    ensures AllHex(s + [c])
    ensures HexValue(s + [c]) == HexValue(s) * 16 + DigitValue(c)
  {
    assert (s + [c])[..|s|] == s;
  }

  /** Reading hex back with int(s, 16) gives the big-endian value. */
  lemma {:induction false} HexValueOfHexOf(bs: seq<byte>)
    ensures AllHex(HexOf(bs))
    ensures HexValue(HexOf(bs)) == BigEndian(bs)
    ensures Upper(HexOf(bs)) == HexOf(bs)
    decreases |bs|
  {
    if bs != [] {
      var init := bs[..|bs| - 1];
      var b := bs[|bs| - 1];
      HexValueOfHexOf(init);
      var hi := HexDigit(b / 16);
      var lo := HexDigit(b % 16);
      HexValueSnoc(HexOf(init), hi);
      HexValueSnoc(HexOf(init) + [hi], lo);
      assert HexOf(bs) == HexOf(init) + [hi] + [lo];
      assert Upper(HexOf(bs)) == HexOf(bs) by {
        forall i | 0 <= i < |HexOf(bs)|
          ensures UpperChar(HexOf(bs)[i]) == HexOf(bs)[i]
        {
          if i < |HexOf(init)| {
            assert HexOf(bs)[i] == HexOf(init)[i] == Upper(HexOf(init))[i];
          }
        }
      }
    }
  }

  lemma HexOfAppend(a: seq<byte>, b: seq<byte>)
    ensures HexOf(a + b) == HexOf(a) + HexOf(b)
    decreases |b|
  {
    if b != [] {
      var init := b[..|b| - 1];
      assert (a + b)[..|a + b| - 1] == a + init;
      HexOfAppend(a, init);
      calc {
        HexOf(a + b);
        HexOf(a + init) + HexByte(b[|b| - 1]);
        HexOf(a) + HexOf(init) + HexByte(b[|b| - 1]);
        HexOf(a) + HexOf(b);
      }
    } else {
      assert a + b == a;
    }
  }

  /** Python slicing at the boundaries of a concatenation. */
  lemma CutAt(a: string, b: string, c: string)
    ensures Take(a + b, |a|) == a
    ensures Drop(a + b, |a|) == b
    ensures Slice(a + b + c, |a|, |a| + |b|) == b
    ensures Drop(a + b + c, |a| + |b|) == c
  {
    assert (a + b)[..|a|] == a;
    assert (a + b + c)[|a|..|a| + |b|] == b;
    assert (a + b + c)[|a| + |b|..] == c;
  }

  // ---------------------------------------------------------------------
  // Length octets

  /** The big-endian bytes of n without leading zero bytes. */
  function MinimalBytes(n: nat): (bs: seq<byte>)
    ensures 1 <= |bs|
    ensures BigEndian(bs) == n
    decreases n
  {
    if n < 256 then [n] else
      var init := MinimalBytes(n / 256);
      var bs := init + [n % 256];
      assert bs[..|bs| - 1] == init;
      bs
  }

  /** A content length the encoder can write: short form below 128, or a
      long form whose byte count fits the 7 low bits of the first octet. */
  predicate LengthEncodable(n: nat)
  {
    n < 128 || |MinimalBytes(n)| < 128
  }

  /** The length octets of ITU-T X.690 section 8.1.3 in hex: short form
      below 128, otherwise 0x80 + k followed by the k length bytes. */
  function EncodeLength(n: nat): (s: string)
    requires LengthEncodable(n)
    ensures |s| == 2 + 2 * LengthWidth(n)
  {
    if n < 128 then HexByte(n)
    else HexByte(128 + |MinimalBytes(n)|) + HexOf(MinimalBytes(n))
  }

  /** How many length bytes follow the first length octet. */
  function LengthWidth(n: nat): nat
  {
    if n < 128 then 0 else |MinimalBytes(n)|
  }

  lemma HexByteValue(b: byte)
    ensures AllHex(HexByte(b)) && HexValue(HexByte(b)) == b
    ensures Upper(HexByte(b)) == HexByte(b)
  {
    assert HexByte(b) == HexOf([b]) by {
      assert [b][..0] == [];
    }
    HexValueOfHexOf([b]);
    assert BigEndian([b]) == b by {
      assert [b][..0] == [];
    }
  }

  /** emv_ber_len reads back what EncodeLength wrote, whatever follows. */
  lemma EncodeLengthRoundTrip(n: nat, tail: string)
    requires LengthEncodable(n)
    ensures EmvBerLen(EncodeLength(n) + tail) == Success(LengthField(n, LengthWidth(n)))
  {
    if n < 128 {
      ShortLengthRoundTrip(n, tail);
    } else {
      LongLengthRoundTrip(n, tail);
    }
  }

  lemma ShortLengthRoundTrip(n: nat, tail: string)
    requires n < 128
    ensures EmvBerLen(HexByte(n) + tail) == Success(LengthField(n, 0))
  {
    CutAt(HexByte(n), tail, []);
    HexByteValue(n);
  }

  lemma LongLengthRoundTrip(n: nat, tail: string)
    requires 128 <= n && |MinimalBytes(n)| < 128
    ensures var bs := MinimalBytes(n);
      EmvBerLen(HexByte(128 + |bs|) + HexOf(bs) + tail) == Success(LengthField(n, |bs|))
  {
    var bs := MinimalBytes(n);
    var k := |bs|;
    var s := HexByte(128 + k) + HexOf(bs) + tail;
    assert Take(s, 2) == HexByte(128 + k) by {
      CutAt(HexByte(128 + k), HexOf(bs) + tail, []);
      assert s == HexByte(128 + k) + (HexOf(bs) + tail);
    }
    assert EmvInt(Take(s, 2)) == Success(128 + k) by {
      HexByteValue(128 + k);
    }
    assert EmvInt(Slice(s, 2, (k + 1) * 2)) == Success(n) by {
      CutAt(HexByte(128 + k), HexOf(bs), tail);
      assert Slice(s, 2, (k + 1) * 2) == HexOf(bs);
      HexValueOfHexOf(bs);
    }
  }

  // ---------------------------------------------------------------------
  // Elements

  /** A BER-TLV element: a primitive one with its content bytes, or a
      constructed one with its children. */
  datatype Element = Leaf(tag: seq<byte>, content: seq<byte>) | Node(tag: seq<byte>, children: seq<Element>)

  /** A one-byte tag whose low five bits are not all set, or a two-byte tag
      whose first byte has them all set (ITU-T X.690 section 8.1.2). */
  predicate TagOk(tag: seq<byte>)
  {
    (|tag| == 1 && tag[0] % 32 != 31) || (|tag| == 2 && tag[0] % 32 == 31)
  }

  /** Bit 0x20 of the first tag byte: set exactly for constructed elements. */
  predicate IsConstructedTag(tag: seq<byte>)
    requires |tag| > 0
  {
    tag[0] / 32 % 2 == 1
  }

  /** The number of content bytes of an element. */
  function ContentSize(e: Element): nat
    decreases e
  {
    match e
    case Leaf(_, content) => |content|
    case Node(_, children) => SizeAll(children)
  }

  /** The number of bytes the encoding of a sequence of elements takes:
      tag, length octets and content of each. */
  function SizeAll(es: seq<Element>): nat
    decreases es
  {
    if es == [] then 0
    else |es[0].tag| + 1 + LengthWidth(ContentSize(es[0])) + ContentSize(es[0]) + SizeAll(es[1..])
  }

  predicate WellFormed(e: Element)
    decreases e
  {
    && TagOk(e.tag)
    && LengthEncodable(ContentSize(e))
    && (match e
        case Leaf(_, _) => !IsConstructedTag(e.tag)
        case Node(_, children) => IsConstructedTag(e.tag) && AllWellFormed(children))
  }

  predicate AllWellFormed(es: seq<Element>)
    decreases es
  {
    es == [] || (WellFormed(es[0]) && AllWellFormed(es[1..]))
  }

  /** Tag, length octets and content, in hex. */
  function EncodeElement(e: Element): (s: string)
    requires WellFormed(e)
    ensures |s| == 2 * (|e.tag| + 1 + LengthWidth(ContentSize(e)) + ContentSize(e))
    decreases e
  {
    match e
    case Leaf(tag, content) =>
      HexOf(tag) + EncodeLength(|content|) + HexOf(content)
    case Node(tag, children) =>
      HexOf(tag) + EncodeLength(SizeAll(children)) + EncodeAll(children)
  }

  function EncodeAll(es: seq<Element>): (s: string)
    requires AllWellFormed(es)
    ensures |s| == 2 * SizeAll(es)
    decreases es
  {
    if es == [] then [] else EncodeElement(es[0]) + EncodeAll(es[1..])
  }

  /** The item the decoder should produce for an element. */
  function Expected(e: Element): Item
    requires WellFormed(e)
    decreases e
  {
    match e
    case Leaf(tag, content) => Item(Some(HexOf(tag)), Value(HexOf(content)))
    case Node(tag, children) =>
      Item(Some(HexOf(tag)), Nested(Tree(EncodeAll(children), ExpectedAll(children), [], [])))
  }

  function ExpectedAll(es: seq<Element>): seq<Item>
    requires AllWellFormed(es)
    decreases es
  {
    if es == [] then [] else [Expected(es[0])] + ExpectedAll(es[1..])
  }

  /** The hex text of an element's content. */
  function ContentHex(e: Element): string
    requires WellFormed(e)
  {
    match e
    case Leaf(_, content) => HexOf(content)
    case Node(_, children) => EncodeAll(children)
  }

  /** get_one_tlv on an encoded element followed by anything: the tag, the
      constructed bit, the length and the content come back, no short-value
      warning is due, and the rest is exactly what followed. */
  lemma SplitEncoded(e: Element, tail: string)
    requires WellFormed(e)
    ensures var r := SplitTlv(EncodeElement(e) + tail);
      && r.Success?
      && r.value.tag == HexOf(e.tag)
      && r.value.constructed == e.Node?
      && r.value.value == ContentHex(e)
      && |r.value.value| == 2 * r.value.length
      && r.value.rest == tail
  {
    var content := ContentHex(e);
    var n := ContentSize(e);
    var header := HexOf(e.tag) + EncodeLength(n);
    var h := HexOf(e.tag) + (EncodeLength(n) + (content + tail));
    var hd := Header(IsConstructedTag(e.tag), HexOf(e.tag), n, |header|);
    HeaderOfEncoded(e.tag, n, content + tail);
    SplitParts(h, hd);
    Layout(e, tail);
    CutAt(header, content, tail);
  }

  /** An encoded element is its header (tag and length octets) followed by
      its content. */
  lemma Layout(e: Element, tail: string)
    requires WellFormed(e)
    ensures |ContentHex(e)| == 2 * ContentSize(e)
    ensures EncodeElement(e) + tail == HexOf(e.tag) + (EncodeLength(ContentSize(e)) + (ContentHex(e) + tail))
    ensures EncodeElement(e) + tail == (HexOf(e.tag) + EncodeLength(ContentSize(e))) + ContentHex(e) + tail
    ensures IsConstructedTag(e.tag) == e.Node?
  {
    AppendAssoc(HexOf(e.tag) + EncodeLength(ContentSize(e)), ContentHex(e), tail);
    AppendAssoc(HexOf(e.tag), EncodeLength(ContentSize(e)), ContentHex(e) + tail);
  }


  /** ReadHeader on a tag and length octets written by the encoder. */
  lemma HeaderOfEncoded(tag: seq<byte>, n: nat, rest: string)
    requires TagOk(tag) && LengthEncodable(n)
    ensures ReadHeader(HexOf(tag) + (EncodeLength(n) + rest))
      == Success(Header(IsConstructedTag(tag), HexOf(tag), n, |HexOf(tag) + EncodeLength(n)|))
  {
    var h := HexOf(tag) + (EncodeLength(n) + rest);
    TagPrefix(tag, EncodeLength(n) + rest);
    LengthAfterTag(tag, n, rest);
    ReadHeaderParts(h, tag[0], 2 * |tag|, HexOf(tag), LengthField(n, LengthWidth(n)),
                    Header(IsConstructedTag(tag), HexOf(tag), n, |HexOf(tag) + EncodeLength(n)|));
  }


  lemma LengthAfterTag(tag: seq<byte>, n: nat, rest: string)
    requires LengthEncodable(n)
    ensures EmvBerLen(Drop(HexOf(tag) + (EncodeLength(n) + rest), 2 * |tag|))
      == Success(LengthField(n, LengthWidth(n)))
  {
    CutAt(HexOf(tag), EncodeLength(n) + rest, []);
    EncodeLengthRoundTrip(n, rest);
  }


  /** ReadHeader assembled from what its three reads return. */
  lemma ReadHeaderParts(h: string, first: nat, width: nat, tag: string, lf: LengthField, hd: Header)
    requires width == if first % 32 == 31 then 4 else 2
    requires EmvInt(Upper(Take(h, 2))) == Success(first)
    requires Upper(Take(h, width)) == tag
    requires EmvBerLen(Drop(h, width)) == Success(lf)
    requires hd == Header(first / 32 % 2 == 1, tag, lf.length, width + 2 + 2 * lf.more)
    ensures ReadHeader(h) == Success(hd)
  {
  }


  /** SplitTlv assembled from the header ReadHeader returns. */
  lemma SplitParts(h: string, hd: Header)
    requires ReadHeader(h) == Success(hd)
    ensures SplitTlv(h) == Success(Step(hd.constructed, hd.tag, hd.length, hd.valueStart,
                                        Slice(h, hd.valueStart, hd.valueStart + 2 * hd.length),
                                        Drop(h, hd.valueStart + 2 * hd.length)))
  {
  }

  /** Wherever the model's SplitTlv succeeds, get_one_tlv as written
      returns the same parts: the two differ only on signed lengths. */
  lemma SplitTlvAsWrittenAgrees(h: string)
    requires SplitTlv(h).Success?
    ensures var st := SplitTlv(h).value;
      SplitTlvAsWritten(h) == Success(RawStep(st.constructed, st.tag, st.length, st.value, st.rest))
  {
    var first := EmvInt(Upper(Take(h, 2))).value;
    AgreeOnReads(h, first, EmvBerLen(Drop(h, TagWidth(first))).value);
  }

  /** The same, from the tag byte and the length field both read. */
  lemma AgreeOnReads(h: string, first: nat, lf: LengthField)
    requires EmvInt(Upper(Take(h, 2))) == Success(first)
    requires EmvBerLen(Drop(h, TagWidth(first))) == Success(lf)
    ensures SplitTlv(h).Success?
    ensures var st := SplitTlv(h).value;
      SplitTlvAsWritten(h) == Success(RawStep(st.constructed, st.tag, st.length, st.value, st.rest))
  {
    var width := TagWidth(first);
    var tag := Upper(Take(h, width));
    var start := width + 2 + 2 * lf.more;
    var e := start + 2 * lf.length;
    SplitAsHeader(h, first, lf, tag, start, e);
    CutUnsigned(h, first, lf.length, lf.more, tag, start, e);
    AsWrittenReads(h, first, lf);
    SameParts(SplitTlvAsWritten(h), SplitTlv(h), Cut(h, first, lf.length, lf.more),
              Step(first / 32 % 2 == 1, tag, lf.length, start, Slice(h, start, e), Drop(h, e)));
  }

  lemma SameParts(a: Result<RawStep, Cause>, b: Result<Step, Cause>, x: RawStep, y: Step)
    requires a == Success(x) && b == Success(y)
    requires x == RawStep(y.constructed, y.tag, y.length, y.value, y.rest)
    ensures b.Success? && a == Success(RawStep(b.value.constructed, b.value.tag, b.value.length, b.value.value, b.value.rest))
  {
  }

  /** get_one_tlv as written, once its two reads are known to be unsigned. */
  lemma AsWrittenReads(h: string, first: nat, lf: LengthField)
    requires EmvInt(Upper(Take(h, 2))) == Success(first)
    requires EmvBerLen(Drop(h, TagWidth(first))) == Success(lf)
    ensures SplitTlvAsWritten(h) == Success(Cut(h, first, lf.length, lf.more))
  {
  }

  /** With a non-negative length the Python slices are the model's. */
  lemma CutUnsigned(h: string, first: int, length: nat, more: nat, tag: string, start: nat, e: nat)
    requires tag == Upper(Take(h, TagWidth(first)))
    requires start == TagWidth(first) + 2 + 2 * more && e == start + 2 * length
    ensures Cut(h, first, length, more) == RawStep(first / 32 % 2 == 1, tag, length, Slice(h, start, e), Drop(h, e))
  {
  }

  /** SplitTlv once its reads are known. */
  lemma SplitAsHeader(h: string, first: nat, lf: LengthField, tag: string, start: nat, e: nat)
    requires EmvInt(Upper(Take(h, 2))) == Success(first)
    requires EmvBerLen(Drop(h, TagWidth(first))) == Success(lf)
    requires tag == Upper(Take(h, TagWidth(first)))
    requires start == TagWidth(first) + 2 + 2 * lf.more && e == start + 2 * lf.length
    ensures SplitTlv(h) == Success(Step(first / 32 % 2 == 1, tag, lf.length, start, Slice(h, start, e), Drop(h, e)))
  {
    var hd := Header(first / 32 % 2 == 1, tag, lf.length, start);
    ReadHeaderParts(h, first, TagWidth(first), tag, lf, hd);
    SplitParts(h, hd);
  }

  /** A length field written with a minus sign, after any one-byte tag:
      "-2" reads as the length -2, so get_one_tlv as written cuts the value
      h[4:0], which is empty, and returns h[0:], the whole buffer, as the
      rest (with a short-value warning, since 0 != -4). */
  lemma SignedLengthKeepsBuffer(b: byte, s: string)
    requires b % 32 != 31
    ensures var h := HexOf([b]) + ("-2" + s);
      SplitTlvAsWritten(h) == Success(RawStep(b / 32 % 2 == 1, HexOf([b]), -2, [], h))
  {
    var h := HexOf([b]) + ("-2" + s);
    TagPrefix([b], "-2" + s);
    assert |HexOf([b])| == 2;
    CutAt(HexOf([b]), "-2" + s, []);
    assert Take("-2" + s, 2) == "-2";
    assert HexValue("2") == 2 by {
      assert "2"[..0] == [];
    }
    assert PyHexInt("-2") == Success(-2) by {
      assert !IsHexDigit("-2"[0]);
      assert "-2"[1..] == "2";
    }
    assert EmvBerLenAsWritten("-2" + s) == Success((-2, 0));
    assert SplitTlvAsWritten(h) == Success(Cut(h, b, -2, 0));
  }

  /** Hence the loop of TLV.parse as written, given such a buffer, is
      still looping after any number of turns: it never ends. */
  lemma SignedLengthNeverEnds(b: byte, s: string, n: nat)
    requires b % 32 != 31
    ensures LoopsAsWritten(HexOf([b]) + ("-2" + s), n)
  {
    SignedLengthKeepsBuffer(b, s);
    KeptBufferLoops(HexOf([b]) + ("-2" + s), n);
  }

  /** A buffer that get_one_tlv as written hands back whole keeps the loop
      going for any number of turns. */
  lemma {:induction false} KeptBufferLoops(h: string, n: nat)
    requires h != [] && SplitTlvAsWritten(h).Success? && SplitTlvAsWritten(h).value.rest == h
    ensures LoopsAsWritten(h, n)
  {
    if n > 0 {
      KeptBufferLoops(h, n - 1);
    }
  }

  /** The model reads a length as unsigned hex: the same buffer is a parse
      error, so its loop stops with one error item. */
  lemma SignedLengthRejected(b: byte, s: string)
    requires b % 32 != 31
    ensures var h := HexOf([b]) + ("-2" + s);
      && SplitTlv(h).Failure?
      && ParseLevel(h) == Level([Item(None, Value(h))], [FailedItem(h, InvalidLiteral("-2"))], [])
  {
    var h := HexOf([b]) + ("-2" + s);
    TagPrefix([b], "-2" + s);
    assert |HexOf([b])| == 2;
    CutAt(HexOf([b]), "-2" + s, []);
    assert Take("-2" + s, 2) == "-2";
    assert !IsHexDigit("-2"[0]);
    assert EmvBerLen("-2" + s) == Failure(InvalidLiteral("-2"));
    assert ReadHeader(h) == Failure(InvalidLiteral("-2"));
  }

  /** The first two characters of an encoded tag read back as its first
      byte, and the whole tag (two or four characters) is already upper-case. */
  lemma TagPrefix(tag: seq<byte>, rest: string)
    requires TagOk(tag)
    ensures EmvInt(Upper(Take(HexOf(tag) + rest, 2))) == Success(tag[0])
    ensures Upper(Take(HexOf(tag) + rest, 2 * |tag|)) == HexOf(tag)
  {
    TagFirstByte(tag, rest);
    CutAt(HexOf(tag), rest, []);
    HexByteValue(tag[0]);
    HexValueOfHexOf(tag);
  }

  lemma TagFirstByte(tag: seq<byte>, rest: string)
    requires TagOk(tag)
    ensures Take(HexOf(tag) + rest, 2) == HexByte(tag[0])
  {
    var first := tag[0];
    if |tag| == 2 {
      HexOfPair(first, tag[1]);
      assert tag == [first, tag[1]];
      assert HexOf(tag) + rest == HexByte(first) + (HexByte(tag[1]) + rest);
      CutAt(HexByte(first), HexByte(tag[1]) + rest, []);
    } else {
      HexOfSingle(first);
      assert tag == [first];
      CutAt(HexByte(first), rest, []);
    }
  }

  lemma HexOfSingle(a: byte)
    ensures HexOf([a]) == HexByte(a)
  {
    assert [a][..0] == [];
  }

  lemma HexOfPair(a: byte, b: byte)
    ensures HexOf([a, b]) == HexByte(a) + HexByte(b)
  {
    assert [a, b][..1] == [a];
    HexOfSingle(a);
  }



  /** Decoding the encoding of a well-formed sequence of elements gives
      exactly the expected items, with no error and no warning. */
  lemma {:induction false} RoundTrip(es: seq<Element>)
    requires AllWellFormed(es)
    ensures ParseLevel(EncodeAll(es)) == Level(ExpectedAll(es), [], [])
    decreases es
  {
    if es != [] {
      var e := es[0];
      var h := EncodeAll(es);
      var tail := EncodeAll(es[1..]);
      assert h == EncodeElement(e) + tail;
      SplitEncoded(e, tail);
      assert h != [] by {
        assert |HexOf(e.tag)| >= 2;
      }
      var st := SplitTlv(h).value;
      RoundTrip(es[1..]);
      assert ShortValueWarning(st) == [];
      match e
      case Leaf(tag, content) =>
        assert PayloadOf(st) == Value(HexOf(content));
      case Node(tag, children) =>
        RoundTrip(children);
        assert Start(EncodeAll(children), false) == EncodeAll(children);
        assert PayloadOf(st) == Nested(Tree(EncodeAll(children), ExpectedAll(children), [], []));
      ParseLevelStep(h);
    }
  }

  /** The TLV object built from an encoding, with or without a two-byte
      status word to strip, holds the expected items and no diagnostics. */
  lemma BuildRoundTrip(es: seq<Element>, sw: string)
    requires AllWellFormed(es)
    requires |sw| == 4
    ensures Build(EncodeAll(es), false) == Tree(EncodeAll(es), ExpectedAll(es), [], [])
    ensures Build(EncodeAll(es) + sw, true) == Tree(EncodeAll(es) + sw, ExpectedAll(es), [], [])
  {
    RoundTrip(es);
    assert StripSw(EncodeAll(es) + sw) == EncodeAll(es);
  }

  // ---------------------------------------------------------------------
  // The shape of every decoded level

  /** Whatever the input: at most one error; an error means the level
      ended with the sentinel item (no tag, the untouched remaining buffer);
      every other item has a tag; at most one warning per item; the empty
      buffer gives an empty level. */
  lemma LevelShape(rest: string)
    ensures var l := ParseLevel(rest);
      && |l.errors| <= 1
      && (|l.errors| == 1 ==>
            |l.items| >= 1 && l.items[|l.items| - 1] == Item(None, Value(l.errors[0].orig)))
      && (forall i :: 0 <= i < |l.items| - |l.errors| ==> l.items[i].tag.Some?)
      && |l.warnings| <= |l.items|
      && (rest == [] <==> l.items == [])
  {
    LevelErrors(rest);
    LevelTags(rest);
    LevelWarnings(rest);
  }

  /** At most one error, with its sentinel item last. */
  lemma {:induction false} LevelErrors(rest: string)
    ensures var l := ParseLevel(rest);
      && |l.errors| <= 1
      && (|l.errors| == 1 ==>
            |l.items| >= 1 && l.items[|l.items| - 1] == Item(None, Value(l.errors[0].orig)))
      && (rest == [] <==> l.items == [])
    decreases |rest|
  {
    if rest != [] {
      ParseLevelStep(rest);
      match SplitTlv(rest)
      case Failure(_) =>
      case Success(st) =>
        LevelErrors(st.rest);
        var tail := ParseLevel(st.rest);
        var l := ParseLevel(rest);
        assert l.items == [Item(Some(st.tag), PayloadOf(st))] + tail.items;
    }
  }

  /** Every item before the errors' sentinels carries a tag. */
  lemma {:induction false} LevelTags(rest: string)
    ensures var l := ParseLevel(rest);
      forall i :: 0 <= i < |l.items| - |l.errors| ==> l.items[i].tag.Some?
    decreases |rest|
  {
    if rest != [] {
      ParseLevelStep(rest);
      match SplitTlv(rest)
      case Failure(_) =>
      case Success(st) =>
        LevelTags(st.rest);
        var tail := ParseLevel(st.rest);
        var l := ParseLevel(rest);
        assert l.items == [Item(Some(st.tag), PayloadOf(st))] + tail.items;
        assert l.errors == tail.errors;
        forall i | 0 <= i < |l.items| - |l.errors|
          ensures l.items[i].tag.Some?
        {
          if i > 0 {
            assert l.items[i] == tail.items[i - 1];
          }
        }
    }
  }

  /** At most one warning per item. */
  lemma {:induction false} LevelWarnings(rest: string)
    ensures |ParseLevel(rest).warnings| <= |ParseLevel(rest).items|
    decreases |rest|
  {
    if rest != [] {
      ParseLevelStep(rest);
      match SplitTlv(rest)
      case Failure(_) =>
      case Success(st) =>
        LevelWarnings(st.rest);
    }
  }


  /** With strip set, an input of at most four characters is only a status
      word: nothing is decoded and nothing is reported. */
  lemma StripShortInput(hexstring: string)
    requires |hexstring| <= 4
    ensures Build(hexstring, true) == Tree(hexstring, [], [], [])
  {
  }
}
