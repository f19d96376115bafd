/** The Sensorino message buffer (bozo/Message.cpp): a fixed 28-byte raw
    array holding an 8-byte header (source, destination, message type, id)
    followed by appended extended-type entries `0x1F, type, length, value`,
    and the scan that finds the num-th value of a data type.

    The target is an 8-bit AVR: `int` is 16 bits wide, `unsigned long` and
    the float bit pattern 32 bits. */
module MessageBuffer {
  import opened Common

  const HEADERS_LENGTH := 8
  const PAYLOAD_LENGTH := 20
  const RAW_SIZE := HEADERS_LENGTH + PAYLOAD_LENGTH
  const MAX_MESSAGE_ID := 253
  const EXTENDED_TYPE: byte := 0x1F
  /** sizeof(int) on the AVR target. */
  const INT_SIZE := 2

  // Message types (the MessageType enumeration).
  const ERR: byte := 0
  const CTRL: byte := 1
  const PUBLISH: byte := 2
  const SET: byte := 3
  const REQUEST: byte := 4
  /** The type of a message built from a frame of impossible length; its
      code is not defined by any header of the program, 8 is the first code
      after CONFIG. */
  const GARBAGE: byte := 8

  // Data types (the DataType enumeration) that select how a value is read.
  const DATATYPE: byte := 0
  const SERVICE_ID: byte := 1
  const ACCELERATION: byte := 21
  const COUNT: byte := 48
  const PRESENCE: byte := 49
  const SWITCH: byte := 50

  type int16 = x: int | -0x8000 <= x < 0x8000
  type uint32 = x: int | 0 <= x < 0x1_0000_0000

  predicate IsBoolType(t: byte) { t == PRESENCE || t == SWITCH }
  predicate IsIntType(t: byte) { t == DATATYPE || t == COUNT || t == SERVICE_ID }
  predicate IsFloatType(t: byte) { ACCELERATION <= t < COUNT }

  // ---------------------------------------------------------------------
  // Message ids

  /** The class-wide counter Message::staticId (zero-initialised storage). */
  class IdCounter {
    var staticId: byte

    constructor ()
      ensures staticId == 0
    {
      staticId := 0;
    }
  }

  /** staticId++ on a uint8_t, then the wrap below MAX_MESSAGE_ID. Ids stay
      below MAX_MESSAGE_ID, and from any such id they count modulo it. */
  function NextId(s: byte): (r: byte)
    ensures r < MAX_MESSAGE_ID
    ensures s < MAX_MESSAGE_ID ==> r == (s + 1) % MAX_MESSAGE_ID
  {
    var t := (s + 1) % 256;
    if t >= MAX_MESSAGE_ID then t - MAX_MESSAGE_ID else t
  }

  // ---------------------------------------------------------------------
  // Values and their byte encodings

  /** What find stores through its value pointer: an int 0/1 for boolean
      types, the raw 32-bit pattern for float types, a 16-bit signed int for
      int types, nothing for any other type. */
  datatype Value = BoolValue(b: int) | FloatValue(bits: uint32) | IntValue(v: int16) | NoValue

  /** find's result: 0, or 1 together with the value it stored. */
  datatype FindResult = NotFound | Found(value: Value)

  /** _addInt: sizeof(int) bytes, most significant first, two's complement. */
  function IntBytes(v: int16): (bs: seq<byte>)
    ensures |bs| == INT_SIZE
  {
    [(v / 256) % 256, v % 256]
  }

  /** The 32-bit pattern, least significant byte first. */
  function FloatBytes(bits: uint32): (bs: seq<byte>)
    ensures |bs| == 4
  {
    [bits % 256, (bits / 0x100) % 256, (bits / 0x1_0000) % 256, (bits / 0x100_0000) % 256]
  }

  /** Two bytes, the first the more significant. */
  function Word16(hi: byte, lo: byte): uint16
  {
    hi as int * 256 + lo as int
  }

  /** Four bytes, least significant first. */
  function Word32(b0: byte, b1: byte, b2: byte, b3: byte): uint32
  {
    b0 as int + b1 as int * 0x100 + b2 as int * 0x1_0000 + b3 as int * 0x100_0000
  }

  /** 2 to the power n. */
  function Pow2(n: nat): (r: nat)
    ensures r >= 1
  {
    if n == 0 then 1 else 2 * Pow2(n - 1)
  }

  /** Bitwise OR of two non-negative numbers, one bit at a time. */
  function BitOr(a: nat, b: nat): nat
    decreases a + b
  {
    if a == 0 then b
    else if b == 0 then a
    else (if a % 2 == 1 || b % 2 == 1 then 1 else 0) + 2 * BitOr(a / 2, b / 2)
  }

  /** A value below 2^n ORed with a multiple of 2^n has no bit in common
      with it: the OR is the sum. */
  lemma {:induction false} OrDisjoint(a: nat, b: nat, n: nat)
    requires a < Pow2(n)
    ensures BitOr(a, b * Pow2(n)) == a + b * Pow2(n)
    decreases n
  {
    if a != 0 && b != 0 {
      assert n >= 1;
      var p := Pow2(n - 1);
      assert b * Pow2(n) == 2 * (b * p);
      assert (b * Pow2(n)) % 2 == 0 && (b * Pow2(n)) / 2 == b * p;
      assert a / 2 < p;
      OrDisjoint(a / 2, b, n - 1);
    }
  }

  /** The conversion of an int to uint32_t. */
  function ToUint32(i: int): (r: uint32)
    ensures (r - i) % 0x1_0000_0000 == 0
  {
    i % 0x1_0000_0000
  }

  /** `b << s` in C++ for a uint8_t b, which is first promoted to an int
      intBits wide: a shift by the width of int or more is undefined
      (None); otherwise the result is b * 2^s, which fits the unsigned int
      of that width, read back as a two's complement int. */
  function PromotedShl(intBits: nat, b: byte, s: nat): (r: Option<int>)
    requires intBits == 16 || intBits == 32
    requires s == 0 || s == 8 || s == 16 || s == 24
    ensures r.Some? <==> s < intBits
    ensures r.Some? ==>
              && 0 <= r.value + Pow2(intBits - 1) && r.value < Pow2(intBits - 1)
              && (r.value == b * Pow2(s) || r.value == b * Pow2(s) - Pow2(intBits))
  {
    if s >= intBits then None
    else
      var v, half := b * Pow2(s), Pow2(intBits - 1);
      ShlFits(b, s, intBits);
      Some(if v < half then v else v - 2 * half)
  }

  /** A byte shifted left by less than the width of int stays below 2^width. */
  lemma ShlFits(b: byte, s: nat, intBits: nat)
    requires s + 8 <= intBits
    ensures 0 <= b * Pow2(s) < Pow2(intBits) && Pow2(intBits) == 2 * Pow2(intBits - 1)
  {
    var p, q := Pow2(s), Pow2(intBits - s);
    PowAdd(s, intBits - s);
    PowAtLeast(intBits - s);
    MulBelow(b, p, q);
  }

  lemma MulBelow(b: nat, p: nat, q: nat)
    requires b < q && p >= 1
    ensures 0 <= b * p < q * p
  {
    assert q * p - b * p == (q - b) * p;
  }

  lemma {:induction false} PowAdd(m: nat, n: nat)
    ensures Pow2(m + n) == Pow2(n) * Pow2(m)
    decreases n
  {
    if n > 0 {
      PowAdd(m, n - 1);
      assert Pow2(m + n) == 2 * Pow2(m + n - 1);
    }
  }

  lemma {:induction false} PowAtLeast(n: nat)
    requires n >= 8
    ensures Pow2(n) >= 256
    decreases n
  {
    if n > 8 {
      PowAtLeast(n - 1);
    }
  }

  /** find's float read as written: `float_val = raw[pos++]`, then
      `float_val |= raw[pos++] << 8`, `<< 16` and `<< 24`, each byte
      promoted to an int intBits wide before its shift and the shifted int
      converted to uint32_t for the OR.  None when a shift is undefined. */
  function FloatRead(intBits: nat, b0: byte, b1: byte, b2: byte, b3: byte): (r: Option<nat>)
    requires intBits == 16 || intBits == 32
    ensures r.Some? <==> intBits == 32
  {
    var s1, s2, s3 := PromotedShl(intBits, b1, 8), PromotedShl(intBits, b2, 16), PromotedShl(intBits, b3, 24);
    if s1.None? || s2.None? || s3.None? then None
    else Some(BitOr(BitOr(BitOr(b0, ToUint32(s1.value)), ToUint32(s2.value)), ToUint32(s3.value)))
  }

  /** On the target, where int is 16 bits wide, `raw[pos++] << 16` shifts
      by the whole width of int: every float read is undefined. */
  lemma FloatReadOnTarget(b0: byte, b1: byte, b2: byte, b3: byte)
    ensures FloatRead(8 * INT_SIZE, b0, b1, b2, b3) == None
  {
  }

  /** With a 32-bit int the same code reads the four bytes as the 32-bit
      pattern, least significant first. */
  lemma FloatReadOn32BitInt(b0: byte, b1: byte, b2: byte, b3: byte)
    ensures FloatRead(32, b0, b1, b2, b3) == Some(Word32(b0, b1, b2, b3))
  {
    ShlOn32(b1, 8);
    ShlOn32(b2, 16);
    ShlOn32(b3, 24);
    OrChain(b0, b1, b2, b3);
  }

  /** ORing in the three shifted bytes adds them: their bits are disjoint. */
  lemma OrChain(b0: byte, b1: byte, b2: byte, b3: byte)
    ensures BitOr(BitOr(BitOr(b0, b1 * Pow2(8)), b2 * Pow2(16)), b3 * Pow2(24)) == Word32(b0, b1, b2, b3)
  {
    Pow2Table();
    var v1, v2 := b1 * Pow2(8), b2 * Pow2(16);
    OrDisjoint(b0, b1, 8);
    OrDisjoint(b0 + v1, b2, 16);
    OrDisjoint(b0 + v1 + v2, b3, 24);
  }

  /** On a 32-bit int, a byte shifted by 8, 16 or 24 converts back to
      uint32_t as b * 2^s. */
  lemma ShlOn32(b: byte, s: nat)
    requires s == 8 || s == 16 || s == 24
    ensures PromotedShl(32, b, s).Some?
    ensures ToUint32(PromotedShl(32, b, s).value) == b * Pow2(s)
  {
    ShlFits(b, s, 32);
    Pow2Table();
  }

  /** The powers of two that a 32-bit int's shifts use. */
  lemma Pow2Table()
    ensures Pow2(8) == 0x100 && Pow2(16) == 0x1_0000 && Pow2(24) == 0x100_0000
    ensures Pow2(31) == 0x8000_0000 && Pow2(32) == 0x1_0000_0000
  {
    assert Pow2(7) == 0x80 && Pow2(8) == 0x100;
    PowAdd(8, 8);
    PowAdd(16, 8);
    PowAdd(24, 7);
    assert Pow2(32) == 2 * Pow2(31);
  }

  /** The (int16_t) cast of a 16-bit pattern. */
  function AsInt16(u: uint16): int16
  {
    if u < 0x8000 then u else u - 0x1_0000
  }

  // ---------------------------------------------------------------------
  // find, as the C code walks the buffer

  /** The value at pos of an entry whose length byte is len; CHECK_LENGTH(n)
      refuses to read past byte RAW_SIZE or beyond the entry's length.  The
      float pattern is read with each byte cast to uint32_t before its
      shift, the corrected form of the read FloatRead models as written. */
  function DecodeAt(raw: seq<byte>, pos: nat, len: int, t: byte): FindResult
    requires |raw| == RAW_SIZE
  {
    if IsBoolType(t) then
      if pos + 1 > RAW_SIZE || len < 1 then NotFound
      else Found(BoolValue(if raw[pos] != 0 then 1 else 0))
    else if IsFloatType(t) then
      if pos + 4 > RAW_SIZE || len < 4 then NotFound
      else Found(FloatValue(Word32(raw[pos], raw[pos + 1], raw[pos + 2], raw[pos + 3])))
    else if IsIntType(t) then
      if pos + 2 > RAW_SIZE || len < 2 then NotFound
      else Found(IntValue(AsInt16(Word16(raw[pos], raw[pos + 1]))))
    else Found(NoValue)
  }

  /** The scan of find from offset pos with num matches still to skip. The
      short-circuit `raw[pos++] != extendedType || raw[pos++] != t || num--`
      advances pos by one per byte it reads, so an entry whose first byte is
      not 0x1F is skipped as a plain one-byte-tag TLV, and num only counts
      down on entries of type t. */
  function FindFrom(raw: seq<byte>, rawLen: int, pos: nat, t: byte, num: int): FindResult
    requires |raw| == RAW_SIZE && rawLen <= RAW_SIZE
    decreases rawLen - pos
  {
    if pos >= rawLen - 3 then NotFound
    else if raw[pos] != EXTENDED_TYPE then FindFrom(raw, rawLen, pos + 2 + raw[pos + 1], t, num)
    else if raw[pos + 1] != t then FindFrom(raw, rawLen, pos + 3 + raw[pos + 2], t, num)
    else if num != 0 then FindFrom(raw, rawLen, pos + 3 + raw[pos + 2], t, num - 1)
    else DecodeAt(raw, pos + 3, raw[pos + 2], t)
  }

  // ---------------------------------------------------------------------
  // The entry-level view

  /** An extended-type entry: data type and value bytes. */
  datatype Entry = Entry(t: byte, value: seq<byte>)

  predicate EntryOk(e: Entry)
  {
    1 <= |e.value| < 256
  }

  function EncodeEntry(e: Entry): (bs: seq<byte>)
    requires EntryOk(e)
    ensures |bs| == 3 + |e.value|
  {
    [EXTENDED_TYPE, e.t, |e.value|] + e.value
  }

  predicate EntriesOk(es: seq<Entry>)
  {
    forall i :: 0 <= i < |es| ==> EntryOk(es[i])
  }

  function EncodeEntries(es: seq<Entry>): seq<byte>
    requires EntriesOk(es)
  {
    if es == [] then [] else EncodeEntry(es[0]) + EncodeEntries(es[1..])
  }

  /** How a value's bytes read back for data type t. */
  function DecodeValue(t: byte, value: seq<byte>): FindResult
  {
    if IsBoolType(t) then
      if |value| < 1 then NotFound else Found(BoolValue(if value[0] != 0 then 1 else 0))
    else if IsFloatType(t) then
      if |value| < 4 then NotFound
      else Found(FloatValue(Word32(value[0], value[1], value[2], value[3])))
    else if IsIntType(t) then
      if |value| < 2 then NotFound else Found(IntValue(AsInt16(Word16(value[0], value[1]))))
    else Found(NoValue)
  }

  /** The reference meaning of find: the num-th (zero-based) entry of type t. */
  function FindEntries(es: seq<Entry>, t: byte, num: int): FindResult
  {
    if es == [] then NotFound
    else if es[0].t != t then FindEntries(es[1..], t, num)
    else if num != 0 then FindEntries(es[1..], t, num - 1)
    else DecodeValue(t, es[0].value)
  }

  /** How many entries have data type t. */
  function CountType(es: seq<Entry>, t: byte): nat
  {
    if es == [] then 0 else (if es[0].t == t then 1 else 0) + CountType(es[1..], t)
  }

  /** The bytes of the first encoded entry, and the encoding of the rest
      right after it. */
  lemma FirstEntryBytes(raw: seq<byte>, rawLen: int, pos: nat, es: seq<Entry>)
    requires |raw| == RAW_SIZE && pos <= rawLen <= RAW_SIZE
    requires es != [] && EntriesOk(es) && raw[pos..rawLen] == EncodeEntries(es)
    ensures var next := pos + 3 + |es[0].value|;
      && next <= rawLen
      && raw[pos] == EXTENDED_TYPE && raw[pos + 1] == es[0].t && raw[pos + 2] == |es[0].value|
      && raw[pos + 3..next] == es[0].value
      && EntriesOk(es[1..]) && raw[next..rawLen] == EncodeEntries(es[1..])
  {
    EntriesOkTail(es);
    assert EncodeEntries(es) == EncodeEntry(es[0]) + EncodeEntries(es[1..]);
    EntryAt(raw, pos, rawLen, es[0], EncodeEntries(es[1..]));
  }

  /** The bytes of one encoded entry followed by tail. */
  lemma EntryAt(raw: seq<byte>, lo: nat, hi: int, e: Entry, tail: seq<byte>)
    requires EntryOk(e) && lo <= hi <= |raw| && raw[lo..hi] == EncodeEntry(e) + tail
    ensures var next := lo + 3 + |e.value|;
      && next <= hi
      && raw[lo] == EXTENDED_TYPE && raw[lo + 1] == e.t && raw[lo + 2] == |e.value|
      && raw[lo + 3..next] == e.value && raw[next..hi] == tail
  {
    var enc := EncodeEntry(e);
    SliceOfConcat(raw, lo, hi, enc, tail);
    SliceOfConcat(raw, lo, lo + |enc|, [EXTENDED_TYPE, e.t, |e.value|], e.value);
  }

  /** A slice that is the concatenation of two sequences splits into them. */
  lemma SliceOfConcat(raw: seq<byte>, lo: nat, hi: int, x: seq<byte>, y: seq<byte>)
    requires lo <= hi <= |raw| && raw[lo..hi] == x + y
    ensures lo + |x| <= hi && raw[lo..lo + |x|] == x && raw[lo + |x|..hi] == y
    ensures forall k :: 0 <= k < |x| ==> raw[lo + k] == x[k]
  {
    assert raw[lo..lo + |x|] == raw[lo..hi][..|x|];
    assert raw[lo + |x|..hi] == raw[lo..hi][|x|..];
  }

  lemma EntriesOkTail(es: seq<Entry>)
    requires es != [] && EntriesOk(es)
    ensures EntriesOk(es[1..])
  {
    forall i | 0 <= i < |es[1..]| ensures EntryOk(es[1..][i]) {
      assert es[1..][i] == es[i + 1];
    }
  }

  /** Reading a value in place gives what the reference reads from its
      bytes. */
  lemma DecodeInPlace(raw: seq<byte>, pos: nat, value: seq<byte>, t: byte)
    requires |raw| == RAW_SIZE && pos + |value| <= RAW_SIZE && raw[pos..pos + |value|] == value
    ensures DecodeAt(raw, pos, |value|, t) == DecodeValue(t, value)
  {
    assert forall k :: 0 <= k < |value| ==> raw[pos + k] == value[k];
  }

  /** On a buffer whose bytes from pos to rawLen are encoded entries, the
      C scan finds exactly what the reference finds. */
  lemma {:induction false} FindFromEncoded(raw: seq<byte>, rawLen: int, pos: nat, es: seq<Entry>, t: byte, num: int)
    requires |raw| == RAW_SIZE && pos <= rawLen <= RAW_SIZE
    requires EntriesOk(es) && raw[pos..rawLen] == EncodeEntries(es)
    ensures FindFrom(raw, rawLen, pos, t, num) == FindEntries(es, t, num)
    decreases es
  {
    if es != [] {
      FirstEntryBytes(raw, rawLen, pos, es);
      var e := es[0];
      var next := pos + 3 + |e.value|;
      if e.t != t {
        FindFromEncoded(raw, rawLen, next, es[1..], t, num);
      } else if num != 0 {
        FindFromEncoded(raw, rawLen, next, es[1..], t, num - 1);
      } else {
        DecodeInPlace(raw, pos + 3, e.value, t);
      }
    }
  }

  /** Appending an entry leaves the earlier matches where they were and
      makes the new entry the CountType-th match of its type. */
  lemma {:induction false} FindAfterAppend(es: seq<Entry>, e: Entry, t: byte, num: int)
    ensures num == CountType(es, t) && e.t == t ==> FindEntries(es + [e], t, num) == DecodeValue(t, e.value)
    ensures num < CountType(es, t) ==> FindEntries(es + [e], t, num) == FindEntries(es, t, num)
    decreases es
  {
    if es == [] {
      assert [] + [e] == [e];
    } else {
      assert (es + [e])[0] == es[0];
      assert (es + [e])[1..] == es[1..] + [e];
      if es[0].t != t {
        FindAfterAppend(es[1..], e, t, num);
      } else if num != 0 {
        FindAfterAppend(es[1..], e, t, num - 1);
      }
    }
  }

  lemma EncodeEntriesAppend(es: seq<Entry>, e: Entry)
    requires EntriesOk(es) && EntryOk(e)
    ensures EntriesOk(es + [e])
    ensures EncodeEntries(es + [e]) == EncodeEntries(es) + EncodeEntry(e)
    decreases es
  {
    if es == [] {
      assert [] + [e] == [e];
      assert EncodeEntries([e]) == EncodeEntry(e) + EncodeEntries([]);
    } else {
      assert (es + [e])[0] == es[0];
      assert (es + [e])[1..] == es[1..] + [e];
      assert EntriesOk(es[1..]) by {
        forall i | 0 <= i < |es[1..]| ensures EntryOk(es[1..][i]) {
          assert es[1..][i] == es[i + 1];
        }
      }
      EncodeEntriesAppend(es[1..], e);
    }
  }

  /** The entries each add method appends. */
  function IntEntry(t: byte, v: int16): Entry { Entry(t, IntBytes(v)) }
  function FloatEntry(t: byte, bits: uint32): Entry { Entry(t, FloatBytes(bits)) }
  function BoolEntry(t: byte, value: int): Entry { Entry(t, [if value != 0 then 1 else 0]) }

  /** An int read back under an int data type is the int written; a float
      pattern under a float type is the same pattern; a boolean under a
      boolean type is !!value. */
  lemma DecodeEncodedValues(t: byte, v: int16, bits: uint32, value: int)
    ensures IsIntType(t) ==> DecodeValue(t, IntBytes(v)) == Found(IntValue(v))
    ensures IsFloatType(t) ==> DecodeValue(t, FloatBytes(bits)) == Found(FloatValue(bits))
    ensures IsBoolType(t) ==> DecodeValue(t, BoolEntry(t, value).value) == Found(BoolValue(if value != 0 then 1 else 0))
  {
    var hi := (v / 256) % 256;
    var lo := v % 256;
    assert v == (v / 256) * 256 + lo;
    if v >= 0 {
      assert hi * 256 + lo == v;
    } else {
      assert hi * 256 + lo == v + 0x1_0000;
    }
    var b0 := bits % 256;
    var b1 := (bits / 0x100) % 256;
    var b2 := (bits / 0x1_0000) % 256;
    var b3 := (bits / 0x100_0000) % 256;
    assert bits == b0 + 0x100 * (bits / 0x100);
    assert bits / 0x100 == b1 + 0x100 * (bits / 0x1_0000);
    assert bits / 0x1_0000 == b2 + 0x100 * (bits / 0x100_0000);
    assert bits / 0x100_0000 == b3;
  }

  /** Add-then-find on a message whose payload holds the entries es: the
      value added comes back as the next match of its data type, and every
      earlier match is unchanged. */
  lemma {:induction false} AddThenFind(hdr: seq<byte>, es: seq<Entry>, e: Entry, junk: seq<byte>, num: int)
    requires |hdr| == HEADERS_LENGTH && EntriesOk(es) && EntryOk(e)
    requires |hdr| + |EncodeEntries(es + [e])| + |junk| == RAW_SIZE
    ensures var raw := hdr + EncodeEntries(es + [e]) + junk;
      var rawLen := |hdr| + |EncodeEntries(es + [e])|;
      && FindFrom(raw, rawLen, HEADERS_LENGTH, e.t, CountType(es, e.t)) == DecodeValue(e.t, e.value)
      && (num < CountType(es, e.t) ==>
            FindFrom(raw, rawLen, HEADERS_LENGTH, e.t, num) == FindEntries(es, e.t, num))
  {
    EncodeEntriesAppend(es, e);
    var raw := hdr + EncodeEntries(es + [e]) + junk;
    var rawLen := |hdr| + |EncodeEntries(es + [e])|;
    assert raw[HEADERS_LENGTH..rawLen] == EncodeEntries(es + [e]);
    FindFromEncoded(raw, rawLen, HEADERS_LENGTH, es + [e], e.t, CountType(es, e.t));
    FindFromEncoded(raw, rawLen, HEADERS_LENGTH, es + [e], e.t, num);
    FindAfterAppend(es, e, e.t, CountType(es, e.t));
    FindAfterAppend(es, e, e.t, num);
  }

  /** A buffer that equals `before` except for `enc` written at `at`. */
  lemma Splice(after: seq<byte>, before: seq<byte>, at: nat, enc: seq<byte>)
    requires |after| == |before| && at + |enc| <= |before|
    requires forall k :: 0 <= k < |after| && !(at <= k < at + |enc|) ==> after[k] == before[k]
    requires forall k :: 0 <= k < |enc| ==> after[at + k] == enc[k]
    ensures after == before[..at] + enc + before[at + |enc|..]
  {
    var rhs := before[..at] + enc + before[at + |enc|..];
    assert |rhs| == |after|;
    forall k | 0 <= k < |after|
      ensures after[k] == rhs[k]
    {
      if k < at {
      } else if k < at + |enc| {
        assert after[at + (k - at)] == enc[k - at];
      } else {
      }
    }
  }

  // ---------------------------------------------------------------------
  // The Message object

  class Message {
    const raw: array<byte>
    var rawLen: int

    predicate Valid()
      reads this
    {
      raw.Length == RAW_SIZE && HEADERS_LENGTH <= rawLen <= RAW_SIZE
    }

    /** Message(src, dst): takes the next id and starts with an empty
        payload. */
    constructor (src: byte, dst: byte, ids: IdCounter)
      modifies ids
      ensures Valid() && fresh(raw)
      ensures ids.staticId == NextId(old(ids.staticId))
      ensures raw[0] == src && raw[1] == dst && raw[3] == ids.staticId
      ensures rawLen == HEADERS_LENGTH
    {
      raw := new byte[RAW_SIZE](_ => 0);
      new;
      ids.staticId := NextId(ids.staticId);
      SetId(ids.staticId);
      SetSrcAddress(src);
      SetDstAddress(dst);
      rawLen := HEADERS_LENGTH;
    }

    /** Message(raw, len): a frame of impossible length gives a header-only
        GARBAGE message; otherwise exactly len bytes are copied. */
    constructor FromRaw(data: seq<byte>, len: int)
      requires HEADERS_LENGTH <= len <= RAW_SIZE ==> len <= |data|
      ensures Valid() && fresh(raw)
      ensures len > RAW_SIZE || len < HEADERS_LENGTH ==> rawLen == HEADERS_LENGTH && raw[2] == GARBAGE
      ensures HEADERS_LENGTH <= len <= RAW_SIZE ==> rawLen == len && raw[..len] == data[..len]
    {
      raw := new byte[RAW_SIZE](_ => 0);
      new;
      if len > RAW_SIZE || len < HEADERS_LENGTH {
        rawLen := HEADERS_LENGTH;
        SetType(GARBAGE);
        return;
      }
      rawLen := len;
      var i := 0;
      while i < rawLen
        invariant rawLen == len && raw.Length == RAW_SIZE
        invariant 0 <= i <= rawLen
        invariant raw[..i] == data[..i]
      {
        raw[i] := data[i];
        i := i + 1;
      }
    }

    function Id(): byte
      reads this, raw
      requires Valid()
    {
      raw[3]
    }

    function SrcAddress(): byte
      reads this, raw
      requires Valid()
    {
      raw[0]
    }

    function DstAddress(): byte
      reads this, raw
      requires Valid()
    {
      raw[1]
    }

    function Type(): byte
      reads this, raw
      requires Valid()
    {
      raw[2]
    }

    method SetId(i: byte)
      requires raw.Length == RAW_SIZE
      modifies raw
      ensures raw[..] == old(raw[..])[3 := i]
    {
      raw[3] := i;
    }

    method SetSrcAddress(addr: byte)
      requires raw.Length == RAW_SIZE
      modifies raw
      ensures raw[..] == old(raw[..])[0 := addr]
    {
      raw[0] := addr;
    }

    method SetDstAddress(addr: byte)
      requires raw.Length == RAW_SIZE
      modifies raw
      ensures raw[..] == old(raw[..])[1 := addr]
    {
      raw[1] := addr;
    }

    method SetType(t: byte)
      requires raw.Length == RAW_SIZE
      modifies raw
      ensures raw[..] == old(raw[..])[2 := t]
    {
      raw[2] := t;
    }

    /** The bytes from rawLen on are the entries appended so far, and the
        bytes past them are untouched. */
    predicate Appended(before: seq<byte>, oldLen: int, e: Entry)
      reads this, raw
      requires Valid() && EntryOk(e) && |before| == RAW_SIZE && HEADERS_LENGTH <= oldLen
      requires oldLen + |EncodeEntry(e)| <= RAW_SIZE
    {
      && rawLen == oldLen + |EncodeEntry(e)|
      && raw[..] == before[..oldLen] + EncodeEntry(e) + before[rawLen..]
    }

    /** _addInt: writes the sizeof(int) bytes of value at offset, most
        significant first, and returns how many it wrote. */
    method AddIntBytes(offset: nat, value: int16) returns (length: nat)
      requires raw.Length == RAW_SIZE && offset + INT_SIZE <= RAW_SIZE
      modifies raw
      ensures length == INT_SIZE
      ensures raw[..] == old(raw[..])[..offset] + IntBytes(value) + old(raw[..])[offset + INT_SIZE..]
    {
      for i := 0 to INT_SIZE
        invariant forall k :: 0 <= k < RAW_SIZE && !(offset + INT_SIZE - i <= k < offset + INT_SIZE) ==> raw[k] == old(raw[k])
        invariant forall k :: INT_SIZE - i <= k < INT_SIZE ==> raw[offset + k] == IntBytes(value)[k]
      {
        var shifted := if i == 0 then value else value / 256;
        raw[offset + INT_SIZE - 1 - i] := shifted % 256;
      }
      length := INT_SIZE;
    }

    /** addIntValue: appends 0x1F, t, sizeof(int) and the value. */
    method AddIntValue(t: byte, value: int16)
      requires Valid() && rawLen + 3 + INT_SIZE <= RAW_SIZE
      modifies this, raw
      ensures Valid() && Appended(old(raw[..]), old(rawLen), IntEntry(t, value))
    {
      raw[rawLen] := EXTENDED_TYPE;
      rawLen := rawLen + 1;
      raw[rawLen] := t;
      rawLen := rawLen + 1;
      var length := AddIntBytes(rawLen + 1, value);
      raw[rawLen] := length;
      rawLen := rawLen + 1 + length;
    }

    /** addDataTypeValue: an int entry of type DATATYPE holding t. */
    method AddDataTypeValue(t: byte)
      requires Valid() && rawLen + 3 + INT_SIZE <= RAW_SIZE
      modifies this, raw
      ensures Valid() && Appended(old(raw[..]), old(rawLen), IntEntry(DATATYPE, t))
    {
      AddIntValue(DATATYPE, t);
    }

    /** addFloatValue: appends 0x1F, t, 4 and the float's 32-bit pattern,
        least significant byte first. */
    method AddFloatValue(t: byte, bits: uint32)
      requires Valid() && rawLen + 7 <= RAW_SIZE
      modifies this, raw
      ensures Valid() && Appended(old(raw[..]), old(rawLen), FloatEntry(t, bits))
    {
      var at := rawLen;
      raw[at] := EXTENDED_TYPE;
      raw[at + 1] := t;
      raw[at + 2] := 4;
      raw[at + 3] := bits % 256;
      raw[at + 4] := (bits / 0x100) % 256;
      raw[at + 5] := (bits / 0x1_0000) % 256;
      raw[at + 6] := (bits / 0x100_0000) % 256;
      rawLen := at + 7;
      Splice(raw[..], old(raw[..]), at, EncodeEntry(FloatEntry(t, bits)));
    }

    /** addBoolValue: appends 0x1F, t, 1 and !!value. */
    method AddBoolValue(t: byte, value: int)
      requires Valid() && rawLen + 4 <= RAW_SIZE
      modifies this, raw
      ensures Valid() && Appended(old(raw[..]), old(rawLen), BoolEntry(t, value))
    {
      var at := rawLen;
      raw[at] := EXTENDED_TYPE;
      raw[at + 1] := t;
      raw[at + 2] := 1;
      raw[at + 3] := if value != 0 then 1 else 0;
      rawLen := at + 4;
      Splice(raw[..], old(raw[..]), at, EncodeEntry(BoolEntry(t, value)));
    }

    /** find: the num-th value of data type t, read as FindFrom reads it
        (floats by the corrected read). */
    method Find(t: byte, num: int) returns (r: FindResult)
      requires Valid()
      ensures r == FindFrom(raw[..], rawLen, HEADERS_LENGTH, t, num)
    {
      var pos := HEADERS_LENGTH;
      var n := num;
      var len: int;
      while pos < rawLen - 3
        invariant HEADERS_LENGTH <= pos
        invariant FindFrom(raw[..], rawLen, pos, t, n) == FindFrom(raw[..], rawLen, HEADERS_LENGTH, t, num)
        decreases rawLen - pos
      {
        var skip := false;
        if raw[pos] != EXTENDED_TYPE {
          pos := pos + 1;
          skip := true;
        } else {
          pos := pos + 2;
          if raw[pos - 1] != t {
            skip := true;
          } else {
            skip := n != 0;
            n := n - 1;
          }
        }
        if skip {
          len := raw[pos];
          pos := pos + 1;
          pos := pos + len;
          continue;
        }
        len := raw[pos];
        pos := pos + 1;
        if IsBoolType(t) {
          if pos + 1 > RAW_SIZE || len < 1 {
            return NotFound;
          }
          return Found(BoolValue(if raw[pos] != 0 then 1 else 0));
        } else if IsFloatType(t) {
          if pos + 4 > RAW_SIZE || len < 4 {
            return NotFound;
          }
          var floatVal: int := raw[pos];
          floatVal := floatVal + raw[pos + 1] as int * 0x100;
          floatVal := floatVal + raw[pos + 2] as int * 0x1_0000;
          floatVal := floatVal + raw[pos + 3] as int * 0x100_0000;
          return Found(FloatValue(floatVal));
        } else if IsIntType(t) {
          if pos + 2 > RAW_SIZE || len < 2 {
            return NotFound;
          }
          var intVal: int := raw[pos] as int * 256 + raw[pos + 1] as int;
          return Found(IntValue(AsInt16(intVal)));
        }
        return Found(NoValue);
      }
      return NotFound;
    }
  }
}
