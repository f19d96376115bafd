/** BER-TLV decoder for hexadecimal strings (Sensorino/python/tlv.py).

    The decoder reads a one- or two-byte tag and a short- or long-form
    length (the identifier- and length-octet rules of ITU-T X.690, sections
    8.1.2 and 8.1.3), slices out the value, recurses into constructed
    elements and records problems instead of aborting.  Offsets are counted
    in hex characters, two per byte, exactly as the Python code counts them.

    The pure parts (the slicing in get_one_tlv, emv_ber_len, strip_sw) are
    functions; the TLV object, whose parse loop appends to its item, error
    and warning lists, is a class proved equal to the function Build. */
module TlvDecoder {
  import opened Common

  // ---------------------------------------------------------------------
  // Python string operations

  /** Python's s[lo:hi] for non-negative bounds: out-of-range bounds clamp. */
  function Slice(s: string, lo: nat, hi: nat): string
  {
    if lo < hi && lo < |s| then s[lo..Min(hi, |s|)] else []
  }

  /** Python's s[:n]. */
  function Take(s: string, n: nat): string
  {
    s[..Min(n, |s|)]
  }

  /** Python's s[n:]. */
  function Drop(s: string, n: nat): string
  {
    if n < |s| then s[n..] else []
  }

  function UpperChar(c: char): char
  {
    if 'a' <= c <= 'z' then (c as int - 32) as char else c
  }

  /** Python's str.upper() on ASCII text. */
  function Upper(s: string): string
  {
    seq(|s|, i requires 0 <= i < |s| => UpperChar(s[i]))
  }

  // ---------------------------------------------------------------------
  // emv_int: int(s, 16)

  predicate IsHexDigit(c: char)
  {
    '0' <= c <= '9' || 'a' <= c <= 'f' || 'A' <= c <= 'F'
  }

  predicate AllHex(s: string)
  {
    forall i :: 0 <= i < |s| ==> IsHexDigit(s[i])
  }

  function DigitValue(c: char): nat
    requires IsHexDigit(c)
  {
    if '0' <= c <= '9' then c as int - '0' as int
    else if 'a' <= c <= 'f' then c as int - 'a' as int + 10
    else c as int - 'A' as int + 10
  }

  /** The number a string of hex digits denotes, most significant first. */
  function HexValue(s: string): nat
    requires AllHex(s)
    decreases |s|
  {
    if s == [] then 0 else HexValue(s[..|s| - 1]) * 16 + DigitValue(s[|s| - 1])
  }

  lemma HexValueOfTwoDigits(s: string)
    requires AllHex(s) && |s| <= 2
    ensures HexValue(s) < 256
  {
    if |s| == 2 {
      assert HexValue(s[..1]) < 16;
    }
  }

  /** Why reading one item failed: the ValueError that int() raises. */
  datatype Cause = InvalidLiteral(literal: string)

  /** emv_int: int(s, 16), which raises on an empty string or a non-digit. */
  function EmvInt(s: string): (r: Result<nat, Cause>)
    ensures r.Success? <==> s != [] && AllHex(s)
    ensures r.Failure? ==> r.error == InvalidLiteral(s)
  {
    if s != [] && AllHex(s) then Success(HexValue(s)) else Failure(InvalidLiteral(s))
  }

  // ---------------------------------------------------------------------
  // emv_ber_len and strip_sw

  /** A decoded length field: the content length and the number of
      subsequent length bytes (0 for the short form). */
  datatype LengthField = LengthField(length: nat, more: nat)

  /** emv_ber_len: a first byte below 128 is the length itself; otherwise
      its low seven bits count the big-endian length bytes that follow. */
  function EmvBerLen(s: string): (r: Result<LengthField, Cause>)
    ensures r.Success? ==> s != [] && r.value.more < 128
    ensures r.Success? && r.value.more == 0 ==>
              r.value.length < 128 && EmvInt(Take(s, 2)) == Success(r.value.length)
    ensures r.Success? && r.value.more > 0 ==>
              EmvInt(Take(s, 2)) == Success(128 + r.value.more)
              && EmvInt(Slice(s, 2, 2 * (r.value.more + 1))) == Success(r.value.length)
  {
    var first :- EmvInt(Take(s, 2));
    HexValueOfTwoDigits(Take(s, 2));
    if first < 128 then
      Success(LengthField(first, 0))
    else
      var more := first - 128;
      var n :- EmvInt(Slice(s, 2, (more + 1) * 2));
      Success(LengthField(n, more))
  }

  /** strip_sw: drop the two trailing status-word bytes (4 hex characters). */
  function StripSw(s: string): (r: string)
    ensures |r| == if |s| > 4 then |s| - 4 else 0
    ensures r == s[..|r|]
  {
    if |s| > 4 then s[..|s| - 4] else []
  }

  /** The buffer the top-level loop starts from. */
  function Start(hexstring: string, strip: bool): (r: string)
    ensures |r| <= |hexstring| && r == hexstring[..|r|]
    ensures !strip ==> r == hexstring
    ensures strip ==> |r| == if |hexstring| > 4 then |hexstring| - 4 else 0
  {
    if strip then StripSw(hexstring) else hexstring
  }

  // ---------------------------------------------------------------------
  // get_one_tlv

  /** What get_one_tlv returns, plus where the value starts. */
  datatype Step = Step(constructed: bool, tag: string, length: nat,
                       valueStart: nat, value: string, rest: string)

  /** The header get_one_tlv reads: tag, constructed bit, claimed length and
      where the value starts (in hex characters). */
  datatype Header = Header(constructed: bool, tag: string, length: nat, valueStart: nat)

  /** The tag is two bytes when the low five bits of the first byte are all
      set; the element is constructed when bit 0x20 is set; the value starts
      after the tag, the first length byte and the `more` length bytes. */
  function ReadHeader(h: string): (r: Result<Header, Cause>)
    ensures r.Success? ==> 4 <= r.value.valueStart && |h| > 2
    ensures r.Success? ==>
              && EmvInt(Upper(Take(h, 2))).Success?
              && var first := EmvInt(Upper(Take(h, 2))).value;
              && |r.value.tag| == (if first % 32 == 31 then 4 else 2)
              && |h| > |r.value.tag|
              && r.value.tag == Upper(h[..|r.value.tag|])
              && r.value.constructed == (first / 32 % 2 == 1)
  {
    var first :- EmvInt(Upper(Take(h, 2)));
    var width := if first % 32 == 31 then 4 else 2;
    var lf :- EmvBerLen(Drop(h, width));
    Success(Header(first / 32 % 2 == 1, Upper(Take(h, width)), lf.length, width + 2 + 2 * lf.more))
  }

  /** Header, value and rest cut from one buffer always give it back, and
      the value falls short of the claimed width only at the end. */
  lemma {:induction false} SliceIdentity(h: string, a: nat, b: nat)
    requires a <= b
    ensures Take(h, a) + Slice(h, a, b) + Drop(h, b) == h
    ensures |Slice(h, a, b)| <= b - a
    ensures |Slice(h, a, b)| < b - a ==> Drop(h, b) == []
  {
    if b <= |h| {
      assert h == h[..a] + h[a..b] + h[b..];
    } else if a <= |h| {
      assert h == h[..a] + h[a..];
    }
  }

  /** get_one_tlv without its warning side effect. */
  function SplitTlv(h: string): (r: Result<Step, Cause>)
    ensures r.Success? ==>
              && 4 <= r.value.valueStart
              && |r.value.value| <= 2 * r.value.length
              && |r.value.value| < |h|
              && |r.value.rest| < |h|
              && (|r.value.value| < 2 * r.value.length ==> r.value.rest == [])
  {
    var hd :- ReadHeader(h);
    var end := hd.valueStart + 2 * hd.length;
    SliceIdentity(h, hd.valueStart, end);
    Success(Step(hd.constructed, hd.tag, hd.length, hd.valueStart,
                 Slice(h, hd.valueStart, end), Drop(h, end)))
  }

  /** Nothing is lost or invented: the header, the value and the rest
      that get_one_tlv cuts out concatenate back to its input. */
  lemma SplitTlvCovers(h: string)
    ensures var r := SplitTlv(h);
      r.Success? ==> Take(h, r.value.valueStart) + r.value.value + r.value.rest == h
  {
    var r := SplitTlv(h);
    if r.Success? {
      var hd := ReadHeader(h).value;
      SliceIdentity(h, hd.valueStart, hd.valueStart + 2 * hd.length);
    }
  }

  // ---------------------------------------------------------------------
  // Signed lengths, as tlv.py reads them
  //
  // Python 2's int(s, 16) also accepts a sign, so a length field such as
  // "-2" decodes to a negative length, and the slices of get_one_tlv then
  // count from the end of the buffer or clamp to its start.  The functions
  // below keep the sign; the rest of the model rejects it (see SplitTlv).

  /** int(s, 16) with an optional leading sign: "-2" is -2.  It agrees
      with EmvInt wherever EmvInt accepts, and a negative result needs a
      minus sign. */
  function PyHexInt(s: string): (r: Result<int, Cause>)
    ensures EmvInt(s).Success? ==> r == Success(EmvInt(s).value)
    ensures r.Success? && r.value < 0 ==> 2 <= |s| && s[0] == '-'
  {
    if s != [] && AllHex(s) then Success(HexValue(s))
    else if 2 <= |s| && (s[0] == '-' || s[0] == '+') && AllHex(s[1..]) then
      var v: int := if s[0] == '-' then 0 - HexValue(s[1..]) as int else HexValue(s[1..]);
      Success(v)
    else Failure(InvalidLiteral(s))
  }

  /** Python's normalisation of a slice bound: a negative bound counts
      from the end, and both ends clamp to the string. */
  function PyBound(i: int, n: nat): (b: nat)
    ensures b <= n
    ensures 0 <= i ==> b == Min(i, n)
    ensures i < 0 ==> b == Max0(n + i)
  {
    if i < 0 then Max0(n + i) else Min(i, n)
  }

  /** Python's s[lo:hi] for any integer bounds. */
  function PySlice(s: string, lo: int, hi: int): (r: string)
    ensures 0 <= lo && 0 <= hi ==> r == Slice(s, lo, hi)
    ensures |r| <= |s|
  {
    var a := PyBound(lo, |s|);
    var b := PyBound(hi, |s|);
    if a < b then s[a..b] else []
  }

  /** Python's s[lo:] for any integer bound. */
  function PyDrop(s: string, lo: int): (r: string)
    ensures 0 <= lo ==> r == Drop(s, lo)
    ensures |r| <= |s|
  {
    s[PyBound(lo, |s|)..]
  }

  /** emv_ber_len as written, whose short-form length may be negative. */
  function EmvBerLenAsWritten(s: string): (r: Result<(int, nat), Cause>)
    ensures EmvBerLen(s).Success? ==>
              r == Success((EmvBerLen(s).value.length, EmvBerLen(s).value.more))
  {
    var first :- PyHexInt(Take(s, 2));
    if first < 128 then
      Success((first, 0))
    else
      var more := first - 128;
      var n :- PyHexInt(PySlice(s, 2, (more + 1) * 2));
      Success((n, more))
  }

  /** What get_one_tlv returns, with the claimed length as Python holds it. */
  datatype RawStep = RawStep(constructed: bool, tag: string, length: int, value: string, rest: string)

  /** get_one_tlv as written: the slices of lines 113-114 and 119-120 with
      the signed length.  The rest is never longer than the buffer. */
  function SplitTlvAsWritten(h: string): (r: Result<RawStep, Cause>)
    ensures r.Success? ==> |r.value.rest| <= |h|
  {
    var first :- PyHexInt(Upper(Take(h, 2)));
    var lf :- EmvBerLenAsWritten(Drop(h, TagWidth(first)));
    Success(Cut(h, first, lf.0, lf.1))
  }

  /** Two hex characters of tag, or four when the low five bits of its
      first byte are all set. */
  function TagWidth(first: int): nat
  {
    if first % 32 == 31 then 4 else 2
  }

  /** The element get_one_tlv cuts from h once it has read the first tag
      byte and the length field. */
  function Cut(h: string, first: int, length: int, more: nat): (r: RawStep)
    ensures |r.rest| <= |h|
  {
    var width := TagWidth(first);
    var start := width + 2 + 2 * more;
    var end := start + 2 * length;
    RawStep(first / 32 % 2 == 1, Upper(Take(h, width)), length, PySlice(h, start, end), PyDrop(h, end))
  }

  /** Whether the loop of TLV.parse as written, started on buffer `rest`,
      is still looping after n turns (the nested parse of a constructed
      value is taken to return). */
  predicate LoopsAsWritten(rest: string, n: nat)
  {
    n == 0 ||
    (rest != [] && SplitTlvAsWritten(rest).Success? && LoopsAsWritten(SplitTlvAsWritten(rest).value.rest, n - 1))
  }

  // ---------------------------------------------------------------------
  // The decoded tree

  /** A value that get_one_tlv could not fill completely. */
  datatype Warning = ShortValue(tag: string, expected: nat, got: nat)

  /** An item that could not be read; orig is the untouched remaining buffer. */
  datatype Error = FailedItem(orig: string, cause: Cause)

  /** A primitive value (or the sentinel's raw remainder), or a nested TLV. */
  datatype Payload = Value(hex: string) | Nested(tlv: Tree)

  /** (tag, payload); the sentinel after a failure has no tag. */
  datatype Item = Item(tag: Option<string>, payload: Payload)

  /** A TLV object once constructed: it is never changed afterwards. */
  datatype Tree = Tree(hexstring: string, items: seq<Item>, errors: seq<Error>, warnings: seq<Warning>)

  /** What one nesting level's parse loop appends. */
  datatype Level = Level(items: seq<Item>, errors: seq<Error>, warnings: seq<Warning>)

  function ShortValueWarning(st: Step): seq<Warning>
  {
    if |st.value| != 2 * st.length then [ShortValue(st.tag, st.length, |st.value| / 2)] else []
  }

  /** TLV(hexstring, strip): the object the constructor builds. */
  function Build(hexstring: string, strip: bool): Tree
    decreases |hexstring|, 1
  {
    var l := ParseLevel(Start(hexstring, strip));
    Tree(hexstring, l.items, l.errors, l.warnings)
  }

  /** The parse loop from buffer `rest` on: one item per successful step, a
      nested TLV for a constructed one, and on the first failure one error
      and a sentinel item, after which the level stops. */
  function ParseLevel(rest: string): Level
    decreases |rest|, 0
  {
    if rest == [] then Level([], [], [])
    else
      match SplitTlv(rest)
      case Failure(cause) => Level([Item(None, Value(rest))], [FailedItem(rest, cause)], [])
      case Success(st) =>
        var tail := ParseLevel(st.rest);
        Level([Item(Some(st.tag), PayloadOf(st))] + tail.items, tail.errors,
              ShortValueWarning(st) + tail.warnings)
  }

  /** A constructed value is parsed recursively, without stripping; a
      primitive value is kept as it is. */
  function PayloadOf(st: Step): Payload
    decreases |st.value|, 2
  {
    if st.constructed then Nested(Build(st.value, false)) else Value(st.value)
  }

  /** What the parse loop still has to produce: nothing once it stopped. */
  function Remaining(next: Option<string>): Level
  {
    if next.Some? then ParseLevel(next.value) else Level([], [], [])
  }

  /** One turn of the parse loop, as ParseLevel describes it. */
  lemma ParseLevelStep(rest: string)
    requires rest != []
    ensures SplitTlv(rest).Failure? ==>
      ParseLevel(rest) == Level([Item(None, Value(rest))], [FailedItem(rest, SplitTlv(rest).error)], [])
    ensures SplitTlv(rest).Success? ==>
      var st := SplitTlv(rest).value;
      && ParseLevel(rest).items == [Item(Some(st.tag), PayloadOf(st))] + ParseLevel(st.rest).items
      && ParseLevel(rest).errors == ParseLevel(st.rest).errors
      && ParseLevel(rest).warnings == ShortValueWarning(st) + ParseLevel(st.rest).warnings
      && PayloadOf(st) == (if st.constructed then Nested(Build(st.value, false)) else Value(st.value))
  {
  }

  /** The TLV object of tlv.py: its constructor runs the parse loop, which
      appends to items, errors and warnings. */
  class Tlv {
    var hexstring: string
    var errors: seq<Error>
    var warnings: seq<Warning>
    var items: seq<Item>

    function AsTree(): Tree
      reads this
    {
      Tree(hexstring, items, errors, warnings)
    }

    constructor (hexstring: string, strip: bool)
      ensures AsTree() == Build(hexstring, strip)
      decreases |hexstring|, 2
    {
      this.hexstring := hexstring;
      errors, warnings, items := [], [], [];
      new;
      Parse(hexstring, strip);
      ghost var level := ParseLevel(Start(hexstring, strip));
      assert items == level.items && errors == level.errors && warnings == level.warnings by {
        assert [] + level.items == level.items;
        assert [] + level.errors == level.errors;
        assert [] + level.warnings == level.warnings;
      }
    }

    /** TLV.parse: appends the level's items, errors and warnings. */
    method Parse(hexstring: string, strip: bool)
      modifies this
      decreases |hexstring|, 1
      ensures this.hexstring == old(this.hexstring)
      ensures items == old(items) + ParseLevel(Start(hexstring, strip)).items
      ensures errors == old(errors) + ParseLevel(Start(hexstring, strip)).errors
      ensures warnings == old(warnings) + ParseLevel(Start(hexstring, strip)).warnings
    {
      ghost var whole := ParseLevel(Start(hexstring, strip));
      var rest := Start(hexstring, strip);
      while rest != []
        invariant |rest| <= |hexstring|
        invariant this.hexstring == old(this.hexstring)
        invariant items + ParseLevel(rest).items == old(items) + whole.items
        invariant errors + ParseLevel(rest).errors == old(errors) + whole.errors
        invariant warnings + ParseLevel(rest).warnings == old(warnings) + whole.warnings
        decreases |rest|
      {
        var next := ParseOne(rest);
        if next.None? {
          return;
        }
        rest := next.value;
      }
    }

    /** One turn of the loop of TLV.parse: on a failed step an error and a
        sentinel item holding the whole remaining buffer, and the loop stops
        (None); otherwise the item, parsed as a nested TLV when constructed,
        and the rest of the buffer. */
    method ParseOne(rest: string) returns (next: Option<string>)
      requires rest != []
      modifies this
      decreases |rest|, 0
      ensures this.hexstring == old(this.hexstring)
      ensures next.Some? ==> |next.value| < |rest|
      ensures items + Remaining(next).items == old(items) + ParseLevel(rest).items
      ensures errors + Remaining(next).errors == old(errors) + ParseLevel(rest).errors
      ensures warnings + Remaining(next).warnings == old(warnings) + ParseLevel(rest).warnings
    {
      ParseLevelStep(rest);
      var r := GetOneTlv(rest);
      ghost var level := ParseLevel(rest);
      if r.Failure? {
        assert warnings == old(warnings) && level.warnings == [];
        errors := errors + [FailedItem(rest, r.error)];
        items := items + [Item(None, Value(rest))];
        return None;
      }
      ghost var tail := ParseLevel(r.value.rest).warnings;
      ghost var short := ShortValueWarning(r.value);
      assert warnings == old(warnings) + short;
      assert level.warnings == short + tail;
      assert warnings + tail == old(warnings) + level.warnings by {
        AppendAssoc(old(warnings), short, tail);
      }
      ghost var item := Item(Some(r.value.tag), PayloadOf(r.value));
      assert level.items == [item] + ParseLevel(r.value.rest).items;
      AppendItem(r.value);
      assert items + ParseLevel(r.value.rest).items == old(items) + level.items by {
        AppendAssoc(old(items), [item], ParseLevel(r.value.rest).items);
      }
      next := Some(r.value.rest);
    }

    /** Appends the item of a successful step: a constructed value becomes a
        nested TLV object, whose parse is the level function's PayloadOf. */
    method AppendItem(st: Step)
      modifies this`items
      decreases |st.value|, 3
      ensures items == old(items) + [Item(Some(st.tag), PayloadOf(st))]
    {
      var parsedItem: Payload;
      if st.constructed {
        var sub := new Tlv(st.value, false);
        parsedItem := Nested(sub.AsTree());
      } else {
        parsedItem := Value(st.value);
      }
      items := items + [Item(Some(st.tag), parsedItem)];
    }

    /** TLV.get_one_tlv: one step, plus a "Short value" warning when the
        buffer ran out before the claimed length. */
    method GetOneTlv(hexstring: string) returns (r: Result<Step, Cause>)
      modifies this`warnings
      ensures r == SplitTlv(hexstring)
      ensures warnings == old(warnings) + (if r.Success? then ShortValueWarning(r.value) else [])
    {
      r := SplitTlv(hexstring);
      if r.Success? && |r.value.value| != 2 * r.value.length {
        warnings := warnings + [ShortValue(r.value.tag, r.value.length, |r.value.value| / 2)];
      }
    }
  }
}
