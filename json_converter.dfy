/** The JSON side of the base station (Base/MessageJsonConverter.cpp):
    the character-level framer that cuts the serial stream into JSON
    objects (putch), the header written for an outgoing message
    (headerToJson) and the header checks applied to an incoming JSON tree
    (jsonToMessage).  Parsing the framed text (aJson.parse) is a library
    call outside the model: the framer records the text it would hand
    over. */
module JsonConverter {
  import opened Common
  import MessageBuffer

  // ---------------------------------------------------------------------
  // The putch framer

  /** sizeof(obj_str). */
  const OBJ_STR_SIZE := 128

  const NUL: byte := 0
  const SPACE: byte := 0x20
  const QUOTE: byte := 0x22
  const BACKSLASH: byte := 0x5C
  const OPEN_PAREN: byte := 0x28
  const CLOSE_PAREN: byte := 0x29
  const OPEN_BRACKET: byte := 0x5B
  const CLOSE_BRACKET: byte := 0x5D
  const OPEN_BRACE: byte := 0x7B
  const CLOSE_BRACE: byte := 0x7D

  predicate IsOpener(c: byte)
  {
    c == OPEN_BRACE || c == OPEN_BRACKET || c == OPEN_PAREN
  }

  predicate IsCloser(c: byte)
  {
    c == CLOSE_BRACE || c == CLOSE_BRACKET || c == CLOSE_PAREN
  }

  /** nest_depth++ on an 8-bit counter. */
  function Inc8(d: byte): (r: byte)
    ensures r == (d + 1) % 256
  {
    if d == 255 then 0 else d + 1
  }

  /** nest_depth-- on an 8-bit counter. */
  function Dec8(d: byte): (r: byte)
    ensures r == (d + 255) % 256
  {
    if d == 0 then 255 else d - 1
  }

  /** The framer's state: the characters of the object collected so far,
      the nesting depth (an 8-bit counter compared as int8_t), whether the
      scan is inside a string and just after a backslash, and the text of
      the first completed object, the one putch hands to aJson.parse (obj
      is set once and never replaced). */
  datatype Framer = Framer(text: seq<byte>, depth: byte, quote: bool, escape: bool, obj: Option<seq<byte>>)

  /** The state the constructor sets up. */
  const Initial := Framer([], 0, false, false, None)

  /** The handling of a character outside a string that is neither a quote
      nor an escape: openers count up, closers count down, and a closer
      that brings the depth (read as int8_t) to zero or below completes an
      object: the buffer is emptied and the depth zeroed every time, and
      the text becomes the object only when none is pending. */
  function Bracket(f: Framer, chr: byte, text: seq<byte>): (g: Framer)
    ensures IsOpener(chr) ==> g == f.(text := text, depth := Inc8(f.depth))
    ensures IsCloser(chr) && AsInt8(Dec8(f.depth)) > 0 ==> g == f.(text := text, depth := Dec8(f.depth))
    ensures IsCloser(chr) && AsInt8(Dec8(f.depth)) <= 0 ==>
              g == Framer([], 0, f.quote, f.escape, if f.obj.None? then Some(text) else f.obj)
    ensures !IsOpener(chr) && !IsCloser(chr) ==> g == f.(text := text)
  {
    if IsOpener(chr) then f.(text := text, depth := Inc8(f.depth))
    else if IsCloser(chr) then
      var d := Dec8(f.depth);
      if AsInt8(d) <= 0 then
        Framer([], 0, f.quote, f.escape, if f.obj.None? then Some(text) else f.obj)
      else f.(text := text, depth := d)
    else f.(text := text)
  }

  /** Whether putch stores the character: inside a string always, outside
      only above ' ', and only while the buffer has room for it and the
      terminating NUL. */
  predicate Stores(f: Framer, chr: byte)
  {
    (f.quote || chr > SPACE) && |f.text| < OBJ_STR_SIZE - 1
  }

  /** putch as written: inside a string a backslash sets escape, and
      nothing ever clears it. */
  function Step(f: Framer, chr: byte): (g: Framer)
    ensures !Stores(f, chr) ==> g == f
    ensures Stores(f, chr) && f.quote && !f.escape && chr == BACKSLASH ==>
              g == f.(text := f.text + [chr], escape := true)
    ensures Stores(f, chr) && !f.escape && chr == QUOTE ==>
              g == f.(text := f.text + [chr], quote := !f.quote)
    ensures Stores(f, chr) && f.quote && (f.escape || (chr != QUOTE && chr != BACKSLASH)) ==>
              g == f.(text := f.text + [chr])
    ensures Stores(f, chr) && !f.quote && (f.escape || chr != QUOTE) ==>
              g == Bracket(f, chr, f.text + [chr])
    ensures |f.text| < OBJ_STR_SIZE ==> |g.text| < OBJ_STR_SIZE
    ensures f.obj.Some? ==> g.obj == f.obj
    ensures g.obj != f.obj ==> g.text == [] && g.obj == Some(f.text + [chr]) && IsCloser(chr)
  {
    if !f.quote && chr <= SPACE then f
    else if |f.text| >= OBJ_STR_SIZE - 1 then f
    else
      var text := f.text + [chr];
      if f.quote && !f.escape && chr == BACKSLASH then f.(text := text, escape := true)
      else if !f.escape && chr == QUOTE then f.(text := text, quote := !f.quote)
      else if !f.quote then Bracket(f, chr, text)
      else f.(text := text)
  }

  /** putch with the escape lasting for one character: the character after
      a backslash is stored and has no other effect. */
  function StepFixed(f: Framer, chr: byte): (g: Framer)
    ensures !Stores(f, chr) ==> g == f
    ensures Stores(f, chr) && f.escape ==> g == f.(text := f.text + [chr], escape := false)
    ensures Stores(f, chr) && !f.escape && f.quote && chr == BACKSLASH ==>
              g == f.(text := f.text + [chr], escape := true)
    ensures Stores(f, chr) && !f.escape && chr == QUOTE ==>
              g == f.(text := f.text + [chr], quote := !f.quote)
    ensures Stores(f, chr) && !f.escape && f.quote && chr != QUOTE && chr != BACKSLASH ==>
              g == f.(text := f.text + [chr])
    ensures Stores(f, chr) && !f.escape && !f.quote && chr != QUOTE ==>
              g == Bracket(f, chr, f.text + [chr])
    ensures |f.text| < OBJ_STR_SIZE ==> |g.text| < OBJ_STR_SIZE
    ensures f.obj.Some? ==> g.obj == f.obj
    ensures g.obj != f.obj ==> g.text == [] && g.obj == Some(f.text + [chr]) && IsCloser(chr)
  {
    if !f.quote && chr <= SPACE then f
    else if |f.text| >= OBJ_STR_SIZE - 1 then f
    else
      var text := f.text + [chr];
      if f.escape then f.(text := text, escape := false)
      else if f.quote && chr == BACKSLASH then f.(text := text, escape := true)
      else if chr == QUOTE then f.(text := text, quote := !f.quote)
      else if !f.quote then Bracket(f, chr, text)
      else f.(text := text)
  }

  /** The framer fed a whole input, with the code as written or with the
      corrected escape handling. */
  function Run(fixed: bool, f: Framer, cs: seq<byte>): Framer
    decreases |cs|
  {
    if cs == [] then f
    else Run(fixed, if fixed then StepFixed(f, cs[0]) else Step(f, cs[0]), cs[1..])
  }

  lemma {:induction false} RunAppend(fixed: bool, f: Framer, a: seq<byte>, b: seq<byte>)
    ensures Run(fixed, f, a + b) == Run(fixed, Run(fixed, f, a), b)
    decreases |a|
  {
    if a != [] {
      assert (a + b)[0] == a[0] && (a + b)[1..] == a[1..] + b;
      RunAppend(fixed, if fixed then StepFixed(f, a[0]) else Step(f, a[0]), a[1..], b);
    } else {
      assert a + b == b;
    }
  }

  /** Characters with no effect on the framer but being stored: no
      whitespace, quote, backslash or bracket. */
  predicate Plain(s: seq<byte>)
  {
    forall k :: 0 <= k < |s| ==>
      s[k] > SPACE && s[k] != QUOTE && s[k] != BACKSLASH && !IsOpener(s[k]) && !IsCloser(s[k])
  }

  /** Outside a string, plain characters are appended while they fit. */
  lemma {:induction false} PlainRun(fixed: bool, f: Framer, s: seq<byte>)
    requires !f.quote && !f.escape && Plain(s) && |f.text| + |s| < OBJ_STR_SIZE
    ensures Run(fixed, f, s) == f.(text := f.text + s)
    decreases |s|
  {
    if s != [] {
      var g := f.(text := f.text + [s[0]]);
      assert (if fixed then StepFixed(f, s[0]) else Step(f, s[0])) == g;
      PlainRun(fixed, g, s[1..]);
      assert g.text + s[1..] == f.text + s;
    }
  }

  /** One unit of a string's contents: a character stored as it is, or
      an escape pair, a backslash and the character it escapes. */
  datatype StrUnit = Ch(c: byte) | Esc(c: byte)

  /** JSON text as the framer sees it: a character that is only stored, a
      whitespace character, a string (the units between its two quotes),
      or a bracketed group. */
  datatype Piece =
    | Atom(c: byte)
    | Blank(c: byte)
    | Str(units: seq<StrUnit>)
    | Group(open: byte, body: seq<Piece>, close: byte)

  /** A string unit is a character other than quote and backslash, or an
      escape pair where escapes are allowed. */
  predicate UnitOk(u: StrUnit, escapes: bool)
  {
    match u
    case Ch(c) => c != QUOTE && c != BACKSLASH
    case Esc(_) => escapes
  }

  /** Well-formed text; escape pairs in strings only when `escapes`. */
  predicate PieceOk(p: Piece, escapes: bool)
    decreases p
  {
    match p
    case Atom(c) => c > SPACE && c != QUOTE && c != BACKSLASH && !IsOpener(c) && !IsCloser(c)
    case Blank(c) => c <= SPACE
    case Str(units) => forall k :: 0 <= k < |units| ==> UnitOk(units[k], escapes)
    case Group(o, body, c) => IsOpener(o) && IsCloser(c) && PiecesOk(body, escapes)
  }

  predicate PiecesOk(ps: seq<Piece>, escapes: bool)
    decreases ps
  {
    forall k :: 0 <= k < |ps| ==> PieceOk(ps[k], escapes)
  }

  /** The characters of a string's contents. */
  function Units(us: seq<StrUnit>): seq<byte>
    decreases |us|
  {
    if us == [] then []
    else (match us[0] case Ch(c) => [c] case Esc(c) => [BACKSLASH, c]) + Units(us[1..])
  }

  /** The characters of a piece, as they arrive on the serial line. */
  function Text(p: Piece): seq<byte>
    decreases p
  {
    match p
    case Atom(c) => [c]
    case Blank(c) => [c]
    case Str(units) => [QUOTE] + Units(units) + [QUOTE]
    case Group(o, body, c) => [o] + Texts(body) + [c]
  }

  function Texts(ps: seq<Piece>): seq<byte>
    decreases ps
  {
    if ps == [] then [] else Text(ps[0]) + Texts(ps[1..])
  }

  /** The characters of a piece without the whitespace outside strings. */
  function Compact(p: Piece): seq<byte>
    decreases p
  {
    match p
    case Atom(c) => [c]
    case Blank(c) => []
    case Str(units) => [QUOTE] + Units(units) + [QUOTE]
    case Group(o, body, c) => [o] + Compacts(body) + [c]
  }

  function Compacts(ps: seq<Piece>): seq<byte>
    decreases ps
  {
    if ps == [] then [] else Compact(ps[0]) + Compacts(ps[1..])
  }

  lemma RunOne(fixed: bool, f: Framer, chr: byte)
    ensures Run(fixed, f, [chr]) == if fixed then StepFixed(f, chr) else Step(f, chr)
  {
    assert [chr][1..] == [];
  }

  /** Inside a string, its contents are stored as they are, whitespace
      and brackets included, and leave the depth alone; escape pairs are
      allowed with the corrected escape only. */
  lemma {:induction false} QuotedRun(fixed: bool, f: Framer, us: seq<StrUnit>)
    requires f.quote && !f.escape && |f.text| + |Units(us)| < OBJ_STR_SIZE
    requires forall k :: 0 <= k < |us| ==> UnitOk(us[k], fixed)
    ensures Run(fixed, f, Units(us)) == f.(text := f.text + Units(us))
    decreases |us|
  {
    if us != [] {
      var head := match us[0] case Ch(c) => [c] case Esc(c) => [BACKSLASH, c];
      var g := f.(text := f.text + head);
      assert UnitOk(us[0], fixed);
      match us[0] {
        case Ch(c) =>
          RunOne(fixed, f, c);
        case Esc(c) =>
          var e := f.(text := f.text + [BACKSLASH], escape := true);
          RunOne(true, f, BACKSLASH);
          RunOne(true, e, c);
          RunAppend(true, f, [BACKSLASH], [c]);
          assert [BACKSLASH] + [c] == head;
          assert e.text + [c] == g.text;
      }
      assert Run(fixed, f, head) == g;
      assert forall k :: 0 <= k < |us[1..]| ==> UnitOk(us[1..][k], fixed) by {
        forall k | 0 <= k < |us[1..]| ensures UnitOk(us[1..][k], fixed) {
          assert us[1..][k] == us[k + 1];
        }
      }
      QuotedRun(fixed, g, us[1..]);
      RunAppend(fixed, f, head, Units(us[1..]));
      AppendAssoc(f.text, head, Units(us[1..]));
    } else {
      assert f.text + [] == f.text;
    }
  }

  /** Inside an object (depth at least 1, and no deeper than the text
      collected, outside strings) a well-formed piece is collected without
      its outer whitespace and leaves the depth as it was. */
  lemma {:induction false} RunPiece(fixed: bool, f: Framer, p: Piece)
    requires !f.quote && !f.escape && 1 <= f.depth <= |f.text|
    requires PieceOk(p, fixed) && |f.text| + |Compact(p)| < OBJ_STR_SIZE
    ensures Run(fixed, f, Text(p)) == f.(text := f.text + Compact(p))
    decreases p, 1
  {
    match p
    case Atom(c) =>
      RunOne(fixed, f, c);
    case Blank(c) =>
      RunOne(fixed, f, c);
      assert f.text + [] == f.text;
    case Str(us) =>
      RunString(fixed, f, us);
    case Group(o, body, c) =>
      RunGroup(fixed, f, o, body, c);
  }

  lemma RunString(fixed: bool, f: Framer, us: seq<StrUnit>)
    requires !f.quote && !f.escape
    requires PieceOk(Str(us), fixed) && |f.text| + |Units(us)| + 2 < OBJ_STR_SIZE
    ensures Run(fixed, f, [QUOTE] + Units(us) + [QUOTE]) == f.(text := f.text + ([QUOTE] + Units(us) + [QUOTE]))
  {
    var chars := Units(us);
    var g := f.(text := f.text + [QUOTE], quote := true);
    RunOne(fixed, f, QUOTE);
    QuotedRun(fixed, g, us);
    var h := g.(text := g.text + chars);
    RunOne(fixed, h, QUOTE);
    RunAppend(fixed, f, [QUOTE], chars);
    RunAppend(fixed, f, [QUOTE] + chars, [QUOTE]);
    assert h.text + [QUOTE] == f.text + ([QUOTE] + chars + [QUOTE]);
  }

  lemma {:induction false} RunGroup(fixed: bool, f: Framer, o: byte, body: seq<Piece>, c: byte)
    requires !f.quote && !f.escape && 1 <= f.depth <= |f.text|
    requires PieceOk(Group(o, body, c), fixed) && |f.text| + |Compacts(body)| + 2 < OBJ_STR_SIZE
    ensures Run(fixed, f, [o] + Texts(body) + [c]) == f.(text := f.text + ([o] + Compacts(body) + [c]))
    decreases Group(o, body, c), 0
  {
    var g := f.(text := f.text + [o], depth := Inc8(f.depth));
    RunOne(fixed, f, o);
    assert g.depth == f.depth + 1;
    RunPieces(fixed, g, body);
    var h := g.(text := g.text + Compacts(body));
    assert Dec8(h.depth) == f.depth && AsInt8(f.depth) > 0;
    RunOne(fixed, h, c);
    RunAppend(fixed, f, [o], Texts(body));
    RunAppend(fixed, f, [o] + Texts(body), [c]);
    assert h.text + [c] == f.text + ([o] + Compacts(body) + [c]);
  }

  lemma {:induction false} RunPieces(fixed: bool, f: Framer, ps: seq<Piece>)
    requires !f.quote && !f.escape && 1 <= f.depth <= |f.text|
    requires PiecesOk(ps, fixed) && |f.text| + |Compacts(ps)| < OBJ_STR_SIZE
    ensures Run(fixed, f, Texts(ps)) == f.(text := f.text + Compacts(ps))
    decreases ps, 1
  {
    if ps != [] {
      assert PieceOk(ps[0], fixed);
      RunPiece(fixed, f, ps[0]);
      var g := f.(text := f.text + Compact(ps[0]));
      assert PiecesOk(ps[1..], fixed) by {
        forall k | 0 <= k < |ps[1..]| ensures PieceOk(ps[1..][k], fixed) {
          assert ps[1..][k] == ps[k + 1];
        }
      }
      RunPieces(fixed, g, ps[1..]);
      RunAppend(fixed, f, Text(ps[0]), Texts(ps[1..]));
      AppendAssoc(f.text, Compact(ps[0]), Compacts(ps[1..]));
    } else {
      assert f.text + [] == f.text;
    }
  }

  /** Between objects (empty buffer, depth 0, outside strings) a bracketed
      group of well-formed pieces whose text without outer whitespace fits
      the 128-byte buffer with its NUL is framed whole: it becomes the
      object unless one is pending, and the framer is ready for the next
      object.  With the corrected escape this holds for strings with
      escape pairs too; as written, only for strings without a backslash
      (EscapeNeverClears shows why). */
  lemma FramesObject(fixed: bool, f: Framer, o: byte, body: seq<Piece>, c: byte)
    requires f.text == [] && f.depth == 0 && !f.quote && !f.escape
    requires PieceOk(Group(o, body, c), fixed) && |Compact(Group(o, body, c))| < OBJ_STR_SIZE
    ensures Run(fixed, f, Text(Group(o, body, c)))
            == f.(obj := if f.obj.None? then Some(Compact(Group(o, body, c))) else f.obj)
  {
    var g := f.(text := [o], depth := 1);
    RunOne(fixed, f, o);
    assert f.text + [o] == [o];
    assert Run(fixed, f, [o]) == g;
    RunPieces(fixed, g, body);
    var h := g.(text := [o] + Compacts(body));
    assert Compact(Group(o, body, c)) == h.text + [c];
    assert Dec8(h.depth) == 0;
    RunOne(fixed, h, c);
    assert Run(fixed, h, [c]) == Framer([], 0, false, false, if f.obj.None? then Some(h.text + [c]) else f.obj);
    RunAppend(fixed, f, [o], Texts(body));
    RunAppend(fixed, f, [o] + Texts(body), [c]);
    assert Text(Group(o, body, c)) == [o] + Texts(body) + [c];
  }

  /** A stream of such objects: a fresh framer keeps the first one as its
      object and ends ready for the next. */
  lemma {:induction false} FramesStream(fixed: bool, f: Framer, objs: seq<Piece>)
    requires f.text == [] && f.depth == 0 && !f.quote && !f.escape
    requires forall k :: 0 <= k < |objs| ==>
               objs[k].Group? && PieceOk(objs[k], fixed) && |Compact(objs[k])| < OBJ_STR_SIZE
    ensures Run(fixed, f, Texts(objs))
            == f.(obj := if f.obj.None? && objs != [] then Some(Compact(objs[0])) else f.obj)
    decreases |objs|
  {
    if objs != [] {
      var p := objs[0];
      FramesObject(fixed, f, p.open, p.body, p.close);
      var g := f.(obj := if f.obj.None? then Some(Compact(p)) else f.obj);
      FramesStream(fixed, g, objs[1..]);
      RunAppend(fixed, f, Text(p), Texts(objs[1..]));
    }
  }

  /** The members of `{"to": 1}`: the string "to", a colon, a space and
      the digit 1. */
  const ToOneBody := [Str([Ch(0x74), Ch(0x6F)]), Atom(0x3A), Blank(SPACE), Atom(0x31)]

  lemma ToOneBodyText()
    ensures PiecesOk(ToOneBody, false) && PiecesOk(ToOneBody, true)
    ensures Texts(ToOneBody) == [QUOTE, 0x74, 0x6F, QUOTE, 0x3A, SPACE, 0x31]
    ensures Compacts(ToOneBody) == [QUOTE, 0x74, 0x6F, QUOTE, 0x3A, 0x31]
  {
    var b3 := [Atom(0x31)];
    var b2 := [Blank(SPACE)] + b3;
    var b1 := [Atom(0x3A)] + b2;
    assert b3[1..] == [] && b2[1..] == b3 && b1[1..] == b2 && ToOneBody[1..] == b1;
    assert Texts(b3) == [0x31];
    assert Compacts(b3) == [0x31];
    assert Texts(b2) == [SPACE] + Texts(b3);
    assert Compacts(b2) == [] + Compacts(b3);
    assert Texts(b1) == [0x3A] + Texts(b2);
    assert Compacts(b1) == [0x3A] + Compacts(b2);
    assert Units([Ch(0x6F)]) == [0x6F] by { assert [Ch(0x6F)][1..] == []; }
    assert Units([Ch(0x74), Ch(0x6F)]) == [0x74, 0x6F] by { assert [Ch(0x74), Ch(0x6F)][1..] == [Ch(0x6F)]; }
    assert Text(ToOneBody[0]) == [QUOTE, 0x74, 0x6F, QUOTE];
    assert PieceOk(ToOneBody[0], false) && PieceOk(ToOneBody[0], true);
  }

  /** `{"to": 1}` from a fresh framer: the object is its text without the
      space. */
  lemma FramesToMember(fixed: bool)
    ensures Run(fixed, Initial, [OPEN_BRACE, QUOTE, 0x74, 0x6F, QUOTE, 0x3A, SPACE, 0x31, CLOSE_BRACE]).obj
            == Some([OPEN_BRACE, QUOTE, 0x74, 0x6F, QUOTE, 0x3A, 0x31, CLOSE_BRACE])
  {
    ToOneBodyText();
    var obj := Group(OPEN_BRACE, ToOneBody, CLOSE_BRACE);
    assert Text(obj) == [OPEN_BRACE, QUOTE, 0x74, 0x6F, QUOTE, 0x3A, SPACE, 0x31, CLOSE_BRACE];
    assert Compact(obj) == [OPEN_BRACE, QUOTE, 0x74, 0x6F, QUOTE, 0x3A, 0x31, CLOSE_BRACE];
    FramesObject(fixed, Initial, OPEN_BRACE, ToOneBody, CLOSE_BRACE);
  }

  /** As written, once a backslash has been seen inside a string the
      framer stays inside that string for good: no later input completes
      an object. */
  lemma {:induction false} EscapeNeverClears(f: Framer, cs: seq<byte>)
    requires f.quote && f.escape
    ensures var g := Run(false, f, cs);
      g.quote && g.escape && g.obj == f.obj
    decreases |cs|
  {
    if cs != [] {
      EscapeNeverClears(Step(f, cs[0]), cs[1..]);
    }
  }

  /** The array ["\\"] (one string holding an escaped backslash), then
      anything at all: as written, the framer never completes an object. */
  lemma EscapedBackslashStallsFramer(rest: seq<byte>)
    ensures Run(false, Initial, [OPEN_BRACKET, QUOTE, BACKSLASH] + rest).obj == None
  {
    var f1 := Initial.(text := [OPEN_BRACKET], depth := 1);
    var f2 := f1.(text := [OPEN_BRACKET, QUOTE], quote := true);
    var f := f2.(text := [OPEN_BRACKET, QUOTE, BACKSLASH], escape := true);
    assert Step(Initial, OPEN_BRACKET) == f1;
    assert Step(f1, QUOTE) == f2;
    assert Step(f2, BACKSLASH) == f;
    assert Run(false, f2, [BACKSLASH]) == f by { assert [BACKSLASH][1..] == []; }
    assert Run(false, f1, [QUOTE, BACKSLASH]) == f by { assert [QUOTE, BACKSLASH][1..] == [BACKSLASH]; }
    assert Run(false, Initial, [OPEN_BRACKET, QUOTE, BACKSLASH]) == f by {
      assert [OPEN_BRACKET, QUOTE, BACKSLASH][1..] == [QUOTE, BACKSLASH];
    }
    RunAppend(false, Initial, [OPEN_BRACKET, QUOTE, BACKSLASH], rest);
    EscapeNeverClears(f, rest);
  }

  /** With the corrected escape handling the same array is framed: it
      is the group `[` `"\\"` `]`, one string holding one escape pair. */
  lemma FixedFramesEscapedBackslash()
    ensures var input := [OPEN_BRACKET, QUOTE, BACKSLASH, BACKSLASH, QUOTE, CLOSE_BRACKET];
      Run(true, Initial, input).obj == Some(input)
  {
    var str := Str([Esc(BACKSLASH)]);
    assert Units([Esc(BACKSLASH)]) == [BACKSLASH, BACKSLASH] by { assert [Esc(BACKSLASH)][1..] == []; }
    assert Text(str) == Compact(str) == [QUOTE, BACKSLASH, BACKSLASH, QUOTE];
    assert Texts([str]) == Compacts([str]) == Text(str) by { assert [str][1..] == []; }
    assert PiecesOk([str], true);
    var input := [OPEN_BRACKET, QUOTE, BACKSLASH, BACKSLASH, QUOTE, CLOSE_BRACKET];
    var group := Group(OPEN_BRACKET, [str], CLOSE_BRACKET);
    assert Text(group) == Compact(group) == input;
    FramesObject(true, Initial, OPEN_BRACKET, [str], CLOSE_BRACKET);
  }

  /** The converter object of Base/MessageJsonConverter.h with the framing
      fields putch updates. */
  class MessageJsonConverter {
    const objStr: array<byte>
    var objStrLen: int
    var nestDepth: byte
    var quote: bool
    var escape: bool
    /** The text of the first completed object (what obj was parsed from). */
    var obj: Option<seq<byte>>

    ghost predicate Valid()
      reads this, objStr
    {
      objStr.Length == OBJ_STR_SIZE && 0 <= objStrLen < OBJ_STR_SIZE
    }

    ghost function State(): Framer
      requires Valid()
      reads this, objStr
    {
      Framer(objStr[..objStrLen], nestDepth, quote, escape, obj)
    }

    constructor()
      ensures Valid() && State() == Initial
    {
      objStr := new byte[OBJ_STR_SIZE];
      objStrLen, nestDepth, quote, escape, obj := 0, 0, false, false, None;
    }

    /** putch, as written. */
    method Putch(chr: byte)
      requires Valid()
      modifies this, objStr
      ensures Valid() && State() == Step(old(State()), chr)
    {
      if !quote && chr <= SPACE {
        return;
      }
      if objStrLen >= OBJ_STR_SIZE - 1 {
        return;
      }
      objStr[objStrLen] := chr;
      objStrLen := objStrLen + 1;
      assert objStr[..objStrLen] == old(objStr[..objStrLen]) + [chr];
      if quote && !escape && chr == BACKSLASH {
        escape := true;
      } else if !escape && chr == QUOTE {
        quote := !quote;
      } else if !quote {
        if IsOpener(chr) {
          nestDepth := Inc8(nestDepth);
        }
        if IsCloser(chr) {
          nestDepth := Dec8(nestDepth);
          if AsInt8(nestDepth) <= 0 {
            var text := objStr[..objStrLen];
            objStr[objStrLen] := NUL;
            if obj.None? {
              obj := Some(text);
            }
            objStrLen := 0;
            nestDepth := 0;
          }
        }
      }
    }
  }

  // ---------------------------------------------------------------------
  // Headers

  /** The JSON tree aJson builds; numbers are told apart as integers and
      floats, and the value of a float is not modelled. */
  datatype Json =
    | JObject(members: seq<Member>)
    | JArray(items: seq<Json>)
    | JString(str: string)
    | JInt(i: int)
    | JFloat
    | JTrue
    | JFalse
    | JNull

  datatype Member = Member(name: string, value: Json)

  /** headerToJson's name for a message type. */
  function TypeName(t: byte): (s: string)
    ensures s == "unknown" <==>
              t != MessageBuffer.PUBLISH && t != MessageBuffer.SET && t != MessageBuffer.REQUEST
              && t != MessageBuffer.ERR && t != MessageBuffer.GARBAGE
  {
    if t == MessageBuffer.PUBLISH then "publish"
    else if t == MessageBuffer.SET then "set"
    else if t == MessageBuffer.REQUEST then "request"
    else if t == MessageBuffer.ERR then "err"
    else if t == MessageBuffer.GARBAGE then "garbage"
    else "unknown"
  }

  /** headerToJson: the type by name and the source address; the
      destination is read but not written. */
  function HeaderToJson(from: byte, t: byte): (ms: seq<Member>)
    ensures |ms| == 2 && ms[0].name == "type" && ms[1] == Member("from", JInt(from))
  {
    [Member("type", JString(TypeName(t))), Member("from", JInt(from))]
  }

  /** The type names jsonToMessage accepts, compared case-sensitively; it
      accepts exactly the names headerToJson writes for the four types a
      base station sends, and not "garbage" or "unknown". */
  function ParseType(s: string): (r: Option<byte>)
    ensures r.Some? ==> TypeName(r.value) == s && r.value != MessageBuffer.GARBAGE
    ensures r.Some? <==> s in ["publish", "set", "request", "err"]
  {
    if s == "publish" then Some(MessageBuffer.PUBLISH)
    else if s == "set" then Some(MessageBuffer.SET)
    else if s == "request" then Some(MessageBuffer.REQUEST)
    else if s == "err" then Some(MessageBuffer.ERR)
    else None
  }

  lemma TypeNameRoundTrip(t: byte)
    requires t == MessageBuffer.PUBLISH || t == MessageBuffer.SET || t == MessageBuffer.REQUEST
             || t == MessageBuffer.ERR
    ensures ParseType(TypeName(t)) == Some(t)
  {
  }

  function Lower(c: char): char
  {
    if 'A' <= c <= 'Z' then (c as int + 32) as char else c
  }

  /** strcasecmp(a, b) == 0 over ASCII. */
  predicate EqualsIgnoreCase(a: string, b: string)
  {
    |a| == |b| && forall k :: 0 <= k < |a| ==> Lower(a[k]) == Lower(b[k])
  }

  /** aJson.getObjectItem: the value of the first member with this name,
      names compared ignoring case. */
  function GetObjectItem(ms: seq<Member>, name: string): (r: Option<Json>)
    ensures r.Some? <==> exists k :: 0 <= k < |ms| && EqualsIgnoreCase(ms[k].name, name)
    ensures r.Some? ==> exists k :: 0 <= k < |ms| && EqualsIgnoreCase(ms[k].name, name) && ms[k].value == r.value
                                 && forall j :: 0 <= j < k ==> !EqualsIgnoreCase(ms[j].name, name)
  {
    if ms == [] then None
    else if EqualsIgnoreCase(ms[0].name, name) then Some(ms[0].value)
    else
      var r := GetObjectItem(ms[1..], name);
      assert forall k :: 0 <= k < |ms| - 1 ==> ms[1..][k] == ms[k + 1];
      r
  }

  /** What jsonToMessage sets on the message it builds: the source and
      destination, truncated to uint8_t, and the type when a "type" member
      gave one (None leaves the type the Message constructor left). */
  datatype Header = Header(from: byte, to: byte, msgType: Option<byte>)

  /** The value conversion to uint8_t. */
  function ToUint8(i: int): (b: byte)
    ensures 0 <= i < 256 ==> b == i
    ensures (b - i) % 256 == 0
  {
    i % 256
  }

  /** A payload member is accepted when messageAddElem accepts its value,
      or every item of its value when that is an array. */
  predicate ElemAccepted(m: Member, addElem: (string, Json) -> bool)
  {
    if m.value.JArray? then forall k :: 0 <= k < |m.value.items| ==> addElem(m.name, m.value.items[k])
    else addElem(m.name, m.value)
  }

  /** The member loop of jsonToMessage: "to" and "from" are skipped, a
      "type" must be a string naming one of the four accepted types (the
      last one wins), and every other member must be accepted as payload. */
  function ScanMembers(ms: seq<Member>, h: Header, addElem: (string, Json) -> bool): (r: Option<Header>)
    ensures r.Some? ==> r.value.from == h.from && r.value.to == h.to
    ensures r.Some? <==>
              forall k :: 0 <= k < |ms| ==> MemberAccepted(ms[k], addElem)
  {
    if ms == [] then Some(h)
    else
      var m := ms[0];
      assert forall k :: 0 <= k < |ms| - 1 ==> ms[1..][k] == ms[k + 1];
      if EqualsIgnoreCase(m.name, "to") || EqualsIgnoreCase(m.name, "from") then ScanMembers(ms[1..], h, addElem)
      else if EqualsIgnoreCase(m.name, "type") then
        if !m.value.JString? then None
        else match ParseType(m.value.str)
          case None => None
          case Some(t) => ScanMembers(ms[1..], h.(msgType := Some(t)), addElem)
      else if ElemAccepted(m, addElem) then ScanMembers(ms[1..], h, addElem)
      else None
  }

  /** Whether the member loop lets a member through. */
  predicate MemberAccepted(m: Member, addElem: (string, Json) -> bool)
  {
    if EqualsIgnoreCase(m.name, "to") || EqualsIgnoreCase(m.name, "from") then true
    else if EqualsIgnoreCase(m.name, "type") then m.value.JString? && ParseType(m.value.str).Some?
    else ElemAccepted(m, addElem)
  }

  /** jsonToMessage, as far as the header: NULL (None) unless the input is
      an object with an integer "to", an integer or absent "from" (0 when
      absent), and members the loop accepts. */
  function JsonToHeader(obj: Json, addElem: (string, Json) -> bool): (r: Option<Header>)
    ensures r.Some? ==>
              && obj.JObject?
              && GetObjectItem(obj.members, "to").Some?
              && GetObjectItem(obj.members, "to").value.JInt?
              && r.value.to == ToUint8(GetObjectItem(obj.members, "to").value.i)
              && (GetObjectItem(obj.members, "from").None? ==> r.value.from == 0)
              && (GetObjectItem(obj.members, "from").Some? ==>
                    GetObjectItem(obj.members, "from").value.JInt?
                    && r.value.from == ToUint8(GetObjectItem(obj.members, "from").value.i))
              && forall k :: 0 <= k < |obj.members| ==> MemberAccepted(obj.members[k], addElem)
  {
    if !obj.JObject? then None
    else
      var to := GetObjectItem(obj.members, "to");
      if to.None? || !to.value.JInt? then None
      else
        var from := GetObjectItem(obj.members, "from");
        if from.Some? && !from.value.JInt? then None
        else
          var h := Header(if from.Some? then ToUint8(from.value.i) else 0, ToUint8(to.value.i), None);
          ScanMembers(obj.members, h, addElem)
  }

  /** How the three header names compare under strcasecmp. */
  lemma HeaderNamesDiffer()
    ensures EqualsIgnoreCase("to", "to") && EqualsIgnoreCase("from", "from") && EqualsIgnoreCase("type", "type")
    ensures !EqualsIgnoreCase("to", "from") && !EqualsIgnoreCase("to", "type")
    ensures !EqualsIgnoreCase("type", "to") && !EqualsIgnoreCase("from", "to")
    ensures !EqualsIgnoreCase("type", "from") && !EqualsIgnoreCase("from", "type")
  {
    assert Lower("type"[0]) != Lower("from"[0]);
  }

  lemma HeaderLookups(m0: Member, m1: Member, m2: Member)
    requires m0.name == "to" && m1.name == "type" && m2.name == "from"
    ensures GetObjectItem([m0, m1, m2], "to") == Some(m0.value)
    ensures GetObjectItem([m0, m1, m2], "from") == Some(m2.value)
  {
    HeaderNamesDiffer();
    assert [m0, m1, m2][1..] == [m1, m2] && [m1, m2][1..] == [m2];
    assert GetObjectItem([m2], "from") == Some(m2.value);
    assert GetObjectItem([m1, m2], "from") == Some(m2.value);
  }

  /** The member loop over "to", "type" and "from" records the type and
      nothing else. */
  lemma ScanHeader(m0: Member, m1: Member, m2: Member, h: Header, t: byte, addElem: (string, Json) -> bool)
    requires m0.name == "to" && m1 == Member("type", JString(TypeName(t))) && m2.name == "from"
    requires t == MessageBuffer.PUBLISH || t == MessageBuffer.SET || t == MessageBuffer.REQUEST
             || t == MessageBuffer.ERR
    ensures ScanMembers([m0, m1, m2], h, addElem) == Some(h.(msgType := Some(t)))
  {
    HeaderNamesDiffer();
    TypeNameRoundTrip(t);
    assert ScanMembers([m2], h.(msgType := Some(t)), addElem) == Some(h.(msgType := Some(t))) by {
      assert [m2][1..] == [];
    }
    assert ScanMembers([m1, m2], h, addElem) == Some(h.(msgType := Some(t))) by {
      assert [m1, m2][1..] == [m2];
    }
    assert [m0, m1, m2][1..] == [m1, m2];
  }

  /** headerToJson's members with a "to" added in front convert back to
      the same header, for every type jsonToMessage accepts. */
  lemma HeaderRoundTrip(from: byte, to: byte, t: byte, addElem: (string, Json) -> bool)
    requires t == MessageBuffer.PUBLISH || t == MessageBuffer.SET || t == MessageBuffer.REQUEST
             || t == MessageBuffer.ERR
    ensures JsonToHeader(JObject([Member("to", JInt(to))] + HeaderToJson(from, t)), addElem)
            == Some(Header(from, to, Some(t)))
  {
    var m0, m1, m2 := Member("to", JInt(to)), Member("type", JString(TypeName(t))), Member("from", JInt(from));
    assert [m0, m1, m2] == [Member("to", JInt(to))] + HeaderToJson(from, t);
    HeaderLookups(m0, m1, m2);
    assert ToUint8(to) == to && ToUint8(from) == from;
    ScanHeader(m0, m1, m2, Header(from, to, None), t, addElem);
  }

  /** headerToJson's output alone has no "to", so jsonToMessage refuses
      it. */
  lemma HeaderAloneRefused(from: byte, t: byte, addElem: (string, Json) -> bool)
    ensures JsonToHeader(JObject(HeaderToJson(from, t)), addElem) == None
  {
    var ms := HeaderToJson(from, t);
    assert !EqualsIgnoreCase(ms[0].name, "to") && !EqualsIgnoreCase(ms[1].name, "to");
  }
}
