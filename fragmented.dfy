/** FragmentedDatagram.h: a datagram longer than one radio frame is sent as
    several fragments, each carrying at most fragMax-1 bytes of it and a
    trailer byte: the low seven bits of a running message id, and 0x80
    when more fragments follow.  The receiver appends fragments while the
    ids follow on, restarts on a break, and stops at the first fragment
    without the 0x80 flag.

    The lower layer (the reliable-datagram class the template wraps) is a
    parameter: on sending, which send fails, if any; on receiving, what
    each successive receive call returns. */
module Fragmentation {
  import opened Common

  const FRAG_CONTINUE_FLAG := 0x80

  /** The trailer byte: the id with bit 7 set when more fragments follow
      and cleared on the last one. */
  function Trailer(msgId: byte, more: bool): (t: byte)
    ensures t % 128 == msgId % 128
    ensures (t >= FRAG_CONTINUE_FLAG) == more
  {
    if more then msgId % 128 + FRAG_CONTINUE_FLAG else msgId % 128
  }

  /** The fragments sendtoWait hands to the lower layer for `buf`, the
      first one numbered `msgId`. */
  function Fragments(buf: seq<byte>, fragMax: int, msgId: byte): (frags: seq<seq<byte>>)
    requires fragMax >= 2
    decreases |buf|
  {
    if buf == [] then []
    else
      var n := Min(|buf|, fragMax - 1);
      [buf[..n] + [Trailer(msgId, n < |buf|)]] + Fragments(buf[n..], fragMax, (msgId + 1) % 256)
  }

  /** The data bytes of a fragment: everything but its trailer. */
  function Payload(frag: seq<byte>): seq<byte>
    requires |frag| >= 1
  {
    frag[..|frag| - 1]
  }

  function Concat(frags: seq<seq<byte>>): seq<byte>
    requires forall k :: 0 <= k < |frags| ==> |frags[k]| >= 1
  {
    if frags == [] then [] else Payload(frags[0]) + Concat(frags[1..])
  }

  /** The first fragment, and the fragments of what it leaves. */
  lemma FragmentsStep(buf: seq<byte>, pos: nat, fragMax: int, msgId: byte)
    requires fragMax >= 2 && pos < |buf|
    ensures var n := Min(|buf| - pos, fragMax - 1);
      Fragments(buf[pos..], fragMax, msgId)
        == [buf[pos..pos + n] + [Trailer(msgId, pos + n < |buf|)]] + Fragments(buf[pos + n..], fragMax, (msgId + 1) % 256)
  {
    var n := Min(|buf| - pos, fragMax - 1);
    assert buf[pos..][..n] == buf[pos..pos + n];
    assert buf[pos..][n..] == buf[pos + n..];
  }

  /** The fragments' data, in order, are exactly `buf`. */
  lemma {:induction false} FragmentsCover(buf: seq<byte>, fragMax: int, msgId: byte)
    requires fragMax >= 2
    ensures forall k :: 0 <= k < |Fragments(buf, fragMax, msgId)| ==> |Fragments(buf, fragMax, msgId)[k]| >= 2
    ensures Concat(Fragments(buf, fragMax, msgId)) == buf
    decreases |buf|
  {
    if buf != [] {
      var n := Min(|buf|, fragMax - 1);
      FragmentsStep(buf, 0, fragMax, msgId);
      assert buf[0..] == buf;
      FragmentsCover(buf[n..], fragMax, (msgId + 1) % 256);
      var frags := Fragments(buf, fragMax, msgId);
      assert frags[1..] == Fragments(buf[n..], fragMax, (msgId + 1) % 256);
      assert Payload(frags[0]) == buf[..n];
      assert buf[..n] + buf[n..] == buf;
    }
  }

  /** Every fragment carries at least one data byte and its trailer; all
      but the last carry fragMax-1 data bytes, and the last at most that. */
  lemma {:induction false} FragmentSizes(buf: seq<byte>, fragMax: int, msgId: byte)
    requires fragMax >= 2
    ensures var frags := Fragments(buf, fragMax, msgId);
      forall k :: 0 <= k < |frags| ==>
        && 2 <= |frags[k]| <= fragMax
        && (k < |frags| - 1 ==> |frags[k]| == fragMax)
    decreases |buf|
  {
    if buf != [] {
      var n := Min(|buf|, fragMax - 1);
      var next := (msgId + 1) % 256;
      FragmentsStep(buf, 0, fragMax, msgId);
      assert buf[0..] == buf;
      FragmentSizes(buf[n..], fragMax, next);
      var frags := Fragments(buf, fragMax, msgId);
      var tail := Fragments(buf[n..], fragMax, next);
      assert forall k :: 1 <= k < |frags| ==> frags[k] == tail[k - 1];
      assert n < |buf| ==> |tail| > 0;
    }
  }

  /** Only the last fragment has the continue flag clear. */
  lemma {:induction false} FragmentFlags(buf: seq<byte>, fragMax: int, msgId: byte)
    requires fragMax >= 2
    ensures var frags := Fragments(buf, fragMax, msgId);
      forall k :: 0 <= k < |frags| ==>
        |frags[k]| >= 1 && (frags[k][|frags[k]| - 1] >= FRAG_CONTINUE_FLAG <==> k < |frags| - 1)
    decreases |buf|
  {
    if buf != [] {
      var n := Min(|buf|, fragMax - 1);
      var next := (msgId + 1) % 256;
      FragmentsStep(buf, 0, fragMax, msgId);
      assert buf[0..] == buf;
      FragmentFlags(buf[n..], fragMax, next);
      var frags := Fragments(buf, fragMax, msgId);
      var tail := Fragments(buf[n..], fragMax, next);
      assert forall k :: 1 <= k < |frags| ==> frags[k] == tail[k - 1];
      assert n < |buf| <==> |tail| > 0;
    }
  }

  /** The k-th fragment's trailer carries the low seven bits of msgId+k. */
  lemma {:induction false} FragmentIds(buf: seq<byte>, fragMax: int, msgId: byte)
    requires fragMax >= 2
    ensures var frags := Fragments(buf, fragMax, msgId);
      forall k :: 0 <= k < |frags| ==>
        |frags[k]| >= 1 && frags[k][|frags[k]| - 1] % 128 == (msgId + k) % 128
    decreases |buf|
  {
    if buf != [] {
      var n := Min(|buf|, fragMax - 1);
      var next := (msgId + 1) % 256;
      FragmentsStep(buf, 0, fragMax, msgId);
      assert buf[0..] == buf;
      FragmentIds(buf[n..], fragMax, next);
      var frags := Fragments(buf, fragMax, msgId);
      var tail := Fragments(buf[n..], fragMax, next);
      forall k | 1 <= k < |frags|
        ensures |frags[k]| >= 1 && frags[k][|frags[k]| - 1] % 128 == (msgId + k) % 128
      {
        assert frags[k] == tail[k - 1];
        IdShift(msgId, k);
      }
    }
  }

  /** Counting on from the next id is counting one further from this one,
      in the low seven bits. */
  lemma IdShift(msgId: byte, k: nat)
    requires k >= 1
    ensures ((msgId + 1) % 256 + (k - 1)) % 128 == (msgId + k) % 128
  {
    var a := msgId + 1;
    assert a % 256 == a - (a / 256) * 256;
    assert (a % 256 + (k - 1)) == (msgId + k) - (a / 256) * 2 * 128;
  }

  /** The receiver's reassembly, one lower-layer receive at a time: `acc`
      is what was reassembled so far and `cur` the id expected next.  A
      failed receive or a fragment under two bytes fails; an id that breaks
      the sequence restarts from this fragment; a fragment without the
      continue flag completes the datagram; and more than
      totalMax-fragMax bytes before the last fragment fail. */
  function ReassembleFrom(incoming: seq<Option<seq<byte>>>, acc: seq<byte>, cur: int,
                          fragMax: int, totalMax: int): Option<seq<byte>>
    decreases |incoming|
  {
    if incoming == [] || incoming[0].None? || |incoming[0].value| < 2 then None
    else
      var f := incoming[0].value;
      var t := f[|f| - 1];
      var acc' := if |acc| > 0 && t % 128 != cur then Payload(f) else acc + Payload(f);
      if t < FRAG_CONTINUE_FLAG then Some(acc')
      else if |acc'| > totalMax - fragMax then None
      else ReassembleFrom(incoming[1..], acc', (t as int + 1) % 128, fragMax, totalMax)
  }

  function Reassemble(incoming: seq<Option<seq<byte>>>, fragMax: int, totalMax: int): Option<seq<byte>>
  {
    ReassembleFrom(incoming, [], 0, fragMax, totalMax)
  }

  function Delivered(frags: seq<seq<byte>>): (d: seq<Option<seq<byte>>>)
    ensures |d| == |frags| && forall k :: 0 <= k < |d| ==> d[k] == Some(frags[k])
  {
    seq(|frags|, k requires 0 <= k < |frags| => Some(frags[k]))
  }

  /** How many bytes of an n-byte datagram go out before its last
      fragment: fragMax-1 for each fragment but the last. */
  function BytesBeforeLast(n: nat, fragMax: int): (r: nat)
    requires fragMax >= 2
    ensures r < n || n == 0
    ensures n <= fragMax - 1 <==> r == 0
  {
    if n <= fragMax - 1 then 0 else fragMax - 1 + BytesBeforeLast(n - (fragMax - 1), fragMax)
  }

  /** Receiving the fragments of a datagram, in order, gives the datagram
      back exactly when the bytes before its last fragment fit the receive
      buffer (at most totalMax-fragMax of them), and fails otherwise. */
  lemma FragmentRoundTrip(buf: seq<byte>, fragMax: int, totalMax: int, msgId: byte)
    requires fragMax >= 2 && 1 <= |buf|
    ensures Reassemble(Delivered(Fragments(buf, fragMax, msgId)), fragMax, totalMax)
            == if BytesBeforeLast(|buf|, fragMax) == 0 || BytesBeforeLast(|buf|, fragMax) <= totalMax - fragMax
               then Some(buf) else None
  {
    RoundTripFrom(buf, [], 0, fragMax, totalMax, msgId);
    assert [] + buf == buf;
  }

  /** Fragments that continue an accumulated prefix append their payloads
      to it, unless the bytes accumulated before the last of them exceed
      totalMax-fragMax. */
  lemma {:induction false} RoundTripFrom(buf: seq<byte>, acc: seq<byte>, cur: int, fragMax: int, totalMax: int,
                                         msgId: byte)
    requires fragMax >= 2 && 1 <= |buf|
    requires |acc| > 0 ==> cur == msgId % 128
    ensures ReassembleFrom(Delivered(Fragments(buf, fragMax, msgId)), acc, cur, fragMax, totalMax)
            == if BytesBeforeLast(|buf|, fragMax) == 0 || |acc| + BytesBeforeLast(|buf|, fragMax) <= totalMax - fragMax
               then Some(acc + buf) else None
    decreases |buf|
  {
    var n := Min(|buf|, fragMax - 1);
    var f := buf[..n] + [Trailer(msgId, n < |buf|)];
    var next := (msgId + 1) % 256;
    var rest := Fragments(buf[n..], fragMax, next);
    DeliveredCons(f, rest);
    ReassembleHead(f, Delivered(rest), acc, cur, fragMax, totalMax);
    assert Payload(f) == buf[..n];
    var acc' := acc + buf[..n];
    if n < |buf| {
      assert BytesBeforeLast(|buf|, fragMax) == n + BytesBeforeLast(|buf[n..]|, fragMax);
      if |acc'| <= totalMax - fragMax {
        NextIdLow(msgId);
        assert buf[..n] + buf[n..] == buf;
        AppendAssoc(acc, buf[..n], buf[n..]);
        RoundTripFrom(buf[n..], acc', (f[|f| - 1] as int + 1) % 128, fragMax, totalMax, next);
      }
    } else {
      assert buf[..n] == buf;
    }
  }

  /** Delivering a first fragment and then the others. */
  lemma DeliveredCons(f: seq<byte>, rest: seq<seq<byte>>)
    ensures Delivered([f] + rest) == [Some(f)] + Delivered(rest)
  {
  }

  /** Reassembly's first turn, on a fragment of at least two bytes. */
  lemma ReassembleHead(f: seq<byte>, rest: seq<Option<seq<byte>>>, acc: seq<byte>, cur: int,
                       fragMax: int, totalMax: int)
    requires |f| >= 2
    ensures var t := f[|f| - 1];
      var acc' := if |acc| > 0 && t % 128 != cur then Payload(f) else acc + Payload(f);
      ReassembleFrom([Some(f)] + rest, acc, cur, fragMax, totalMax)
        == if t < FRAG_CONTINUE_FLAG then Some(acc')
           else if |acc'| > totalMax - fragMax then None
           else ReassembleFrom(rest, acc', (t as int + 1) % 128, fragMax, totalMax)
  {
    assert ([Some(f)] + rest)[1..] == rest;
  }

  /** The id the receiver expects after a flagged trailer for msgId is the
      low seven bits of the next id the sender uses. */
  lemma NextIdLow(msgId: byte)
    ensures (Trailer(msgId, true) as int + 1) % 128 == ((msgId + 1) % 256) % 128
  {
  }

  /** A fragment whose id does not follow on drops everything reassembled
      before it: reassembly goes on as if it were the first fragment. */
  lemma RestartForgetsEarlier(f: seq<byte>, rest: seq<Option<seq<byte>>>, acc: seq<byte>, cur: int,
                              fragMax: int, totalMax: int)
    requires |f| >= 2 && |acc| > 0 && f[|f| - 1] % 128 != cur
    ensures ReassembleFrom([Some(f)] + rest, acc, cur, fragMax, totalMax)
         == ReassembleFrom([Some(f)] + rest, [], 0, fragMax, totalMax)
  {
    assert ([Some(f)] + rest)[1..] == rest;
    assert [] + Payload(f) == Payload(f);
  }

  /** The message id after k fragments, counting in a uint8_t. */
  function IdAfter(msgId: byte, k: nat): byte
  {
    if k == 0 then msgId
    else
      var prev := IdAfter(msgId, k - 1);
      if prev == 255 then 0 else prev + 1
  }

  lemma {:induction false} IdAfterCounts(msgId: byte, k: nat)
    ensures IdAfter(msgId, k) == (msgId + k) % 256
  {
    if k > 0 {
      IdAfterCounts(msgId, k - 1);
      ByteSuccessor(msgId + k - 1);
    }
  }

  /** Counting modulo 256 wraps from 255 to 0. */
  lemma ByteSuccessor(a: nat)
    ensures (a + 1) % 256 == if a % 256 == 255 then 0 else a % 256 + 1
  {
    var q, r := a / 256, a % 256;
    assert a == q * 256 + r;
    if r == 255 {
      assert a + 1 == (q + 1) * 256;
    } else {
      assert a + 1 == q * 256 + (r + 1);
    }
  }

  /** One more fragment sent: the fragments still to send shrink by it. */
  lemma SendStep(all: seq<seq<byte>>, sent: seq<seq<byte>>, frag: seq<byte>, rest: seq<seq<byte>>)
    requires all == sent + ([frag] + rest)
    ensures all == (sent + [frag]) + rest
    ensures all[..|sent| + 1] == sent + [frag] && |all| >= |sent| + 1
  {
    AppendAssoc(sent, [frag], rest);
  }

  /** sendtoWait's loop invariant: the fragments already `sent` and those
      of the data left from `pos` on make up `all`, and the id `m` has
      moved on once per fragment sent from `m0`. */
  ghost predicate SendInv(all: seq<seq<byte>>, sent: seq<seq<byte>>, buf: seq<byte>, pos: nat, fragMax: int,
                          m: byte, m0: byte)
  {
    && fragMax >= 2 && pos <= |buf|
    && all == sent + Fragments(buf[pos..], fragMax, m)
    && m == IdAfter(m0, |sent|)
  }

  /** One turn of sendtoWait: the next fragment, `n` data bytes and a
      trailer flagged `more`, is the first of what is left, and the id
      moves on by one. */
  lemma SentOne(all: seq<seq<byte>>, sent: seq<seq<byte>>, buf: seq<byte>, pos: nat, fragMax: int,
                n: nat, more: bool, m: byte, m0: byte)
    requires SendInv(all, sent, buf, pos, fragMax, m, m0) && pos < |buf|
    requires n == Min(|buf| - pos, fragMax - 1) && more == (pos + n < |buf|)
    ensures var frag := buf[pos..pos + n] + [Trailer(m, more)];
      && SendInv(all, sent + [frag], buf, pos + n, fragMax, (m + 1) % 256, m0)
      && all[..|sent| + 1] == sent + [frag]
      && (m + 1) % 256 == IdAfter(m0, |sent + [frag]|)
  {
    var frag := buf[pos..pos + n] + [Trailer(m, more)];
    FragmentsStep(buf, pos, fragMax, m);
    SendStep(all, sent, frag, Fragments(buf[pos + n..], fragMax, (m + 1) % 256));
  }

  /** With nothing left to send, every fragment was sent. */
  lemma SentAll(all: seq<seq<byte>>, sent: seq<seq<byte>>, buf: seq<byte>, fragMax: int, m: byte, m0: byte)
    requires SendInv(all, sent, buf, |buf|, fragMax, m, m0)
    ensures all == sent && m == IdAfter(m0, |sent|)
  {
    assert buf[|buf|..] == [];
    assert sent + [] == sent;
  }

  /** One turn of recvfromAck as ReassembleFrom describes it. */
  lemma ReassembleStep(incoming: seq<Option<seq<byte>>>, j: nat, acc: seq<byte>, cur: int, fragMax: int, totalMax: int,
                        t: byte, acc': seq<byte>)
    requires j < |incoming| && incoming[j].Some? && |incoming[j].value| >= 2
    requires t == incoming[j].value[|incoming[j].value| - 1]
    requires acc' == if |acc| > 0 && t % 128 != cur then Payload(incoming[j].value) else acc + Payload(incoming[j].value)
    ensures t < FRAG_CONTINUE_FLAG ==> ReassembleFrom(incoming[j..], acc, cur, fragMax, totalMax) == Some(acc')
    ensures t >= FRAG_CONTINUE_FLAG && |acc'| > totalMax - fragMax ==>
              ReassembleFrom(incoming[j..], acc, cur, fragMax, totalMax) == None
    ensures t >= FRAG_CONTINUE_FLAG && |acc'| <= totalMax - fragMax ==>
              ReassembleFrom(incoming[j..], acc, cur, fragMax, totalMax)
                == ReassembleFrom(incoming[j + 1..], acc', (t as int + 1) % 128, fragMax, totalMax)
  {
    assert incoming[j..][0] == incoming[j];
    assert incoming[j..][1..] == incoming[j + 1..];
  }

  /** What the buffer holds after a fragment was taken in: the fragment's
      data alone after a restart, appended to `acc` otherwise. */
  lemma ReceivedSoFar(b: seq<byte>, acc: seq<byte>, frame: seq<byte>, at: int, restart: bool)
    requires |frame| >= 2 && 0 <= at && at + |frame| - 1 <= |b|
    requires restart ==> at == 0 && b[..|frame| - 1] == Payload(frame)
    requires !restart ==> at == |acc| && at + |frame| - 1 <= |b| && b[..at] == acc && b[at..at + |frame| - 1] == Payload(frame)
    ensures b[..at + |frame| - 1] == if restart then Payload(frame) else acc + Payload(frame)
  {
    if !restart {
      assert b[..at + |frame| - 1] == b[..at] + b[at..at + |frame| - 1];
    }
  }

  class FragmentedDatagram {
    /** The largest frame the lower layer carries, trailer included. */
    const fragMax: int
    /** The size of the receive buffer. */
    const totalMax: int
    var msgId: byte

    /** The template's limits: a fragment holds at least one data byte, a
        receive buffer holds at least one fragment, and a length fits the
        uint8_t that stores it. */
    predicate Valid()
      reads this
    {
      2 <= fragMax <= totalMax <= 256
    }

    constructor(fragMax: int, totalMax: int, msgId: byte)
      requires 2 <= fragMax <= totalMax <= 256
      ensures Valid() && this.fragMax == fragMax && this.totalMax == totalMax && this.msgId == msgId
    {
      this.fragMax, this.totalMax, this.msgId := fragMax, totalMax, msgId;
    }

    /** sendtoWait: send the fragments one after another; the lower
        layer's send number `failAt` (if any) fails, which stops sending. */
    method SendToWait(buf: seq<byte>, failAt: Option<nat>) returns (ok: bool, sent: seq<seq<byte>>)
      requires Valid() && |buf| < 256
      modifies this
      ensures var all := Fragments(buf, fragMax, old(msgId));
        && ok == (failAt.None? || failAt.value >= |all|)
        && sent == (if ok then all else all[..failAt.value + 1])
        && msgId == IdAfter(old(msgId), |sent|)
    {
      ghost var all := Fragments(buf, fragMax, msgId);
      var len := |buf|;
      var pos := 0;
      sent := [];
      assert buf[0..] == buf;
      while len > 0
        invariant 0 <= pos <= |buf| && len == |buf| - pos
        invariant SendInv(all, sent, buf, pos, fragMax, msgId, old(msgId))
        invariant failAt.Some? ==> failAt.value >= |sent|
      {
        var fragLen := if len < fragMax - 1 then len else fragMax - 1;
        len := len - fragLen;
        var frag := buf[pos..pos + fragLen] + [Trailer(msgId, len > 0)];
        SentOne(all, sent, buf, pos, fragMax, fragLen, len > 0, msgId, old(msgId));
        msgId := (msgId + 1) % 256;
        pos := pos + fragLen;
        var delivered := failAt != Some(|sent|);
        sent := sent + [frag];
        if !delivered {
          assert all[..failAt.value + 1] == sent;
          assert |all| > failAt.value;
          return false, sent;
        }
      }
      SentAll(all, sent, buf, fragMax, msgId, old(msgId));
      return true, sent;
    }

    /** recvfromAck: each lower-layer receive writes its frame at the end
        of what was reassembled so far in `buf`; `incoming[k]` is what the
        k-th receive returns (None when it fails, and every receive past
        the end of `incoming` fails). */
    method RecvFromAck(incoming: seq<Option<seq<byte>>>, buf: array<byte>) returns (ok: bool, len: int)
      requires Valid() && buf.Length == totalMax
      requires forall k :: 0 <= k < |incoming| && incoming[k].Some? ==> |incoming[k].value| <= fragMax
      modifies buf
      ensures var r := Reassemble(incoming, fragMax, totalMax);
        ok == r.Some? && (ok ==> 0 <= len <= buf.Length && buf[..len] == r.value)
    {
      len := 0;
      var fragBuf := 0;
      var curMsgId := 0;
      var j := 0;
      while true
        invariant 0 <= j <= |incoming|
        invariant fragBuf == len && 0 <= len <= totalMax - fragMax
        invariant Reassemble(incoming, fragMax, totalMax)
               == ReassembleFrom(incoming[j..], buf[..len], curMsgId, fragMax, totalMax)
        decreases |incoming| - j
      {
        if j == |incoming| || incoming[j].None? {
          return false, len;
        }
        ghost var acc := buf[..len];
        var frame := incoming[j].value;
        Deliver(buf, fragBuf, frame);
        if |frame| < 2 {
          return false, len;
        }
        var newMsgId;
        len, newMsgId := Absorb(buf, len, curMsgId, frame, acc);
        ReassembleStep(incoming, j, acc, curMsgId, fragMax, totalMax, newMsgId, buf[..len]);
        if newMsgId < FRAG_CONTINUE_FLAG {
          return true, len;
        }
        if len > totalMax - fragMax {
          return false, len;
        }
        // fragBuf moves past the fragment, to the end of what is held
        fragBuf := len;
        curMsgId := (newMsgId as int + 1) % 128;
        j := j + 1;
      }
    }

    /** One received frame, already written at the end of the `len`
        bytes reassembled so far: read its trailer, and when its id breaks
        the sequence move its data to the front of the buffer. */
    static method Absorb(buf: array<byte>, len: int, curMsgId: int, frame: seq<byte>, ghost acc: seq<byte>)
      returns (newLen: int, newMsgId: byte)
      requires |frame| >= 2 && 0 <= len && len + |frame| <= buf.Length
      requires buf[..len] == acc && buf[len..len + |frame|] == frame
      modifies buf
      ensures newMsgId == frame[|frame| - 1]
      ensures var received := if len != 0 && newMsgId % 128 != curMsgId then Payload(frame) else acc + Payload(frame);
        0 <= newLen == |received| <= buf.Length && buf[..newLen] == received
    {
      var fragLen := |frame| - 1;
      newMsgId := buf[len + fragLen];
      assert newMsgId == frame[fragLen] by { assert buf[len..len + |frame|][fragLen] == buf[len + fragLen]; }
      assert buf[len..len + fragLen] == Payload(frame) by { assert buf[len..len + fragLen] == buf[len..len + |frame|][..fragLen]; }
      var fragBuf := len;
      newLen := len;
      ghost var restart := len != 0 && newMsgId % 128 != curMsgId;
      if len != 0 && newMsgId % 128 != curMsgId {
        newLen := 0;
        MoveToFront(buf, fragBuf, fragLen);
        fragBuf := 0;
      }
      newLen := newLen + fragLen;
      ReceivedSoFar(buf[..], acc, frame, fragBuf, restart);
    }

    /** The copy loop of a restart: the fragment just received at `from`
        moves to the front of the buffer. */
    static method MoveToFront(buf: array<byte>, from: int, n: int)
      requires 0 < from && 0 <= n && from + n <= buf.Length
      modifies buf
      ensures buf[..n] == old(buf[from..from + n])
    {
      for i := 0 to n
        invariant forall k :: 0 <= k < i ==> buf[k] == old(buf[from + k])
        invariant forall k :: from + i <= k < from + n ==> buf[k] == old(buf[k])
      {
        buf[i] := buf[from + i];
      }
      assert forall k :: 0 <= k < n ==> buf[..n][k] == old(buf[from..from + n])[k];
    }

    /** The lower layer writing a received frame at `at`. */
    static method Deliver(buf: array<byte>, at: int, frame: seq<byte>)
      requires 0 <= at && at + |frame| <= buf.Length
      modifies buf
      ensures buf[..at] == old(buf[..at]) && buf[at..at + |frame|] == frame
    {
      for i := 0 to |frame|
        invariant buf[..at] == old(buf[..at]) && buf[at..at + i] == frame[..i]
      {
        buf[at + i] := frame[i];
      }
    }
  }
}
