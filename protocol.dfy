/** Radio payload framing of the Sensorino protocol (Sensorino_Protocol.cpp):
    the control, error and service payloads that ride inside a packet, and
    the packet itself — the sender's 4-byte address, the message type and
    the payload.

    Every make/unmake routine copies bytes between caller-provided buffers
    with an index loop; each is a method over arrays, specified by a
    function over sequences, and each function pair is proved inverse. */
module RadioProtocol {
  import opened Common

  const BROADCAST_PIPE: byte := 0
  const NRF24_MAX_MESSAGE_LEN := 32
  /** Address (4 bytes) and message type (1 byte) before a packet's data. */
  const PACKET_HEADER := 5
  /** Service type (2 bytes), instance and data format before the data. */
  const SERVICE_HEADER := 4

  // Message types used by the send helpers.
  const ERR: byte := 0
  const CTRL: byte := 1

  // ---------------------------------------------------------------------
  // Control and error payloads: one type byte, then the data

  /** The layout makeCtrlPayload and makeErrorPayload write. */
  function TaggedPayload(kind: byte, data: seq<byte>): (p: seq<byte>)
    ensures |p| == 1 + |data|
  {
    [kind] + data
  }

  /** What unmakeCtrlPayload / unmakeErrorPayload return: the type, the data
      length (totlen-1, negative for an empty payload) and the data. */
  datatype Tagged = Tagged(kind: byte, len: int, data: seq<byte>)

  function ParseTagged(payload: seq<byte>, totlen: int): Tagged
    requires 1 <= |payload| && totlen <= |payload|
  {
    Tagged(payload[0], totlen - 1, if totlen > 1 then payload[1..totlen] else [])
  }

  /** Unmaking what make produced returns the original type and data. */
  lemma TaggedRoundTrip(kind: byte, data: seq<byte>)
    ensures ParseTagged(TaggedPayload(kind, data), |data| + 1) == Tagged(kind, |data|, data)
  {
    if |data| > 0 {
      assert TaggedPayload(kind, data)[1..|data| + 1] == data;
    }
  }

  /** And making from what unmake returned rebuilds the payload. */
  lemma TaggedRoundTripBack(payload: seq<byte>, totlen: int)
    requires 1 <= totlen <= |payload|
    ensures var t := ParseTagged(payload, totlen);
      t.len == |t.data| && TaggedPayload(t.kind, t.data) == payload[..totlen]
  {
    var t := ParseTagged(payload, totlen);
    if totlen > 1 {
      assert TaggedPayload(t.kind, t.data) == [payload[0]] + payload[1..totlen];
    } else {
      assert payload[..totlen] == [payload[0]];
    }
  }

  /** makeCtrlPayload: the control type in byte 0, the data after it. */
  method MakeCtrlPayload(payload: array<byte>, controlT: byte, data: array<byte>, len: nat)
    requires payload != data && payload.Length > len && data.Length >= len
    modifies payload
    ensures payload[..len + 1] == TaggedPayload(controlT, data[..len])
    ensures payload[len + 1..] == old(payload[len + 1..])
  {
    payload[0] := controlT;
    for i := 0 to len
      invariant payload[0] == controlT
      invariant payload[1..i + 1] == data[..i]
      invariant payload[len + 1..] == old(payload[len + 1..])
    {
      payload[i + 1] := data[i];
    }
  }

  /** unmakeCtrlPayload: the type from byte 0, totlen-1 data bytes after it. */
  method UnmakeCtrlPayload(payload: array<byte>, totlen: int, data: array<byte>) returns (controlT: byte, len: int)
    requires payload != data && 1 <= payload.Length && totlen <= payload.Length && totlen - 1 <= data.Length
    modifies data
    ensures len == totlen - 1
    ensures Tagged(controlT, len, data[..Max0(len)]) == ParseTagged(payload[..], totlen)
    ensures data[Max0(len)..] == old(data[Max0(len)..])
  {
    controlT := payload[0];
    len := totlen - 1;
    var i := 0;
    while i < len
      invariant 0 <= i <= Max0(len)
      invariant data[..i] == payload[1..i + 1]
      invariant data[Max0(len)..] == old(data[Max0(len)..])
    {
      data[i] := payload[i + 1];
      i := i + 1;
    }
  }

  /** makeErrorPayload: the error type in byte 0, the data after it. */
  method MakeErrorPayload(payload: array<byte>, errT: byte, data: array<byte>, len: nat)
    requires payload != data && payload.Length > len && data.Length >= len
    modifies payload
    ensures payload[..len + 1] == TaggedPayload(errT, data[..len])
    ensures payload[len + 1..] == old(payload[len + 1..])
  {
    payload[0] := errT;
    for i := 0 to len
      invariant payload[0] == errT
      invariant payload[1..i + 1] == data[..i]
      invariant payload[len + 1..] == old(payload[len + 1..])
    {
      payload[i + 1] := data[i];
    }
  }

  /** unmakeErrorPayload: the same layout as a control payload. */
  method UnmakeErrorPayload(payload: array<byte>, totlen: int, data: array<byte>) returns (errT: byte, len: int)
    requires payload != data && 1 <= payload.Length && totlen <= payload.Length && totlen - 1 <= data.Length
    modifies data
    ensures len == totlen - 1
    ensures Tagged(errT, len, data[..Max0(len)]) == ParseTagged(payload[..], totlen)
    ensures data[Max0(len)..] == old(data[Max0(len)..])
  {
    errT := payload[0];
    len := totlen - 1;
    var i := 0;
    while i < len
      invariant 0 <= i <= Max0(len)
      invariant data[..i] == payload[1..i + 1]
      invariant data[Max0(len)..] == old(data[Max0(len)..])
    {
      data[i] := payload[i + 1];
      i := i + 1;
    }
  }

  // ---------------------------------------------------------------------
  // Service payloads: service type (little-endian), instance, format, data

  function ServicePayload(serviceType: uint16, instance: byte, dataF: byte, data: seq<byte>): (p: seq<byte>)
    ensures |p| == SERVICE_HEADER + |data|
  {
    [serviceType % 256, serviceType / 256, instance, dataF] + data
  }

  /** What unmakeServicePayload returns. */
  datatype ServiceFields = ServiceFields(serviceType: uint16, instance: byte, dataF: byte, len: int, data: seq<byte>)

  function ParseService(payload: seq<byte>, totlen: int): ServiceFields
    requires SERVICE_HEADER <= |payload| && totlen <= |payload|
  {
    ServiceFields(payload[1] as int * 256 + payload[0] as int, payload[2], payload[3], totlen - SERVICE_HEADER,
                  if totlen > SERVICE_HEADER then payload[SERVICE_HEADER..totlen] else [])
  }

  /** Any service type up to 0xFFFF, instance, format and data survive
      make followed by unmake. */
  lemma ServiceRoundTrip(serviceType: uint16, instance: byte, dataF: byte, data: seq<byte>)
    ensures ParseService(ServicePayload(serviceType, instance, dataF, data), |data| + SERVICE_HEADER)
      == ServiceFields(serviceType, instance, dataF, |data|, data)
  {
    var p := ServicePayload(serviceType, instance, dataF, data);
    if |data| > 0 {
      assert p[SERVICE_HEADER..|data| + SERVICE_HEADER] == data;
    }
  }

  /** And unmake followed by make rebuilds the payload. */
  lemma ServiceRoundTripBack(payload: seq<byte>, totlen: int)
    requires SERVICE_HEADER <= totlen <= |payload|
    ensures var f := ParseService(payload, totlen);
      f.len == |f.data| && ServicePayload(f.serviceType, f.instance, f.dataF, f.data) == payload[..totlen]
  {
    var f := ParseService(payload, totlen);
    assert f.serviceType % 256 == payload[0] && f.serviceType / 256 == payload[1];
    var rebuilt := ServicePayload(f.serviceType, f.instance, f.dataF, f.data);
    assert forall k :: 0 <= k < totlen ==> rebuilt[k] == payload[k];
  }

  /** makeServicePayload. */
  method MakeServicePayload(payload: array<byte>, serviceType: uint16, instance: byte, dataF: byte,
                            data: array<byte>, len: nat)
    requires payload != data && payload.Length >= len + SERVICE_HEADER && data.Length >= len
    modifies payload
    ensures payload[..len + SERVICE_HEADER] == ServicePayload(serviceType, instance, dataF, data[..len])
    ensures payload[len + SERVICE_HEADER..] == old(payload[len + SERVICE_HEADER..])
  {
    payload[0] := serviceType % 256;
    payload[1] := serviceType / 256 % 256;
    payload[2] := instance;
    payload[3] := dataF;
    for i := 0 to len
      invariant payload[..SERVICE_HEADER] == [serviceType % 256, serviceType / 256, instance, dataF]
      invariant payload[SERVICE_HEADER..i + SERVICE_HEADER] == data[..i]
      invariant payload[len + SERVICE_HEADER..] == old(payload[len + SERVICE_HEADER..])
    {
      payload[i + SERVICE_HEADER] := data[i];
    }
    assert payload[..len + SERVICE_HEADER]
        == payload[..SERVICE_HEADER] + payload[SERVICE_HEADER..len + SERVICE_HEADER];
  }

  /** unmakeServicePayload. */
  method UnmakeServicePayload(payload: array<byte>, totlen: int, data: array<byte>) returns (f: ServiceFields)
    requires payload != data && SERVICE_HEADER <= payload.Length && totlen <= payload.Length
    requires totlen - SERVICE_HEADER <= data.Length
    modifies data
    ensures f == ParseService(payload[..], totlen)
    ensures data[..Max0(f.len)] == f.data
    ensures data[Max0(f.len)..] == old(data[Max0(f.len)..])
  {
    var serviceType := payload[1] as int * 256 + payload[0] as int;
    var len := totlen - SERVICE_HEADER;
    var i := 0;
    while i < len
      invariant 0 <= i <= Max0(len)
      invariant data[..i] == payload[SERVICE_HEADER..i + SERVICE_HEADER]
      invariant data[Max0(len)..] == old(data[Max0(len)..])
    {
      data[i] := payload[i + SERVICE_HEADER];
      i := i + 1;
    }
    f := ServiceFields(serviceType, payload[2], payload[3], len, data[..Max0(len)]);
  }

  // ---------------------------------------------------------------------
  // Packets

  /** The bytes send hands to the radio and the length it declares. */
  datatype Frame = Frame(bytes: seq<byte>, totlen: int)

  /** send as written: the packet array is len+7 bytes long and declared
      so, but only the address, the type and the len data bytes are
      written; the last two bytes are whatever the stack held (`stale`). */
  function SendFrame(thisAddress: seq<byte>, msgType: byte, data: seq<byte>, stale: seq<byte>): (f: Frame)
    requires |thisAddress| == 4 && |stale| == 2
    ensures |f.bytes| == f.totlen
  {
    Frame(thisAddress + [msgType] + data + stale, |data| + 7)
  }

  /** send with the length the receiver expects: header and data only. */
  function SendFrameFixed(thisAddress: seq<byte>, msgType: byte, data: seq<byte>): (f: Frame)
    requires |thisAddress| == 4
    ensures |f.bytes| == f.totlen
  {
    Frame(thisAddress + [msgType] + data, |data| + PACKET_HEADER)
  }

  /** What receive returns for a frame from the radio. */
  datatype Received = Received(broadcast: bool, sender: seq<byte>, msgType: byte, len: int, data: seq<byte>)

  function ParseFrame(pipe: byte, buffer: seq<byte>, totlen: int): Received
    requires PACKET_HEADER <= |buffer| && totlen <= |buffer|
  {
    Received(pipe == BROADCAST_PIPE, buffer[..4], buffer[4], totlen - PACKET_HEADER,
             if totlen > PACKET_HEADER then buffer[PACKET_HEADER..totlen] else [])
  }

  /** send's packet assembly: the address in bytes 0-3, the type in byte 4,
      the data from byte 5, in an array of len+7 bytes. */
  method BuildPacket(thisAddress: seq<byte>, msgType: byte, data: array<byte>, len: nat, stale: seq<byte>)
    returns (pkt: array<byte>, totlen: int)
    requires |thisAddress| == 4 && |stale| == 2 && data.Length >= len
    ensures fresh(pkt)
    ensures Frame(pkt[..], totlen) == SendFrame(thisAddress, msgType, data[..len], stale)
  {
    totlen := len + 7;
    ghost var want := thisAddress + [msgType] + data[..len] + stale;
    pkt := new byte[totlen](k requires 0 <= k < len + 7 => if k < len + PACKET_HEADER then 0 else stale[k - len - PACKET_HEADER]);
    pkt[0] := thisAddress[0];
    pkt[1] := thisAddress[1];
    pkt[2] := thisAddress[2];
    pkt[3] := thisAddress[3];
    pkt[4] := msgType;
    for i := 0 to len
      invariant forall k :: 0 <= k < i + PACKET_HEADER ==> pkt[k] == want[k]
      invariant forall k :: len + PACKET_HEADER <= k < len + 7 ==> pkt[k] == want[k]
    {
      pkt[i + PACKET_HEADER] := data[i];
    }
    assert pkt[..] == want;
  }

  /** receive: when the radio delivered a frame, the sender from bytes 0-3,
      the type from byte 4, totlen-5 data bytes from byte 5. */
  method Receive(delivered: Option<(byte, seq<byte>, byte)>, sender: array<byte>, databuffer: array<byte>)
    returns (ok: bool, r: Received)
    requires sender != databuffer && sender.Length >= 4
    requires delivered.Some? ==>
               (|delivered.value.1| == NRF24_MAX_MESSAGE_LEN
                && delivered.value.2 as int <= NRF24_MAX_MESSAGE_LEN
                && delivered.value.2 as int - PACKET_HEADER <= databuffer.Length)
    modifies sender, databuffer
    ensures ok == delivered.Some?
    ensures ok ==> r == ParseFrame(delivered.value.0, delivered.value.1, delivered.value.2 as int)
    ensures ok ==> sender[..4] == r.sender && databuffer[..Max0(r.len)] == r.data
    ensures ok ==> sender[4..] == old(sender[4..]) && databuffer[Max0(r.len)..] == old(databuffer[Max0(r.len)..])
    ensures !ok ==> sender[..] == old(sender[..]) && databuffer[..] == old(databuffer[..])
  {
    if delivered.None? {
      return false, Received(false, [], 0, 0, []);
    }
    var (pipe, buffer, totlen) := delivered.value;
    sender[0] := buffer[0];
    sender[1] := buffer[1];
    sender[2] := buffer[2];
    sender[3] := buffer[3];
    assert sender[4..] == old(sender[4..]);
    var len := totlen as int - PACKET_HEADER;
    var i := 0;
    while i < len
      invariant 0 <= i <= Max0(len)
      invariant sender[..4] == buffer[..4] && sender[4..] == old(sender[4..])
      invariant databuffer[..i] == buffer[PACKET_HEADER..i + PACKET_HEADER]
      invariant databuffer[Max0(len)..] == old(databuffer[Max0(len)..])
    {
      databuffer[i] := buffer[i + PACKET_HEADER];
      i := i + 1;
    }
    ok := true;
    r := Received(pipe == BROADCAST_PIPE, sender[..4], buffer[4], len, databuffer[..Max0(len)]);
  }

  /** As written, a packet sent with len data bytes is received with len+2
      data bytes: the two stale bytes send declares but never writes. */
  lemma SendReceiveAsWritten(thisAddress: seq<byte>, msgType: byte, data: seq<byte>, stale: seq<byte>, pipe: byte)
    requires |thisAddress| == 4 && |stale| == 2
    requires |data| + 7 <= NRF24_MAX_MESSAGE_LEN
    ensures var f := SendFrame(thisAddress, msgType, data, stale);
      var r := ParseFrame(pipe, f.bytes, f.totlen);
      r.len == |data| + 2 && r.data == data + stale
  {
    var f := SendFrame(thisAddress, msgType, data, stale);
    assert f.bytes[PACKET_HEADER..f.totlen] == data + stale;
  }

  /** With the length send should declare, the receiver gets back exactly
      the sender's address, the type and the data. */
  lemma SendReceiveFixed(thisAddress: seq<byte>, msgType: byte, data: seq<byte>, pipe: byte)
    requires |thisAddress| == 4
    ensures var f := SendFrameFixed(thisAddress, msgType, data);
      ParseFrame(pipe, f.bytes, f.totlen) == Received(pipe == BROADCAST_PIPE, thisAddress, msgType, |data|, data)
  {
    var f := SendFrameFixed(thisAddress, msgType, data);
    assert f.bytes[..4] == thisAddress;
    if |data| > 0 {
      assert f.bytes[PACKET_HEADER..f.totlen] == data;
    }
  }

  // ---------------------------------------------------------------------
  // The send helpers: which payload bytes they hand to send

  /** sendControl and sendError hand send the whole len+1-byte payload. */
  function ControlSendData(controlT: byte, data: seq<byte>): (d: seq<byte>)
    ensures |d| == |data| + 1
    ensures ParseTagged(d, |d|) == Tagged(controlT, |data|, data)
  {
    TaggedRoundTrip(controlT, data);
    TaggedPayload(controlT, data)
  }

  /** sendService as written hands send len+1 bytes of the len+4-byte
      service payload. */
  function ServiceSendData(serviceType: uint16, instance: byte, dataF: byte, data: seq<byte>): (d: seq<byte>)
    ensures |d| == |data| + 1
  {
    ServicePayload(serviceType, instance, dataF, data)[..|data| + 1]
  }

  /** So the receiver of a service message with at least three data bytes
      gets three of them fewer, whatever the data. */
  lemma ServiceSendLosesData(serviceType: uint16, instance: byte, dataF: byte, data: seq<byte>)
    requires |data| >= 3
    ensures var d := ServiceSendData(serviceType, instance, dataF, data);
      var f := ParseService(d, |d|);
      f.len == |data| - 3 && f.data == data[..|data| - 3]
  {
    var d := ServiceSendData(serviceType, instance, dataF, data);
    if |data| > 3 {
      assert d[SERVICE_HEADER..|d|] == data[..|data| - 3];
    }
  }

  /** End to end, through send and receive as written: the receiver's
      unmakeServicePayload gets len-1 data bytes, the first len-3 data
      bytes followed by the two stale bytes send never writes. */
  lemma ServiceSendReceived(thisAddress: seq<byte>, msgType: byte, pipe: byte, stale: seq<byte>,
                            serviceType: uint16, instance: byte, dataF: byte, data: seq<byte>)
    requires |thisAddress| == 4 && |stale| == 2
    requires 3 <= |data| && |data| + 8 <= NRF24_MAX_MESSAGE_LEN
    ensures var d := ServiceSendData(serviceType, instance, dataF, data);
      var f := SendFrame(thisAddress, msgType, d, stale);
      var r := ParseFrame(pipe, f.bytes, f.totlen);
      && r.len == |data| + 3
      && ParseService(r.data, r.len)
         == ServiceFields(serviceType, instance, dataF, |data| - 1, data[..|data| - 3] + stale)
  {
    var d := ServiceSendData(serviceType, instance, dataF, data);
    SendReceiveAsWritten(thisAddress, msgType, d, stale, pipe);
    var r := ParseFrame(pipe, SendFrame(thisAddress, msgType, d, stale).bytes, |d| + 7);
    assert r.data == d + stale;
    assert r.data[SERVICE_HEADER..r.len] == data[..|data| - 3] + stale;
  }

  /** sendService handing over the whole payload: the receiver's unmake
      returns every field. */
  function ServiceSendDataFixed(serviceType: uint16, instance: byte, dataF: byte, data: seq<byte>): (d: seq<byte>)
    ensures |d| == |data| + SERVICE_HEADER
    ensures ParseService(d, |d|) == ServiceFields(serviceType, instance, dataF, |data|, data)
  {
    ServiceRoundTrip(serviceType, instance, dataF, data);
    ServicePayload(serviceType, instance, dataF, data)
  }
}
