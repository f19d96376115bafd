/** The base-station packet of Sensorino.cpp: the sender's 4-byte address,
    a 16-bit service number in two bytes, and the data.  Compose and
    decompose copy bytes with index loops into caller buffers; each is a
    method over arrays specified by a function over sequences.  The
    diagnostic printing both routines do over the serial line is not part
    of this model. */
module BasePacket {
  import opened Common

  /** Address (4 bytes) and service (2 bytes) before a packet's data. */
  const BASE_HEADER := 6
  const NRF24_MAX_MESSAGE_LEN := 32

  /** composeBasePacket's layout: the service's low byte (service & 0xFF)
      in byte 4 and its high byte ((service >> 8) & 0xFF) in byte 5. */
  function BasePacketBytes(thisAddress: seq<byte>, service: uint16, data: seq<byte>): (p: seq<byte>)
    requires |thisAddress| == 4
    ensures |p| == BASE_HEADER + |data|
  {
    thisAddress + [service % 256, service / 256] + data
  }

  /** What decomposeBasePacket writes through its out-parameters. */
  datatype Decomposed = Decomposed(sender: seq<byte>, service: uint16, len: int, data: seq<byte>)

  /** decomposeBasePacket as written: the service is read as
      packet[4] << 8 plus packet[5], high byte first. */
  function DecomposedOf(packet: seq<byte>, totlen: int): Decomposed
    requires BASE_HEADER <= |packet| && totlen <= |packet|
  {
    Decomposed(packet[..4], packet[4] as int * 256 + packet[5] as int, totlen - BASE_HEADER,
               if totlen > BASE_HEADER then packet[BASE_HEADER..totlen] else [])
  }

  /** decomposeBasePacket reading the service in the order compose wrote
      it: packet[5] << 8 plus packet[4]. */
  function DecomposedOfFixed(packet: seq<byte>, totlen: int): Decomposed
    requires BASE_HEADER <= |packet| && totlen <= |packet|
  {
    Decomposed(packet[..4], packet[5] as int * 256 + packet[4] as int, totlen - BASE_HEADER,
               if totlen > BASE_HEADER then packet[BASE_HEADER..totlen] else [])
  }

  /** The service with its two bytes exchanged. */
  function SwapBytes(service: uint16): uint16
  {
    (service % 256) * 256 + service / 256
  }

  /** As written, decomposing a composed packet returns the sender and the
      data, but the service with its bytes exchanged: it comes back intact
      exactly when both bytes are equal (a multiple of 257). */
  lemma ComposeDecomposeAsWritten(thisAddress: seq<byte>, service: uint16, data: seq<byte>)
    requires |thisAddress| == 4
    ensures var d := DecomposedOf(BasePacketBytes(thisAddress, service, data), BASE_HEADER + |data|);
      d == Decomposed(thisAddress, SwapBytes(service), |data|, data)
      && (d.service == service <==> service % 257 == 0)
  {
    var p := BasePacketBytes(thisAddress, service, data);
    assert p[..4] == thisAddress;
    if |data| > 0 {
      assert p[BASE_HEADER..BASE_HEADER + |data|] == data;
    }
    SwapFixedPoints(service);
  }

  lemma SwapFixedPoints(service: uint16)
    ensures SwapBytes(service) == service <==> service % 257 == 0
  {
    var hi, lo := service / 256, service % 256;
    assert service == hi * 256 + lo;
    if hi == lo {
      assert service == hi * 257;
    }
    if service % 257 == 0 {
      var k := service / 257;
      assert service == k * 256 + k;
      assert hi == k && lo == k;
    }
  }

  /** Service 0x0102 is decomposed as 0x0201. */
  lemma SwappedServiceExample()
    ensures DecomposedOf(BasePacketBytes([10, 0, 0, 1], 0x0102, []), BASE_HEADER).service == 0x0201
  {
  }

  /** With the corrected byte order every field survives compose then
      decompose. */
  lemma ComposeDecomposeFixed(thisAddress: seq<byte>, service: uint16, data: seq<byte>)
    requires |thisAddress| == 4
    ensures DecomposedOfFixed(BasePacketBytes(thisAddress, service, data), BASE_HEADER + |data|)
      == Decomposed(thisAddress, service, |data|, data)
  {
    var p := BasePacketBytes(thisAddress, service, data);
    assert p[..4] == thisAddress;
    if |data| > 0 {
      assert p[BASE_HEADER..BASE_HEADER + |data|] == data;
    }
  }

  /** And composing what the corrected decompose returned rebuilds the
      packet, so no packet of at least six bytes is misread. */
  lemma DecomposeComposeFixed(packet: seq<byte>, totlen: int)
    requires BASE_HEADER <= totlen <= |packet|
    ensures var d := DecomposedOfFixed(packet, totlen);
      d.len == |d.data| && BasePacketBytes(d.sender, d.service, d.data) == packet[..totlen]
  {
    var d := DecomposedOfFixed(packet, totlen);
    var rebuilt := BasePacketBytes(d.sender, d.service, d.data);
    assert forall k :: 0 <= k < totlen ==> rebuilt[k] == packet[k];
  }

  /** composeBasePacket. */
  method ComposeBasePacket(buffer: array<byte>, thisAddress: seq<byte>, service: uint16, data: array<byte>, len: nat)
    requires buffer != data && |thisAddress| == 4
    requires buffer.Length >= BASE_HEADER + len && data.Length >= len
    modifies buffer
    ensures buffer[..BASE_HEADER + len] == BasePacketBytes(thisAddress, service, data[..len])
    ensures buffer[BASE_HEADER + len..] == old(buffer[BASE_HEADER + len..])
  {
    buffer[0] := thisAddress[0];
    buffer[1] := thisAddress[1];
    buffer[2] := thisAddress[2];
    buffer[3] := thisAddress[3];
    buffer[4] := service % 256;
    buffer[5] := service / 256 % 256;
    for i := 0 to len
      invariant buffer[..BASE_HEADER] == thisAddress + [service % 256, service / 256]
      invariant buffer[BASE_HEADER..i + BASE_HEADER] == data[..i]
      invariant buffer[BASE_HEADER + len..] == old(buffer[BASE_HEADER + len..])
    {
      buffer[i + BASE_HEADER] := data[i];
    }
    assert buffer[..BASE_HEADER + len] == buffer[..BASE_HEADER] + buffer[BASE_HEADER..BASE_HEADER + len];
  }

  /** decomposeBasePacket: the sender from bytes 0-3, the service (as
      written, high byte first), totlen-6 data bytes from byte 6. */
  method DecomposeBasePacket(packet: array<byte>, totlen: int, sender: array<byte>, data: array<byte>)
    returns (d: Decomposed)
    requires packet != sender && packet != data && sender != data
    requires BASE_HEADER <= packet.Length && totlen <= packet.Length
    requires sender.Length >= 4 && totlen - BASE_HEADER <= data.Length
    modifies sender, data
    ensures d == DecomposedOf(old(packet[..]), totlen)
    ensures sender[..4] == d.sender && data[..Max0(d.len)] == d.data
    ensures sender[4..] == old(sender[4..]) && data[Max0(d.len)..] == old(data[Max0(d.len)..])
  {
    sender[0] := packet[0];
    sender[1] := packet[1];
    sender[2] := packet[2];
    sender[3] := packet[3];
    assert sender[4..] == old(sender[4..]);
    var service := packet[4] as int * 256 + packet[5] as int;
    var len := totlen - BASE_HEADER;
    var i := 0;
    while i < len
      invariant 0 <= i <= Max0(len)
      invariant sender[..4] == packet[..4] && sender[4..] == old(sender[4..])
      invariant data[..i] == packet[BASE_HEADER..i + BASE_HEADER]
      invariant data[Max0(len)..] == old(data[Max0(len)..])
    {
      data[i] := packet[i + BASE_HEADER];
      i := i + 1;
    }
    d := Decomposed(sender[..4], service, len, data[..Max0(len)]);
  }

  /** sendToBase and sendToBroadcast: both build a packet of 6+len bytes
      with composeBasePacket; they differ only in the radio address and
      the broadcast flag handed to the radio, which are not modelled. */
  method BuildBasePacket(thisAddress: seq<byte>, service: uint16, data: array<byte>, len: nat)
    returns (pkt: array<byte>, totlen: int)
    requires |thisAddress| == 4 && data.Length >= len
    ensures fresh(pkt) && totlen == BASE_HEADER + len && pkt.Length == totlen
    ensures pkt[..] == BasePacketBytes(thisAddress, service, data[..len])
  {
    totlen := BASE_HEADER + len;
    pkt := new byte[totlen];
    ComposeBasePacket(pkt, thisAddress, service, data, len);
    assert pkt[..] == pkt[..BASE_HEADER + len];
  }

  /** receive: when the radio delivered a frame (pipe, buffer, totlen)
      before the timeout, decompose it. */
  method ReceiveBase(delivered: Option<(byte, seq<byte>, byte)>, sender: array<byte>, data: array<byte>)
    returns (ok: bool, pipe: byte, d: Decomposed)
    requires sender != data && sender.Length >= 4
    requires delivered.Some? ==>
               (|delivered.value.1| == NRF24_MAX_MESSAGE_LEN
                && delivered.value.2 as int <= NRF24_MAX_MESSAGE_LEN
                && delivered.value.2 as int - BASE_HEADER <= data.Length)
    modifies sender, data
    ensures ok == delivered.Some?
    ensures ok ==>
              (pipe == delivered.value.0
               && d == DecomposedOf(delivered.value.1, delivered.value.2 as int)
               && sender[..4] == d.sender && data[..Max0(d.len)] == d.data
               && sender[4..] == old(sender[4..]) && data[Max0(d.len)..] == old(data[Max0(d.len)..]))
    ensures !ok ==> sender[..] == old(sender[..]) && data[..] == old(data[..])
  {
    if delivered.None? {
      return false, 0, Decomposed([], 0, 0, []);
    }
    var buffer := new byte[NRF24_MAX_MESSAGE_LEN](k requires 0 <= k < NRF24_MAX_MESSAGE_LEN => delivered.value.1[k]);
    assert buffer[..] == delivered.value.1;
    d := DecomposeBasePacket(buffer, delivered.value.2 as int, sender, data);
    ok, pipe := true, delivered.value.0;
  }
}
