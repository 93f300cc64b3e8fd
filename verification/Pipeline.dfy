/** Messages from one end to the other: framed into packet memory by the sender,
    carried as a byte stream, cut into packets and parsed by the receiver. */
module Pipeline {
  import opened Bytes
  import opened Options
  import opened WireFields
  import opened Messages
  import opened PacketSizes
  import PacketSteps
  import opened PacketMemory
  import opened Receiving

  // ---------- one packet ----------

  function Frame(id: uint32, body: seq<byte>): (p: seq<byte>)
    requires |body| + HEADER_SIZE < 0x1_0000_0000
    ensures |p| == HEADER_SIZE + |body|
  {
    Encode32(|body| + HEADER_SIZE) + Encode32(id) + body
  }

  lemma FrameFields(id: uint32, body: seq<byte>)
    requires |body| + HEADER_SIZE < 0x1_0000_0000
    ensures var p := Frame(id, body);
            WellFormed(p) && Decode32(p[4..]) == id && p[HEADER_SIZE..] == body
  {
    var size := |body| + HEADER_SIZE;
    var p := Frame(id, body);
    assert p == Encode32(size) + (Encode32(id) + body);
    Decode32Encode32(size, Encode32(id) + body);
    assert p[4..] == Encode32(id) + body;
    Decode32Encode32(id, body);
  }

  /** In bytes: the total length, the id, each low byte first, and the payload. */
  lemma FrameBytes(id: uint32, body: seq<byte>)
    requires id < 65536 && |body| + 8 < 65536
    ensures var size := |body| + 8;
            Frame(id, body) == [size % 256, size / 256, 0, 0, id % 256, id / 256, 0, 0] + body
  {
    WordBytes(|body| + 8);
    WordBytes(id);
  }

  /** What a handler is called with: the packet's id and the message its payload
      parses to; None is a refused packet. */
  datatype Handled = Handled(id: uint32, message: Option<Message>)

  /** The registered handler for an id fixes the kind of message to parse. */
  function Handle(packet: seq<byte>, kindOf: uint32 -> Third): Handled
    requires |packet| >= HEADER_SIZE
  {
    var id := Decode32(packet[4..]);
    Handled(id, ParseInto(Default(kindOf(id)), packet[HEADER_SIZE..]))
  }

  // ---------- a whole stream ----------

  datatype Sent = Sent(id: uint32, message: Message)

  /** The handler registered for the id expects this kind of message, and the
      packet fits a chunk. */
  ghost predicate Sendable(s: Sent, kindOf: uint32 -> Third) {
    && Valid(s.message) && Readable(s.message)
    && Cleared(kindOf(s.id)) == Cleared(s.message.third)
    && |Serialize(s.message)| + HEADER_SIZE <= PACKET_CHUNK_SIZE
  }

  ghost function Packets(sent: seq<Sent>, kindOf: uint32 -> Third): (ps: seq<seq<byte>>)
    requires forall s | s in sent :: Sendable(s, kindOf)
    ensures |ps| == |sent|
  {
    if |sent| == 0 then []
    else
      assert sent[0] in sent && Sendable(sent[0], kindOf);
      [Frame(sent[0].id, Serialize(sent[0].message))] + Packets(sent[1..], kindOf)
  }

  lemma PacketRoundTrip(s: Sent, kindOf: uint32 -> Third)
    requires Sendable(s, kindOf)
    ensures var p := Frame(s.id, Serialize(s.message));
            WellFormed(p) && |p| <= PACKET_CHUNK_SIZE && Handle(p, kindOf) == Handled(s.id, Some(s.message))
  {
    hide Serialize, ParseInto;
    FrameFields(s.id, Serialize(s.message));
    RoundTrip(s.message);
    assert Default(kindOf(s.id)) == Default(s.message.third);
  }

  lemma {:induction false} PacketsAt(sent: seq<Sent>, kindOf: uint32 -> Third, i: nat)
    requires forall s | s in sent :: Sendable(s, kindOf)
    requires i < |sent|
    ensures var p := Packets(sent, kindOf)[i];
            WellFormed(p) && |p| <= PACKET_CHUNK_SIZE && Handle(p, kindOf) == Handled(sent[i].id, Some(sent[i].message))
  {
    if i == 0 {
      assert sent[0] in sent;
      PacketRoundTrip(sent[0], kindOf);
    } else {
      assert forall s | s in sent[1..] :: s in sent;
      PacketsAt(sent[1..], kindOf, i - 1);
      assert sent[1..][i - 1] == sent[i];
    }
  }

  /** Whatever messages are sent, however the network cuts the bytes, the receiver's
      handlers get exactly those messages, once each and in order, with nothing left
      over; and no packet is longer than the receive buffer. */
  lemma EndToEnd(sent: seq<Sent>, kindOf: uint32 -> Third, chunks: seq<seq<byte>>)
    requires forall s | s in sent :: Sendable(s, kindOf)
    requires Concat(chunks) == Concat(Packets(sent, kindOf))
    ensures HeadersOk(Concat(chunks))
    ensures ReceiveAll(chunks).rest == [] && |ReceiveAll(chunks).packets| == |sent|
    ensures forall i | 0 <= i < |sent| ::
              && HEADER_SIZE <= |ReceiveAll(chunks).packets[i]| <= RECV_BUFFER_SIZE
              && Handle(ReceiveAll(chunks).packets[i], kindOf) == Handled(sent[i].id, Some(sent[i].message))
  {
    hide Packets, Handle, ReceiveAll, HeadersOk, Concat, Decode32;
    var ps := Packets(sent, kindOf);
    forall i | 0 <= i < |ps|
      ensures WellFormed(ps[i]) && |ps[i]| <= PACKET_CHUNK_SIZE
              && Handle(ps[i], kindOf) == Handled(sent[i].id, Some(sent[i].message))
    {
      PacketsAt(sent, kindOf, i);
    }
    ChunkingIndependence(ps, chunks);
  }

  // ---------- the sender ----------

  ghost function Buffers(chunks: set<PacketChunk>): set<array<byte>> {
    set c | c in chunks :: c.buffers
  }

  /** Writing inside one packet's region leaves every other packet's bytes alone. */
  lemma OtherBytes(before: seq<byte>, p: nat, s: seq<byte>, start: nat, end: nat)
    requires p + |s| <= |before| && start <= end <= |before|
    requires end <= p || p + |s| <= start
    ensures Overwrite(before, p, s)[start..end] == before[start..end]
  {
  }

  lemma Overwritten(before: seq<byte>, p: nat, s: seq<byte>)
    requires p + |s| <= |before|
    ensures Overwrite(before, p, s)[p..p + |s|] == s
  {
  }

  lemma LiveInChunk(manager: PacketManager, packet: Packet)
    requires manager.Valid() && packet in manager.live
    ensures packet.owner in manager.chunks && packet.End() <= packet.owner.buffers.Length
  {
    manager.PacketsLaid();
  }

  lemma OthersApart(manager: PacketManager, packet: Packet)
    requires manager.Valid() && packet in manager.live
    ensures forall q | q in manager.live && q != packet ::
              && q.End() <= q.owner.buffers.Length
              && (packet.owner.buffers != q.owner.buffers || packet.End() <= q.start || q.End() <= packet.start)
  {
    forall q | q in manager.live && q != packet
      ensures q.End() <= q.owner.buffers.Length
      ensures packet.owner.buffers != q.owner.buffers || packet.End() <= q.start || q.End() <= packet.start
    {
      manager.NoSharedByte(packet, q);
    }
  }

  /** Opens a packet for the calling thread, writes the header, and leaves the
      payload to be written behind it. */
  method OpenFrame(manager: PacketManager, thread: nat, dataSize: nat, pktId: uint32) returns (packet: Packet)
    requires manager.Valid() && dataSize + HEADER_SIZE <= PACKET_CHUNK_SIZE
    requires thread in manager.local ==> !manager.local[thread].isOpen
    modifies manager, manager.chunks, Buffers(manager.chunks)
    ensures manager.Valid()
    ensures manager.live == old(manager.live) + {packet} && packet.open && fresh(packet)
    ensures packet.owner in manager.chunks && (packet.owner in old(manager.chunks) || fresh(packet.owner))
    ensures packet.owner.buffers in Buffers(old(manager.chunks)) || fresh(packet.owner.buffers)
    ensures packet.allocSize == dataSize + HEADER_SIZE && packet.start + packet.allocSize <= packet.owner.buffers.Length
    ensures packet.owner.buffers[packet.start..packet.start + HEADER_SIZE]
         == Encode32(dataSize + HEADER_SIZE) + Encode32(pktId)
    ensures forall q | q in old(manager.live) :: q.Bytes() == old(q.Bytes())
  {
    hide Encode32, Overwrite, PacketManager.Valid, PacketSteps.Extends;
    var r := manager.Open(thread, dataSize + HEADER_SIZE);
    packet := r.value;
    var header := Encode32(dataSize + HEADER_SIZE) + Encode32(pktId);
    ghost var before := packet.owner.buffers[..];
    LiveInChunk(manager, packet);
    OthersApart(manager, packet);
    var next := WriteRaw(header, packet.owner.buffers, packet.start);
    Overwritten(before, packet.start, header);
    forall q | q in old(manager.live) ensures q.Bytes() == old(q.Bytes()) {
      if q.owner.buffers == packet.owner.buffers {
        OtherBytes(before, packet.start, header, q.start, q.End());
      }
    }
  }

  /** A header, and a payload written behind it. */
  lemma FrameWritten(before: seq<byte>, start: nat, id: uint32, body: seq<byte>)
    requires start + HEADER_SIZE + |body| <= |before| && |body| + HEADER_SIZE < 0x1_0000_0000
    requires before[start..start + HEADER_SIZE] == Encode32(|body| + HEADER_SIZE) + Encode32(id)
    ensures Overwrite(before, start + HEADER_SIZE, body)[start..start + HEADER_SIZE + |body|] == Frame(id, body)
  {
    var after := Overwrite(before, start + HEADER_SIZE, body);
    assert after[start..start + HEADER_SIZE] == before[start..start + HEADER_SIZE];
    assert after[start + HEADER_SIZE..start + HEADER_SIZE + |body|] == body;
  }

  /** Closes a packet whose payload has been written behind its header. */
  method CloseFrame(manager: PacketManager, packet: Packet, ghost pktId: uint32, ghost before: seq<byte>,
                    ghost body: seq<byte>)
    requires manager.Valid() && packet in manager.live && packet.open
    requires packet.start + packet.allocSize <= packet.owner.buffers.Length == |before|
    requires packet.allocSize == HEADER_SIZE + |body| <= PACKET_CHUNK_SIZE
    requires before[packet.start..packet.start + HEADER_SIZE] == Encode32(|body| + HEADER_SIZE) + Encode32(pktId)
    requires packet.owner.buffers[..] == Overwrite(before, packet.start + HEADER_SIZE, body)
    modifies packet`writeSize, packet`open, packet.owner`isOpen, packet.owner`usedSize, manager`steps
    ensures manager.Valid() && !packet.open && packet.End() <= packet.owner.buffers.Length
    ensures packet.Bytes() == Frame(pktId, body)
  {
    hide Frame, Overwrite, PacketManager.Valid, PacketSteps.Extends;
    FrameWritten(before, packet.start, pktId, body);
    manager.ClosePacket(packet, packet.allocSize);
  }

  /** MakePacketBuffer for ChatMessage: the packet's committed bytes are the framed
      serialisation, and no other live packet's bytes change. */
  method MakeChatPacket(manager: PacketManager, thread: nat, pkt: ChatMessage, pktId: uint32)
    returns (packet: Packet)
    requires manager.Valid() && Valid(pkt.State()) && |Serialize(pkt.State())| + HEADER_SIZE <= PACKET_CHUNK_SIZE
    requires thread in manager.local ==> !manager.local[thread].isOpen
    modifies manager, manager.chunks, Buffers(manager.chunks)
    ensures manager.Valid() && manager.live == old(manager.live) + {packet} && !packet.open
    ensures packet.Bytes() == Frame(pktId, Serialize(pkt.State()))
    ensures forall q | q in old(manager.live) :: q.Bytes() == old(q.Bytes())
  {
    hide Serialize, Valid, Frame, Overwrite, PacketManager.Valid, PacketSteps.Extends;
    var dataSize := pkt.ByteSizeLong();
    packet := OpenFrame(manager, thread, dataSize, pktId);
    ghost var before := packet.owner.buffers[..];
    OthersApart(manager, packet);
    var next := pkt.InternalSerialize(packet.owner.buffers, packet.start + HEADER_SIZE);
    forall q | q in old(manager.live) ensures q.Bytes() == old(q.Bytes()) {
      if q.owner.buffers == packet.owner.buffers {
        OtherBytes(before, packet.start + HEADER_SIZE, Serialize(pkt.State()), q.start, q.End());
      }
    }
    CloseFrame(manager, packet, pktId, before, Serialize(pkt.State()));
  }

  /** MakePacketBuffer for GetIdResponse: the packet's committed bytes are the framed
      serialisation, and no other live packet's bytes change. */
  method MakeGetIdPacket(manager: PacketManager, thread: nat, pkt: GetIdResponse, pktId: uint32)
    returns (packet: Packet)
    requires manager.Valid() && Valid(pkt.State()) && |Serialize(pkt.State())| + HEADER_SIZE <= PACKET_CHUNK_SIZE
    requires thread in manager.local ==> !manager.local[thread].isOpen
    modifies manager, manager.chunks, Buffers(manager.chunks)
    ensures manager.Valid() && manager.live == old(manager.live) + {packet} && !packet.open
    ensures packet.Bytes() == Frame(pktId, Serialize(pkt.State()))
    ensures forall q | q in old(manager.live) :: q.Bytes() == old(q.Bytes())
  {
    hide Serialize, Valid, Frame, Overwrite, PacketManager.Valid, PacketSteps.Extends;
    var dataSize := pkt.ByteSizeLong();
    packet := OpenFrame(manager, thread, dataSize, pktId);
    ghost var before := packet.owner.buffers[..];
    OthersApart(manager, packet);
    var next := pkt.InternalSerialize(packet.owner.buffers, packet.start + HEADER_SIZE);
    forall q | q in old(manager.live) ensures q.Bytes() == old(q.Bytes()) {
      if q.owner.buffers == packet.owner.buffers {
        OtherBytes(before, packet.start + HEADER_SIZE, Serialize(pkt.State()), q.start, q.End());
      }
    }
    CloseFrame(manager, packet, pktId, before, Serialize(pkt.State()));
  }
}
