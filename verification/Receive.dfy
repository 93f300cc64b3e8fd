/** The receive side of a session: a sliding buffer that the network writes into
    (NetworkBuffer), the loop that cuts it into packets (PacketSession), and the
    step that joins them on every completed receive (NetworkSession). */
module Receiving {
  import opened Arithmetic
  import opened Bytes
  import opened Options

  const HEADER_SIZE: nat := 8
  const RECV_BUFFER_SIZE: nat := 4096 * 4

  // ---------- framing ----------

  /** The packets found at the front of some bytes, and what is left. */
  datatype Scan = Scan(packets: seq<seq<byte>>, rest: seq<byte>)

  /** No header met by the loop announces a size of zero. */
  predicate HeadersOk(s: seq<byte>) {
    |s| >= HEADER_SIZE ==>
      && Decode32(s) > 0
      && (|s| >= Decode32(s) ==> HeadersOk(s[Decode32(s)..]))
  }

  function Frames(s: seq<byte>): Scan
    requires HeadersOk(s)
  {
    if |s| < HEADER_SIZE || |s| < Decode32(s) then Scan([], s)
    else
      var size := Decode32(s);
      var tail := Frames(s[size..]);
      Scan([s[..size]] + tail.packets, tail.rest)
  }

  /** Nothing is lost or invented: packets and rest are the bytes. */
  lemma {:induction false} FramesKeepBytes(s: seq<byte>)
    requires HeadersOk(s)
    ensures Concat(Frames(s).packets) + Frames(s).rest == s
  {
    hide Decode32, Concat, Frames, HeadersOk;
    if |s| >= HEADER_SIZE && |s| >= Decode32(s) {
      var size := Decode32(s);
      FramesStep(s);
      FramesKeepBytes(s[size..]);
      var tail := Frames(s[size..]);
      ConcatCons(s[..size], tail.packets);
      Regroup(s[..size], Concat(tail.packets), tail.rest);
      assert s == s[..size] + s[size..];
    } else {
      NothingYet(s);
      NoPackets();
    }
  }

  /** In bytes: data that begin with their own length, low byte first, are one packet. */
  lemma LiteralPacket(data: seq<byte>)
    requires 8 <= |data| < 65536 && data[..4] == [|data| % 256, |data| / 256, 0, 0]
    ensures HeadersOk(data) && Frames(data) == Scan([data], [])
  {
    var tail := data[4..];
    assert data == [|data| % 256, |data| / 256, 0, 0] + tail;
    LowByteFirst(|data| % 256, |data| / 256, 0, 0, tail);
    assert data[|data|..] == [] && data[..|data|] == data;
  }

  /** One byte less, or a length one greater, and there is no packet yet. */
  lemma LiteralPart(data: seq<byte>, size: nat)
    requires 4 <= |data| < size < 65536 && data[..4] == [size % 256, size / 256, 0, 0]
    ensures HeadersOk(data) && Frames(data) == Scan([], data)
  {
    var tail := data[4..];
    assert data == [size % 256, size / 256, 0, 0] + tail;
    LowByteFirst(size % 256, size / 256, 0, 0, tail);
  }

  lemma NoPackets()
    ensures Concat<byte>([]) == []
  {
  }

  /** Less than a packet scans into nothing. */
  lemma NothingYet(s: seq<byte>)
    requires HeadersOk(s) && (|s| < HEADER_SIZE || |s| < Decode32(s))
    ensures Frames(s) == Scan([], s)
  {
  }

  lemma Regroup<T>(a: seq<T>, b: seq<T>, c: seq<T>)
    ensures (a + b) + c == a + (b + c)
  {
  }

  /** What is left is not yet a whole packet. */
  lemma {:induction false} RestIsIncomplete(s: seq<byte>)
    requires HeadersOk(s)
    ensures var rest := Frames(s).rest; |rest| < HEADER_SIZE || |rest| < Decode32(rest)
  {
    hide Decode32;
    if |s| >= HEADER_SIZE && |s| >= Decode32(s) {
      RestIsIncomplete(s[Decode32(s)..]);
    }
  }

  /** The loop as the code has it, given up after `turns` turns. */
  function Loop(s: seq<byte>, turns: nat): Option<Scan> {
    if |s| < HEADER_SIZE || |s| < Decode32(s) then Some(Scan([], s))
    else if turns == 0 then None
    else
      match Loop(s[Decode32(s)..], turns - 1)
      case None => None
      case Some(r) => Some(Scan([s[..Decode32(s)]] + r.packets, r.rest))
  }

  lemma {:induction false} LoopScans(s: seq<byte>, turns: nat)
    requires HeadersOk(s) && turns >= |s|
    ensures Loop(s, turns) == Some(Frames(s))
    decreases |s|
  {
    hide Decode32;
    if |s| >= HEADER_SIZE && |s| >= Decode32(s) {
      LoopScans(s[Decode32(s)..], turns - 1);
    }
  }

  lemma {:induction false} LoopHangs(s: seq<byte>, turns: nat)
    requires !HeadersOk(s)
    ensures Loop(s, turns).None?
    decreases turns
  {
    hide Decode32;
    if turns > 0 {
      assert Decode32(s) == 0 ==> s[Decode32(s)..] == s;
      LoopHangs(s[Decode32(s)..], turns - 1);
    }
  }

  /** The loop ends exactly when it meets no header announcing zero, and then with
      the scan. */
  lemma LoopEnds(s: seq<byte>)
    ensures HeadersOk(s) <==> exists turns: nat :: Loop(s, turns).Some?
    ensures HeadersOk(s) ==> Loop(s, |s|) == Some(Frames(s))
  {
    hide Loop, Frames, HeadersOk;
    if HeadersOk(s) {
      LoopScans(s, |s|);
    } else {
      forall turns: nat ensures Loop(s, turns).None? {
        LoopHangs(s, turns);
      }
    }
  }

  /** Eight zero bytes keep it going for ever. */
  lemma ZeroHeaderHangs(turns: nat)
    ensures Loop([0, 0, 0, 0, 0, 0, 0, 0], turns).None?
  {
    LoopHangs([0, 0, 0, 0, 0, 0, 0, 0], turns);
  }

  lemma ConcatCons<T>(p: seq<T>, ps: seq<seq<T>>)
    ensures Concat([p] + ps) == p + Concat(ps)
  {
    assert ([p] + ps)[1..] == ps;
  }

  /** A front part of accepted bytes that is less than a packet is accepted. */
  lemma FrontOk(s: seq<byte>, t: seq<byte>)
    requires HeadersOk(s + t) && (|s| < HEADER_SIZE || |s| < Decode32(s))
    ensures HeadersOk(s)
  {
    if |s| >= HEADER_SIZE {
      Decode32Prefix(s + t, s);
    }
  }

  /** A packet in front of accepted bytes. */
  lemma PacketOk(s: seq<byte>)
    requires |s| >= HEADER_SIZE && |s| >= Decode32(s) > 0 && HeadersOk(s[Decode32(s)..])
    ensures HeadersOk(s)
  {
  }

  /** Scanning in two instalments, keeping what is left of the first, is scanning
      once. */
  lemma {:induction false} FramesAppend(s: seq<byte>, t: seq<byte>)
    requires HeadersOk(s + t)
    ensures HeadersOk(s) && HeadersOk(Frames(s).rest + t)
    ensures Frames(s + t).packets == Frames(s).packets + Frames(Frames(s).rest + t).packets
    ensures Frames(s + t).rest == Frames(Frames(s).rest + t).rest
  {
    hide Decode32, Frames, HeadersOk;
    if |s| >= HEADER_SIZE && |s| >= Decode32(s) {
      var size := Decode32(s);
      Decode32Prefix(s + t, s);
      FramesStep(s + t);
      assert (s + t)[size..] == s[size..] + t && (s + t)[..size] == s[..size];
      FramesAppend(s[size..], t);
      PacketOk(s);
      FramesStep(s);
    } else {
      FrontOk(s, t);
      NothingYet(s);
    }
  }

  lemma FramesStep(s: seq<byte>)
    requires HeadersOk(s) && |s| >= HEADER_SIZE && |s| >= Decode32(s)
    ensures Decode32(s) > 0 && HeadersOk(s[Decode32(s)..])
    ensures Frames(s).packets == [s[..Decode32(s)]] + Frames(s[Decode32(s)..]).packets
    ensures Frames(s).rest == Frames(s[Decode32(s)..]).rest
  {
  }

  lemma Window<T>(s: seq<T>, start: nat, len: nat, p: nat, n: nat)
    requires start + len <= |s| && p + n <= len
    ensures s[start..start + len][p..p + n] == s[start + p..start + p + n]
    ensures s[start..start + len][p..] == s[start + p..start + len]
  {
    var w := s[start..start + len];
    assert forall i | 0 <= i < len :: w[i] == s[start + i];
  }

  lemma WindowOf(a: array<byte>, start: nat, len: nat, p: nat, n: nat)
    requires start + len <= a.Length && p + n <= len
    ensures a[start..start + len][p..p + n] == a[start + p..start + p + n]
    ensures a[start..start + len][p..] == a[start + p..start + len]
  {
    Window(a[..], start, len, p, n);
  }

  /** One turn of the loop, `p` bytes into the data. */
  lemma ScanStep(data: seq<byte>, p: nat)
    requires p <= |data| && HeadersOk(data[p..])
    ensures var s := data[p..];
      if |s| < HEADER_SIZE || |s| < Decode32(s) then Frames(s) == Scan([], s)
      else
        var q := p + Decode32(s);
        && q > p && HeadersOk(data[q..])
        && Frames(s).packets == [data[p..q]] + Frames(data[q..]).packets
        && Frames(s).rest == Frames(data[q..]).rest
  {
    var s := data[p..];
    if |s| >= HEADER_SIZE && |s| >= Decode32(s) {
      assert s[Decode32(s)..] == data[p + Decode32(s)..];
      assert s[..Decode32(s)] == data[p..p + Decode32(s)];
    }
  }

  /** The packets in the first `p` bytes of the data, from where scanning goes on. */
  ghost predicate Scanned(data: seq<byte>, p: nat, got: seq<seq<byte>>) {
    && p <= |data| && HeadersOk(data) && HeadersOk(data[p..])
    && Frames(data) == Scan(got + Frames(data[p..]).packets, Frames(data[p..]).rest)
  }

  lemma ScannedNothing(data: seq<byte>)
    requires HeadersOk(data)
    ensures Scanned(data, 0, [])
  {
    hide HeadersOk, Frames;
    assert data[0..] == data;
  }

  lemma ScannedMore(data: seq<byte>, p: nat, got: seq<seq<byte>>)
    requires Scanned(data, p, got)
    ensures p <= |data|
    ensures var s := data[p..];
      if |s| < HEADER_SIZE || |s| < Decode32(s) then Frames(data) == Scan(got, s)
      else
        var q := p + Decode32(s);
        q > p && Scanned(data, q, got + [data[p..q]])
  {
    hide HeadersOk, Frames;
    ScanStep(data, p);
  }

  // ---------- a whole connection ----------

  /** What a session has delivered and still holds after receiving the chunks. */
  function ReceiveAll(chunks: seq<seq<byte>>): (r: Scan)
    requires HeadersOk(Concat(chunks))
    ensures r == Frames(Concat(chunks))
  {
    if |chunks| == 0 then Scan([], [])
    else
      var last := |chunks| - 1;
      assert chunks == chunks[..last] + [chunks[last]];
      ConcatAppend(chunks[..last], [chunks[last]]);
      assert Concat([chunks[last]]) == chunks[last];
      FramesAppend(Concat(chunks[..last]), chunks[last]);
      var before := ReceiveAll(chunks[..last]);
      var now := Frames(before.rest + chunks[last]);
      Scan(before.packets + now.packets, now.rest)
  }

  predicate WellFormed(p: seq<byte>) {
    |p| >= HEADER_SIZE && Decode32(p) == |p|
  }

  ghost predicate AllWellFormed(ps: seq<seq<byte>>) {
    forall p | p in ps :: WellFormed(p)
  }

  /** A packet at the front of a stream is cut off as soon as it is whole. */
  lemma FirstPacket(p: seq<byte>, s: seq<byte>, stream: seq<byte>)
    requires WellFormed(p) && s <= p + stream
    ensures |s| >= HEADER_SIZE ==> Decode32(s) == |p|
    ensures |s| >= |p| ==> s[..|p|] == p && s[|p|..] <= stream
    ensures |s| < |p| ==> s < p
  {
    assert s == (p + stream)[..|s|];
    if |s| >= HEADER_SIZE {
      Decode32Prefix(s, p);
    }
  }

  /** Any front part of a stream of well-formed packets scans into the packets it
      contains whole, and a proper part of the next one. */
  lemma {:induction false} PrefixScans(ps: seq<seq<byte>>, s: seq<byte>)
    requires AllWellFormed(ps) && s <= Concat(ps)
    ensures HeadersOk(s)
    ensures Frames(s).packets <= ps
    ensures Frames(s).packets == ps ==> Frames(s).rest == []
    ensures var k := |Frames(s).packets|; k < |ps| ==> Frames(s).rest < ps[k]
    decreases |ps|
  {
    hide Decode32;
    if |ps| > 0 {
      var p, tail := ps[0], ps[1..];
      assert p in ps && forall q | q in tail :: q in ps;
      FirstPacket(p, s, Concat(tail));
      if |s| >= |p| {
        PrefixScans(tail, s[|p|..]);
        FramesStep(s);
        assert ps == [p] + tail;
      }
    }
  }

  /** However a stream of packets is cut into chunks, each packet is delivered
      exactly once, in order, as soon as its last byte arrives; what is left is the
      undelivered part of the stream. */
  lemma ChunkingIndependence(ps: seq<seq<byte>>, chunks: seq<seq<byte>>)
    requires AllWellFormed(ps) && Concat(chunks) <= Concat(ps)
    ensures HeadersOk(Concat(chunks))
    ensures var r := ReceiveAll(chunks);
            && r.packets <= ps
            && Concat(r.packets) + r.rest == Concat(chunks)
            && (|r.packets| < |ps| ==> r.rest < ps[|r.packets|])
    ensures Concat(chunks) == Concat(ps) ==> ReceiveAll(chunks) == Scan(ps, [])
  {
    hide Decode32, Concat, ReceiveAll, Frames, HeadersOk;
    var s := Concat(chunks);
    PrefixScans(ps, s);
    FramesKeepBytes(s);
    var r := ReceiveAll(chunks);
    if |r.packets| < |ps| {
      NextPacketMissing(ps, r.packets, r.rest);
    }
  }

  /** A stream is longer than some of its packets and part of the next. */
  lemma NextPacketMissing(ps: seq<seq<byte>>, front: seq<seq<byte>>, part: seq<byte>)
    requires front <= ps && |front| < |ps| && part < ps[|front|]
    ensures Concat(front) + part != Concat(ps)
  {
    var back := ps[|front|..];
    assert ps == front + back;
    ConcatAppend(front, back);
    assert |Concat(back)| >= |back[0]| > |part|;
  }

  /** When no packet is longer than the buffer, what is held between receives
      never fills it. */
  lemma HeldIsShort(ps: seq<seq<byte>>, chunks: seq<seq<byte>>, capacity: nat)
    requires AllWellFormed(ps) && Concat(chunks) <= Concat(ps)
    requires capacity > 0 && forall p | p in ps :: |p| <= capacity
    ensures HeadersOk(Concat(chunks)) && |ReceiveAll(chunks).rest| < capacity
  {
    hide Decode32, Concat, ReceiveAll, Frames, HeadersOk;
    PrefixScans(ps, Concat(chunks));
    var r := ReceiveAll(chunks);
    if |r.packets| < |ps| {
      assert ps[|r.packets|] in ps;
    }
  }

  /** For any bytes the loop accepts: what is held fills a buffer only if it is the
      front of a packet that announces more than the buffer holds. */
  lemma FullMeansTooLong(s: seq<byte>, capacity: nat)
    requires HeadersOk(s) && capacity >= HEADER_SIZE && |Frames(s).rest| == capacity
    ensures Decode32(Frames(s).rest) > capacity
  {
    RestIsIncomplete(s);
  }

  // ---------- the sliding buffer ----------

  /** memcpy to a lower address, byte by byte from the front; the two ranges may
      overlap. */
  method ForwardCopy(a: array<byte>, dst: nat, src: nat, n: nat)
    requires dst <= src && src + n <= a.Length
    modifies a
    ensures a[dst..dst + n] == old(a[src..src + n])
    ensures forall j | 0 <= j < a.Length && !(dst <= j < dst + n) :: a[j] == old(a[j])
  {
    ghost var data := a[src..src + n];
    for i := 0 to n
      invariant a[dst..dst + i] == data[..i]
      invariant forall j | dst + i <= j < a.Length :: a[j] == old(a[j])
      invariant forall j | 0 <= j < dst :: a[j] == old(a[j])
    {
      assert a[src + i] == data[i];
      a[dst + i] := a[src + i];
    }
  }

  /** A window of `capacity` bytes at `offset` in a registered region. */
  class NetworkBuffer {
    const region: array<byte>
    const offset: nat
    const capacity: nat
    const reSizePos: nat
    var readPos: nat
    var writePos: nat

    ghost predicate Valid()
      reads this
    {
      && offset + capacity <= region.Length
      && reSizePos == capacity / 2
      && readPos <= writePos <= capacity
    }

    /** The bytes written and not yet read. */
    ghost function Data(): seq<byte>
      requires Valid()
      reads this, region
    {
      region[offset + readPos..offset + writePos]
    }

    /** The data once `n` more bytes behind it count as written. */
    ghost function DataWith(n: nat): seq<byte>
      requires Valid() && n <= FreeSize()
      reads this, region
    {
      region[offset + readPos..offset + writePos + n]
    }

    constructor (region: array<byte>, offset: nat, capacity: nat)
      requires offset + capacity <= region.Length
      ensures Valid() && Data() == []
      ensures this.region == region && this.offset == offset && this.capacity == capacity
      ensures readPos == writePos == 0
    {
      this.region, this.offset, this.capacity, this.reSizePos := region, offset, capacity, capacity / 2;
      readPos, writePos := 0, 0;
    }

    function DataSize(): (n: nat)
      requires Valid()
      reads this, region
      ensures n == |Data()|
    {
      writePos - readPos
    }

    function FreeSize(): (n: nat)
      requires Valid()
      reads this
    {
      capacity - writePos
    }

    /** Makes room without changing the data: afterwards free space is at least half
        the buffer or all that is not data, and is none only if data fills the
        buffer. No byte outside the window is touched. */
    method Clean()
      requires Valid()
      modifies this`readPos, this`writePos, region
      ensures Valid() && Data() == old(Data())
      ensures readPos == if |Data()| == 0 || old(FreeSize()) < capacity / 2 then 0 else old(readPos)
      ensures FreeSize() >= Min(capacity / 2, capacity - |Data()|)
      ensures FreeSize() == 0 <==> |Data()| == capacity
      ensures forall i | 0 <= i < region.Length && !(offset <= i < offset + capacity) :: region[i] == old(region[i])
    {
      var dataSize := DataSize();
      if dataSize == 0 {
        readPos, writePos := 0, 0;
      } else {
        if FreeSize() < reSizePos {
          ForwardCopy(region, offset, offset + readPos, dataSize);
          readPos := 0;
          writePos := dataSize;
        }
      }
    }

    method OnRead(numOfBytes: nat) returns (ok: bool)
      requires Valid()
      modifies this`readPos
      ensures Valid() && ok == (numOfBytes <= |old(Data())|)
      ensures Data() == if ok then old(Data())[numOfBytes..] else old(Data())
      ensures !ok ==> readPos == old(readPos)
    {
      if numOfBytes > DataSize() {
        return false;
      }
      readPos := readPos + numOfBytes;
      return true;
    }

    /** The bytes were written behind the data by the network before the call. */
    method OnWrite(numOfBytes: nat) returns (ok: bool)
      requires Valid()
      modifies this`writePos
      ensures Valid() && ok == (numOfBytes <= old(FreeSize()))
      ensures ok ==> Data() == old(DataWith(numOfBytes))
      ensures !ok ==> writePos == old(writePos)
      ensures writePos == old(writePos) + if ok then numOfBytes else 0
    {
      if numOfBytes > FreeSize() {
        return false;
      }
      writePos := writePos + numOfBytes;
      return true;
    }
  }

  // ---------- the session ----------

  class Session {
    const recvBuffer: NetworkBuffer
    var connected: bool
    /** Every packet handed to OnRecvPacket so far. */
    var delivered: seq<seq<byte>>

    constructor (buffer: NetworkBuffer)
      ensures recvBuffer == buffer && connected && delivered == []
    {
      recvBuffer, connected, delivered := buffer, true, [];
    }

    method OnRecvPacket(packet: seq<byte>)
      modifies this`delivered
      ensures delivered == old(delivered) + [packet]
    {
      delivered := delivered + [packet];
    }

    /** PacketSession::OnRecv on `len` bytes at `start`. */
    method OnRecv(buffer: array<byte>, start: nat, len: nat) returns (processLen: nat)
      requires start + len <= buffer.Length && HeadersOk(buffer[start..start + len])
      modifies this`delivered
      ensures processLen <= len
      ensures delivered == old(delivered) + Frames(buffer[start..start + len]).packets
      ensures buffer[start..start + len][processLen..] == Frames(buffer[start..start + len]).rest
    {
      hide Decode32, Frames, HeadersOk, Scanned;
      processLen := 0;
      ghost var data, got := buffer[start..start + len], [];
      ScannedNothing(data);
      while true
        invariant processLen <= len && Scanned(data, processLen, got)
        invariant delivered == old(delivered) + got
        decreases len - processLen
      {
        ScannedMore(data, processLen, got);
        var dataSize := len - processLen;
        if dataSize < HEADER_SIZE {
          break;
        }
        var at := start + processLen;
        WindowOf(buffer, start, len, processLen, 0);
        var headerSize := Decode32(buffer[at..start + len]);
        if dataSize < headerSize {
          break;
        }
        var packet := buffer[at..at + headerSize];
        WindowOf(buffer, start, len, processLen, headerSize);
        OnRecvPacket(packet);
        got := got + [packet];
        processLen := processLen + headerSize;
      }
    }

    /** OnRecv on the unread bytes, and OnRead of what it processed. */
    method ProcessData() returns (ok: bool)
      requires recvBuffer.Valid() && HeadersOk(recvBuffer.Data())
      modifies this`delivered, recvBuffer`readPos
      ensures ok && recvBuffer.Valid()
      ensures var scan := Frames(old(recvBuffer.Data()));
        delivered == old(delivered) + scan.packets && recvBuffer.Data() == scan.rest
    {
      hide Decode32, Frames, HeadersOk;
      var dataSize := recvBuffer.DataSize();
      ghost var data := recvBuffer.Data();
      var start := recvBuffer.offset + recvBuffer.readPos;
      assert recvBuffer.region[start..start + dataSize] == data;
      var processLen := OnRecv(recvBuffer.region, start, dataSize);
      ok := recvBuffer.OnRead(processLen);
    }

    /** A completed receive of `numOfBytes`, already written behind the data. */
    method ProcessRecv(numOfBytes: nat)
      requires recvBuffer.Valid() && connected
      requires numOfBytes <= recvBuffer.FreeSize() ==> HeadersOk(recvBuffer.DataWith(numOfBytes))
      modifies this, recvBuffer, recvBuffer.region
      ensures recvBuffer.Valid()
      ensures connected == (0 < numOfBytes <= old(recvBuffer.FreeSize()))
      ensures !connected ==> delivered == old(delivered) && recvBuffer.Data() == old(recvBuffer.Data())
      ensures connected ==>
        var scan := Frames(old(recvBuffer.DataWith(numOfBytes)));
        && delivered == old(delivered) + scan.packets
        && recvBuffer.Data() == scan.rest
        && recvBuffer.FreeSize() >= Min(recvBuffer.capacity / 2, recvBuffer.capacity - |scan.rest|)
        && (recvBuffer.FreeSize() == 0 <==> |scan.rest| == recvBuffer.capacity)
        && (recvBuffer.FreeSize() == 0 && recvBuffer.capacity >= HEADER_SIZE ==>
              Decode32(scan.rest) > recvBuffer.capacity)
    {
      hide Decode32, Frames, HeadersOk;
      if numOfBytes == 0 {
        connected := false;
        return;
      }
      var ok := recvBuffer.OnWrite(numOfBytes);
      if !ok {
        connected := false;
        return;
      }
      ghost var data := recvBuffer.Data();
      ok := ProcessData();
      if !ok {
        // The original disconnects; OnRecv never reports more than it was given.
        assert false;
      }
      recvBuffer.Clean();
      if |Frames(data).rest| == recvBuffer.capacity >= HEADER_SIZE {
        FullMeansTooLong(data, recvBuffer.capacity);
      }
    }

    /** The network writes a chunk no longer than the length RegisterRecv posted,
        and the receive completes. */
    method Receive(chunk: seq<byte>)
      requires recvBuffer.Valid() && connected && 0 < |chunk| <= recvBuffer.FreeSize()
      requires HeadersOk(recvBuffer.Data() + chunk)
      modifies this, recvBuffer, recvBuffer.region
      ensures recvBuffer.Valid() && connected
      ensures var scan := Frames(old(recvBuffer.Data()) + chunk);
        && delivered == old(delivered) + scan.packets
        && recvBuffer.Data() == scan.rest
        && (recvBuffer.FreeSize() == 0 <==> |scan.rest| == recvBuffer.capacity)
    {
      var at := recvBuffer.offset + recvBuffer.writePos;
      ghost var data := recvBuffer.Data();
      forall i | 0 <= i < |chunk| {
        recvBuffer.region[at + i] := chunk[i];
      }
      assert recvBuffer.DataWith(|chunk|) == data + chunk;
      ProcessRecv(|chunk|);
    }
  }

  /** A stream of packets none longer than the buffer, cut in any way that respects
      the free space, is delivered exactly; the receive never stalls. */
  method ReceiveStream(session: Session, chunks: seq<seq<byte>>, ghost ps: seq<seq<byte>>) returns (k: nat)
    requires session.recvBuffer.Valid() && session.connected
    requires session.delivered == [] && session.recvBuffer.Data() == []
    requires session.recvBuffer.FreeSize() == session.recvBuffer.capacity > 0
    requires AllWellFormed(ps) && Concat(chunks) <= Concat(ps)
    requires forall p | p in ps :: |p| <= session.recvBuffer.capacity
    requires forall c | c in chunks :: |c| > 0
    modifies session, session.recvBuffer, session.recvBuffer.region
    ensures k <= |chunks| && session.recvBuffer.Valid()
    ensures session.connected && session.recvBuffer.FreeSize() > 0
    ensures HeadersOk(Concat(chunks[..k])) && ReceiveAll(chunks[..k]) == Scan(session.delivered,
          session.recvBuffer.Data())
    ensures k < |chunks| ==> |chunks[k]| > session.recvBuffer.FreeSize()
  {
    hide Decode32, Frames, HeadersOk, ReceiveAll, Concat, AllWellFormed;
    k := 0;
    assert chunks[..0] == [];
    EmptyStart();
    while k < |chunks| && |chunks[k]| <= session.recvBuffer.FreeSize()
      invariant k <= |chunks| && session.recvBuffer.Valid()
      invariant session.connected && session.recvBuffer.FreeSize() > 0
      invariant HeadersOk(Concat(chunks[..k]))
      invariant ReceiveAll(chunks[..k]) == Scan(session.delivered, session.recvBuffer.Data())
    {
      FirstChunks(chunks, k + 1);
      HeldIsShort(ps, chunks[..k + 1], session.recvBuffer.capacity);
      assert chunks[..k + 1][..k] == chunks[..k];
      NextChunk(chunks[..k + 1]);
      session.Receive(chunks[k]);
      k := k + 1;
    }
  }

  lemma FirstChunks(chunks: seq<seq<byte>>, k: nat)
    requires k <= |chunks|
    ensures Concat(chunks[..k]) <= Concat(chunks)
  {
    assert chunks == chunks[..k] + chunks[k..];
    ConcatAppend(chunks[..k], chunks[k..]);
  }

  lemma EmptyStart()
    ensures HeadersOk(Concat<byte>([])) && ReceiveAll([]) == Scan([], [])
  {
  }

  lemma NextChunk(chunks: seq<seq<byte>>)
    requires |chunks| > 0 && HeadersOk(Concat(chunks))
    ensures var last := |chunks| - 1;
            && HeadersOk(Concat(chunks[..last]))
            && HeadersOk(ReceiveAll(chunks[..last]).rest + chunks[last])
            && var now := Frames(ReceiveAll(chunks[..last]).rest + chunks[last]);
               ReceiveAll(chunks) == Scan(ReceiveAll(chunks[..last]).packets + now.packets, now.rest)
  {
    hide Decode32, Frames, HeadersOk;
    var last := |chunks| - 1;
    assert chunks == chunks[..last] + [chunks[last]];
    ConcatAppend(chunks[..last], [chunks[last]]);
    assert Concat([chunks[last]]) == chunks[last];
    FramesAppend(Concat(chunks[..last]), chunks[last]);
  }
}
