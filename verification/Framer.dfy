/**
 The incremental packet decoder of the server's session (server_session.cpp) and of the client
 (chatting_client.cpp); the client's has no size filter.
 */
module Framer {
  import opened Bytes
  import opened Packets

  const MAX_RECEIVE_BUFFER_LEN := 10

  /** sizeof(receive_buffer_): at the session a header, at the client MAX_RECEIVE_BUFFER_LEN */
  function ReceiveBufferSize(filters: bool): nat { if filters then HEADER_SIZE else MAX_RECEIVE_BUFFER_LEN }

  /** packet_buffer_, packet_buffer_mark_ and content_read_mode_ */
  datatype State = State(buffer: Bytes, mark: uint32, contentMode: bool) {
    predicate Sane() { mark <= |buffer| }
  }

  const EMPTY := State([], 0, false)

  /** A session or client that connects again: only the mark is reset, and stale bytes and the mode stay. */
  function Reused(s: State): State { s.(mark := 0) }

  /** The state after a receive, and the buffer that process_packet was given, if it was called */
  datatype Result = Result(state: State, dispatched: seq<Bytes>)

  /** packet_buffer_mark_ and packet_data_size are 32 bits wide; get_packet_size is not. */
  function Receive(crc: Crc, filters: bool, s: State, chunk: Bytes): (r: Result)
    requires s.Sane()
    ensures r.state.Sane()
  {
    var buffer := s.buffer[..s.mark] + chunk + s.buffer[s.mark..];
    var size := (s.mark + |chunk|) % TWO_32;
    if size == 0 then Result(s.(buffer := buffer), [])
    else if size < HEADER_SIZE then Result(State(buffer, size, s.contentMode), [])
    else
      var header := ReadHeader(buffer);
      if !s.contentMode && !(CrcMatches(crc, buffer) && SizeAllowed(filters, header)) then Result(EMPTY, [])
      else if header.PacketSize() <= size then Result(EMPTY, [buffer])
      else Result(State(buffer, size, true), [])
  }

  function Run(crc: Crc, filters: bool, s: State, chunks: seq<Bytes>): (r: Result)
    requires s.Sane()
    ensures r.state.Sane()
    decreases chunks
  {
    if chunks == [] then Result(s, [])
    else
      var first := Receive(crc, filters, s, chunks[0]);
      var rest := Run(crc, filters, first.state, chunks[1..]);
      Result(rest.state, first.dispatched + rest.dispatched)
  }

  function Concat(chunks: seq<Bytes>): Bytes {
    if chunks == [] then [] else chunks[0] + Concat(chunks[1..])
  }

  lemma {:induction false} RunAppend(crc: Crc, filters: bool, s: State, a: seq<Bytes>, b: seq<Bytes>)
    requires s.Sane()
    ensures var first := Run(crc, filters, s, a);
            var second := Run(crc, filters, first.state, b);
            Run(crc, filters, s, a + b) == Result(second.state, first.dispatched + second.dispatched)
    decreases a
  {
    hide Receive;
    if a == [] {
      assert a + b == b;
      assert [] + Run(crc, filters, s, b).dispatched == Run(crc, filters, s, b).dispatched;
    } else {
      assert (a + b)[1..] == a[1..] + b;
      var first := Receive(crc, filters, s, a[0]);
      RunAppend(crc, filters, first.state, a[1..], b);
      var mid := Run(crc, filters, first.state, a[1..]);
      var second := Run(crc, filters, mid.state, b);
      assert first.dispatched + (mid.dispatched + second.dispatched) == first.dispatched + mid.dispatched + second.dispatched;
    }
  }

  // ---- One packet in pieces ----------------------------------------------------------------

  /** Some bytes of a packet, fewer than all, have arrived. */
  function Partial(p: Bytes, n: nat): State
    requires n < |p| && n < TWO_32
  {
    State(p[..n], n, n >= HEADER_SIZE)
  }

  lemma SamePrefixSameHeader(p: Bytes, buffer: Bytes)
    requires |p| >= HEADER_SIZE && |buffer| >= HEADER_SIZE && buffer[..HEADER_SIZE] == p[..HEADER_SIZE]
    ensures ReadHeader(buffer) == ReadHeader(p) && buffer[..8] == p[..8]
  {
    assert buffer[..2] == buffer[..HEADER_SIZE][..2] && p[..2] == p[..HEADER_SIZE][..2];
    assert buffer[..8] == buffer[..HEADER_SIZE][..8] && p[..8] == p[..HEADER_SIZE][..8];
    assert buffer[4..8] == buffer[..HEADER_SIZE][4..8] && p[4..8] == p[..HEADER_SIZE][4..8];
    assert buffer[8..12] == buffer[..HEADER_SIZE][8..12] && p[8..12] == p[..HEADER_SIZE][8..12];
  }

  /** A chunk that ends inside a packet or with it; extra is what the chunk holds beyond the packet. */
  lemma ReceivePiece(crc: Crc, filters: bool, p: Bytes, n: nat, chunk: Bytes, extra: Bytes)
    requires WellFormedPacket(crc, filters, p) && n < |p| && n < TWO_32
    requires n + |chunk| <= |p| && chunk == p[n..n + |chunk|] && n + |chunk| + |extra| < TWO_32
    requires extra != [] ==> n + |chunk| == |p|
    ensures Receive(crc, filters, Partial(p, n), chunk + extra) ==
            if n + |chunk| == |p| then Result(EMPTY, [p + extra]) else Result(Partial(p, n + |chunk|), [])
  {
    hide CrcMatches, ReadHeader, SizeAllowed;
    var s := Partial(p, n);
    var k := n + |chunk|;
    var buffer := s.buffer[..s.mark] + (chunk + extra) + s.buffer[s.mark..];
    assert buffer == p[..k] + extra;
    if |buffer| >= HEADER_SIZE {
      assert k >= HEADER_SIZE;
      SamePrefixSameHeader(p, buffer);
      CrcOfPrefix(crc, p, buffer);
    }
    if k == |p| {
      assert p[..k] == p;
    } else {
      assert p[..k] + [] == p[..k];
    }
  }

  lemma CrcOfPrefix(crc: Crc, p: Bytes, buffer: Bytes)
    requires |p| >= HEADER_SIZE && |buffer| >= HEADER_SIZE && ReadHeader(buffer) == ReadHeader(p) && buffer[..8] == p[..8]
    ensures CrcMatches(crc, buffer) == CrcMatches(crc, p)
  {
  }

  /** Empty chunks do nothing to an empty buffer. */
  lemma {:induction false} NothingMore(crc: Crc, filters: bool, chunks: seq<Bytes>)
    requires Concat(chunks) == []
    ensures Run(crc, filters, EMPTY, chunks) == Result(EMPTY, [])
    decreases chunks
  {
    if chunks != [] {
      ReceiveNothing(crc, filters);
      hide Receive;
      assert chunks[0] == [];
      NothingMore(crc, filters, chunks[1..]);
    }
  }

  lemma ReceiveNothing(crc: Crc, filters: bool)
    ensures Receive(crc, filters, EMPTY, []) == Result(EMPTY, [])
  {
    hide ReadHeader, CrcMatches, SizeAllowed;
  }

  /** The rest of a packet, however it is cut, completes it. */
  lemma {:induction false} RestOfPacket(crc: Crc, filters: bool, p: Bytes, n: nat, chunks: seq<Bytes>)
    requires WellFormedPacket(crc, filters, p) && |p| < TWO_32 && n < |p| && Concat(chunks) == p[n..]
    ensures Run(crc, filters, Partial(p, n), chunks) == Result(EMPTY, [p])
    decreases chunks
  {
    hide Receive, WellFormedPacket;
    var chunk := chunks[0];
    var k := n + |chunk|;
    assert chunk == p[n..][..|chunk|] == p[n..k];
    assert Concat(chunks[1..]) == p[n..][|chunk|..] == p[k..];
    assert chunk + [] == chunk && p + [] == p;
    ReceivePiece(crc, filters, p, n, chunk, []);
    if k == |p| {
      NothingMore(crc, filters, chunks[1..]);
    } else {
      RestOfPacket(crc, filters, p, k, chunks[1..]);
    }
  }

  function Flatten(cuts: seq<seq<Bytes>>): seq<Bytes> {
    if cuts == [] then [] else cuts[0] + Flatten(cuts[1..])
  }

  /**
   Chunking independence: packets of fewer than 2^32 bytes, each cut into chunks in any way, are
   dispatched exactly as they were sent, in order, and leave the buffer empty.
   */
  lemma {:induction false} ChunkingDoesNotMatter(crc: Crc, filters: bool, packets: seq<Bytes>, cuts: seq<seq<Bytes>>)
    requires |cuts| == |packets|
    requires forall i | 0 <= i < |packets| ::
      WellFormedPacket(crc, filters, packets[i]) && |packets[i]| < TWO_32 && Concat(cuts[i]) == packets[i]
    ensures Run(crc, filters, EMPTY, Flatten(cuts)) == Result(EMPTY, packets)
    decreases packets
  {
    hide Run, WellFormedPacket;
    if packets == [] {
      RunNothing(crc, filters);
    } else {
      var p := packets[0];
      OnePacketArrives(crc, filters, p, cuts[0]);
      ChunkingDoesNotMatter(crc, filters, packets[1..], cuts[1..]);
      RunAppend(crc, filters, EMPTY, cuts[0], Flatten(cuts[1..]));
      assert packets == [p] + packets[1..];
    }
  }

  lemma OnePacketArrives(crc: Crc, filters: bool, p: Bytes, chunks: seq<Bytes>)
    requires WellFormedPacket(crc, filters, p) && |p| < TWO_32 && Concat(chunks) == p
    ensures Run(crc, filters, EMPTY, chunks) == Result(EMPTY, [p])
  {
    assert p[..0] == [] && p[0..] == p;
    RestOfPacket(crc, filters, p, 0, chunks);
  }

  lemma RunNothing(crc: Crc, filters: bool)
    ensures Run(crc, filters, EMPTY, []) == Result(EMPTY, [])
  {
  }

  /** A chunk that runs past the end of a packet completes it, and the bytes beyond are dropped with the buffer. */
  lemma StraddlingBytesAreDropped(crc: Crc, filters: bool, p: Bytes, n: nat, extra: Bytes)
    requires WellFormedPacket(crc, filters, p) && n < |p| && |p| + |extra| < TWO_32
    ensures var r := Receive(crc, filters, Partial(p, n), p[n..] + extra);
            r.state == EMPTY && r.dispatched == [p + extra] && Content(p + extra) == Content(p)
  {
    ReceivePiece(crc, filters, p, n, p[n..], extra);
    var d := p + extra;
    assert d[..HEADER_SIZE] == p[..HEADER_SIZE];
    SamePrefixSameHeader(p, d);
    assert d[HEADER_SIZE..|p|] == p[HEADER_SIZE..|p|];
  }

  // ---- Packets too long for the 32-bit counters ------------------------------------------------

  /** Waiting for more of a packet of at least 2^32 bytes, of which at most left are still to come */
  ghost predicate Stuck(p: Bytes, s: State, left: nat) {
    && s.Sane()
    && (|| s.mark + left < HEADER_SIZE
        || (&& s.mark >= HEADER_SIZE && s.contentMode && s.mark + left <= |p|
            && s.buffer[..HEADER_SIZE] == p[..HEADER_SIZE]))
  }

  lemma StuckStays(crc: Crc, filters: bool, p: Bytes, s: State, chunk: Bytes, left: nat)
    requires WellFormedPacket(crc, filters, p) && |p| >= TWO_32
    requires Stuck(p, s, |chunk| + left)
    ensures var r := Receive(crc, filters, s, chunk);
            Stuck(p, r.state, left) && r.dispatched == [] && |r.state.buffer| == |s.buffer| + |chunk|
  {
    hide CrcMatches, ReadHeader, SizeAllowed;
    var buffer := s.buffer[..s.mark] + chunk + s.buffer[s.mark..];
    PacketSizeFits(p);
    if s.mark + |chunk| + left >= HEADER_SIZE {
      assert buffer[..HEADER_SIZE] == s.buffer[..HEADER_SIZE];
      SamePrefixSameHeader(p, buffer);
      WrappedSize(s.mark + |chunk|);
    }
  }

  lemma WrappedSize(n: nat)
    requires n < 2 * TWO_32
    ensures n % TWO_32 == if n < TWO_32 then n else n - TWO_32
  {
  }

  lemma PacketSizeFits(p: Bytes)
    requires |p| >= HEADER_SIZE
    ensures ReadHeader(p).PacketSize() < TWO_32 + HEADER_SIZE
  {
  }

  lemma {:induction false} StuckRuns(crc: Crc, filters: bool, p: Bytes, s: State, chunks: seq<Bytes>)
    requires WellFormedPacket(crc, filters, p) && |p| >= TWO_32
    requires s.Sane() && Stuck(p, s, |Concat(chunks)|)
    ensures var r := Run(crc, filters, s, chunks);
            r.dispatched == [] && |r.state.buffer| == |s.buffer| + |Concat(chunks)|
    decreases chunks
  {
    hide Receive, WellFormedPacket, Stuck;
    if chunks != [] {
      StuckStays(crc, filters, p, s, chunks[0], |Concat(chunks[1..])|);
      StuckRuns(crc, filters, p, Receive(crc, filters, s, chunks[0]).state, chunks[1..]);
    }
  }

  predicate FitReceiveBuffer(filters: bool, chunks: seq<Bytes>) {
    forall i | 0 <= i < |chunks| :: |chunks[i]| <= ReceiveBufferSize(filters)
  }

  /** A packet that long is never dispatched: its buffered size wraps around before it is reached. */
  lemma {:induction false} TooLongIsNeverDispatched(crc: Crc, filters: bool, p: Bytes, n: nat, chunks: seq<Bytes>)
    requires WellFormedPacket(crc, filters, p) && |p| >= TWO_32 && n < HEADER_SIZE
    requires Concat(chunks) == p[n..] && FitReceiveBuffer(filters, chunks)
    ensures var r := Run(crc, filters, Partial(p, n), chunks);
            r.dispatched == [] && |r.state.buffer| == |p|
    decreases chunks
  {
    hide Receive, WellFormedPacket;
    var chunk := chunks[0];
    var k := n + |chunk|;
    assert chunk == p[n..][..|chunk|] == p[n..k];
    assert Concat(chunks[1..]) == p[n..][|chunk|..] == p[k..];
    assert chunk + [] == chunk;
    ReceivePiece(crc, filters, p, n, chunk, []);
    if k < HEADER_SIZE {
      TooLongIsNeverDispatched(crc, filters, p, k, chunks[1..]);
    } else {
      assert p[..k][..HEADER_SIZE] == p[..HEADER_SIZE];
      StuckRuns(crc, filters, p, Partial(p, k), chunks[1..]);
    }
  }

  /**
   A well-formed packet, cut in any way into chunks that fit the receive buffer, is dispatched if and
   only if its size, content_size_ + 12, fits 32 bits.
   */
  lemma DispatchedIffSizeFits(crc: Crc, filters: bool, p: Bytes, chunks: seq<Bytes>)
    requires WellFormedPacket(crc, filters, p) && Concat(chunks) == p && FitReceiveBuffer(filters, chunks)
    ensures Run(crc, filters, EMPTY, chunks).dispatched == [p] <==> ReadHeader(p).contentSize + HEADER_SIZE < TWO_32
    ensures Run(crc, filters, EMPTY, chunks).dispatched == [] <==> ReadHeader(p).contentSize + HEADER_SIZE >= TWO_32
  {
    assert p[..0] == [] && p[0..] == p;
    if |p| < TWO_32 {
      RestOfPacket(crc, filters, p, 0, chunks);
    } else {
      TooLongIsNeverDispatched(crc, filters, p, 0, chunks);
    }
  }

  function CutUp(filters: bool, p: Bytes): seq<Bytes> {
    var n := ReceiveBufferSize(filters);
    if |p| <= n then [p] else [p[..n]] + CutUp(filters, p[n..])
  }

  lemma {:induction false} CutUpIsACut(filters: bool, p: Bytes)
    ensures Concat(CutUp(filters, p)) == p && FitReceiveBuffer(filters, CutUp(filters, p))
  {
    var n, cut := ReceiveBufferSize(filters), CutUp(filters, p);
    if |p| <= n {
      assert Concat(cut[1..]) == [];
      assert p + [] == p;
    } else {
      CutUpIsACut(filters, p[n..]);
      assert cut[1..] == CutUp(filters, p[n..]);
    }
  }

  /** There is such a packet: a login request with 2^32 - 12 bytes of content. The mark has lost track of the buffer then. */
  lemma LongLoginIsLost(crc: Crc, filters: bool)
    ensures var p := Packet(crc, REQUEST_LOGIN, [0, 0], seq(TWO_32 - HEADER_SIZE, _ => 0));
            var r := Run(crc, filters, EMPTY, CutUp(filters, p));
            WellFormedPacket(crc, filters, p) && r.dispatched == [] && |r.state.buffer| != r.state.mark
  {
    var content := seq(TWO_32 - HEADER_SIZE, _ => 0);
    var p := Packet(crc, REQUEST_LOGIN, [0, 0], content);
    PacketReads(crc, REQUEST_LOGIN, [0, 0], content);
    CutUpIsACut(filters, p);
    assert p[..0] == [] && p[0..] == p;
    TooLongIsNeverDispatched(crc, filters, p, 0, CutUp(filters, p));
  }

  /** The receiving side of session and of ChatClient */
  class PacketReceiver {
    const crc: Crc
    const filters: bool          // session: true, ChatClient: false
    var packetBuffer: Bytes
    var packetBufferMark: uint32
    var contentReadMode: bool
    var processed: seq<Bytes>    // what process_packet was called with

    ghost function View(): State
      reads this
    {
      State(packetBuffer, packetBufferMark, contentReadMode)
    }

    ghost predicate Valid()
      reads this
    {
      View().Sane()
    }

    constructor (crc: Crc, filters: bool)
      ensures Valid() && View() == EMPTY && processed == [] && this.crc == crc && this.filters == filters
    {
      this.crc, this.filters := crc, filters;
      packetBuffer, packetBufferMark, contentReadMode, processed := [], 0, false, [];
    }

    /** session::init, and what ChatClient::connect does */
    method Init()
      modifies this`packetBufferMark
      ensures Valid() && View() == Reused(old(View()))
    {
      packetBufferMark := 0;
    }

    method ClearPacketBuffer()
      modifies this`packetBuffer, this`packetBufferMark, this`contentReadMode
      ensures View() == EMPTY
    {
      contentReadMode := false;
      packetBufferMark := 0;
      packetBuffer := [];
    }

    /** The source's while loop is left in its first round on every path, so it is an if here. */
    method HandleReceive(chunk: Bytes)
      requires Valid()
      modifies this
      ensures Valid()
      ensures var r := Receive(crc, filters, old(View()), chunk);
              View() == r.state && processed == old(processed) + r.dispatched
    {
      hide ReadHeader, CrcMatches;
      packetBuffer := packetBuffer[..packetBufferMark] + chunk + packetBuffer[packetBufferMark..];
      var packetDataSize: uint32 := (packetBufferMark + |chunk|) % TWO_32;
      if packetDataSize > 0 {
        if packetDataSize < HEADER_SIZE {
          packetBufferMark := (packetBufferMark + |chunk|) % TWO_32;
          return;
        }
        var header := ReadHeader(packetBuffer);
        if !contentReadMode {
          if crc(packetBuffer[..8]) != header.crc {
            CrcGate(crc, packetBuffer);
            ClearPacketBuffer();
            return;
          }
          CrcGate(crc, packetBuffer);
          var isHeaderSizeValid := true;
          if filters && header.id == REQUEST_CHAT {
            isHeaderSizeValid := header.contentSize <= MAX_CHAT_MESSAGE_LEN;
          }
          if !isHeaderSizeValid {
            ClearPacketBuffer();
            return;
          }
          contentReadMode := true;
        }
        if header.PacketSize() <= packetDataSize {
          processed := processed + [packetBuffer];
          ClearPacketBuffer();
        } else {
          packetBufferMark := (packetBufferMark + |chunk|) % TWO_32;
        }
      }
    }

    static lemma CrcGate(crc: Crc, p: Bytes)
      requires |p| >= HEADER_SIZE
      ensures CrcMatches(crc, p) <==> crc(p[..8]) == ReadHeader(p).crc
    {
    }
  }
}
