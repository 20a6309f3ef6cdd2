/**
 What the framer (Framer) may hand to process_packet, whatever bytes arrive in whatever chunks. The
 32-bit mark is the point: a header whose packet is so long that the mark can wrap around before the
 packet is complete is the one way past the CRC and size gates.
 */
module DispatchSafety {
  import opened Bytes
  import opened Packets
  import opened Framer

  /** Even after the counters wrapped around a dispatched packet is all there. */
  lemma {:induction false} DispatchedIsComplete(crc: Crc, filters: bool, s: State, chunks: seq<Bytes>, i: nat)
    requires s.Sane() && i < |Run(crc, filters, s, chunks).dispatched|
    ensures var d := Run(crc, filters, s, chunks).dispatched[i];
            |d| >= HEADER_SIZE && ReadHeader(d).PacketSize() <= |d|
    decreases chunks
  {
    hide CrcMatches, SizeAllowed, ReadHeader;
    var first := Receive(crc, filters, s, chunks[0]);
    if i >= |first.dispatched| {
      DispatchedIsComplete(crc, filters, first.state, chunks[1..], i - |first.dispatched|);
    }
  }

  /** The buffer starts with a header that has passed both gates. */
  predicate PassesGates(crc: Crc, filters: bool, buffer: Bytes) {
    |buffer| >= HEADER_SIZE && CrcMatches(crc, buffer) && SizeAllowed(filters, ReadHeader(buffer))
  }

  /** Between receives the mark is the buffer's size; past a header, that header has passed both gates and the packet is not complete. */
  ghost predicate Tracking(crc: Crc, filters: bool, s: State) {
    && |s.buffer| == s.mark
    && (s.contentMode <==> |s.buffer| >= HEADER_SIZE)
    && (s.contentMode ==> PassesGates(crc, filters, s.buffer) && s.mark < ReadHeader(s.buffer).PacketSize())
  }

  /** A complete packet that passed the CRC and size gates */
  predicate Gated(crc: Crc, filters: bool, d: Bytes) {
    PassesGates(crc, filters, d) && ReadHeader(d).PacketSize() <= |d|
  }

  /** and fewer than extra bytes behind it */
  predicate Vetted(crc: Crc, filters: bool, d: Bytes, extra: nat) {
    Gated(crc, filters, d) && |d| < ReadHeader(d).PacketSize() + extra
  }

  /** The largest packet size that the mark can count up to without wrapping around */
  function Room(filters: bool): nat { TWO_32 - ReceiveBufferSize(filters) }

  // ---- Marks that keep up with the buffer ----------------------------------------------------------

  /** One receive keeps track if and only if the buffered bytes stay below 2^32; what it dispatches then is vetted. */
  lemma {:induction false} ReceiveKeepsTracking(crc: Crc, filters: bool, s: State, chunk: Bytes)
    requires s.Sane() && Tracking(crc, filters, s) && |chunk| <= ReceiveBufferSize(filters)
    ensures var r := Receive(crc, filters, s, chunk);
            && (Tracking(crc, filters, r.state) <==> |s.buffer| + |chunk| < TWO_32)
            && (|s.buffer| + |chunk| < TWO_32 ==> forall d | d in r.dispatched :: Vetted(crc, filters, d, |chunk|))
  {
    hide CrcMatches, SizeAllowed, ReadHeader;
    var buffer := s.buffer[..s.mark] + chunk + s.buffer[s.mark..];
    assert buffer == s.buffer + chunk;
    WrappedSize(s.mark + |chunk|);
    if s.contentMode {
      assert buffer[..HEADER_SIZE] == s.buffer[..HEADER_SIZE];
      SamePrefixSameHeader(s.buffer, buffer);
      CrcOfPrefix(crc, s.buffer, buffer);
    }
  }

  /** The buffered bytes never reach 2^32. */
  ghost predicate NeverWraps(crc: Crc, filters: bool, s: State, chunks: seq<Bytes>)
    requires s.Sane()
    decreases chunks
  {
    chunks != [] ==>
      && |s.buffer| + |chunks[0]| < TWO_32
      && NeverWraps(crc, filters, Receive(crc, filters, s, chunks[0]).state, chunks[1..])
  }

  ghost predicate AlwaysTracks(crc: Crc, filters: bool, s: State, chunks: seq<Bytes>)
    requires s.Sane()
    decreases chunks
  {
    && |s.buffer| == s.mark
    && (chunks != [] ==> AlwaysTracks(crc, filters, Receive(crc, filters, s, chunks[0]).state, chunks[1..]))
  }

  lemma WrapLosesTrack(crc: Crc, filters: bool, s: State, chunk: Bytes)
    requires s.Sane() && |s.buffer| == s.mark && |chunk| <= ReceiveBufferSize(filters) && |s.buffer| + |chunk| >= TWO_32
    ensures var s' := Receive(crc, filters, s, chunk).state; |s'.buffer| != s'.mark
  {
    hide CrcMatches, SizeAllowed, ReadHeader;
    WrappedSize(s.mark + |chunk|);
  }

  /** The mark is the buffer's size all along a run exactly when the buffered bytes never reach 2^32. */
  lemma {:induction false} TracksIffNeverWraps(crc: Crc, filters: bool, s: State, chunks: seq<Bytes>)
    requires s.Sane() && Tracking(crc, filters, s) && FitReceiveBuffer(filters, chunks)
    ensures AlwaysTracks(crc, filters, s, chunks) <==> NeverWraps(crc, filters, s, chunks)
    decreases chunks
  {
    hide Receive;
    if chunks != [] {
      if |s.buffer| + |chunks[0]| < TWO_32 {
        ReceiveKeepsTracking(crc, filters, s, chunks[0]);
        TracksIffNeverWraps(crc, filters, Receive(crc, filters, s, chunks[0]).state, chunks[1..]);
      } else {
        WrapLosesTrack(crc, filters, s, chunks[0]);
      }
    }
  }

  /** Each header that was let in announces a packet of at most limit bytes. */
  ghost predicate HeadersWithin(crc: Crc, filters: bool, limit: nat, s: State, chunks: seq<Bytes>)
    requires s.Sane()
    decreases chunks
  {
    && (s.contentMode ==> |s.buffer| >= HEADER_SIZE && ReadHeader(s.buffer).PacketSize() <= limit)
    && (chunks != [] ==> HeadersWithin(crc, filters, limit, Receive(crc, filters, s, chunks[0]).state, chunks[1..]))
  }

  /**
   For every byte stream in every chunking in which no header that is let in announces more than Room
   bytes: the mark is the buffer's size all along, and each packet dispatched is complete, has passed
   both gates, and has less than one read behind it.
   */
  lemma {:induction false} EveryDispatchIsVetted(crc: Crc, filters: bool, s: State, chunks: seq<Bytes>)
    requires s.Sane() && Tracking(crc, filters, s) && FitReceiveBuffer(filters, chunks)
    requires HeadersWithin(crc, filters, Room(filters), s, chunks)
    ensures var r := Run(crc, filters, s, chunks);
            && Tracking(crc, filters, r.state) && AlwaysTracks(crc, filters, s, chunks)
            && forall i | 0 <= i < |r.dispatched| :: Vetted(crc, filters, r.dispatched[i], ReceiveBufferSize(filters))
    decreases chunks
  {
    hide Receive, Vetted, PassesGates, ReadHeader;
    if chunks != [] {
      ReceiveKeepsTracking(crc, filters, s, chunks[0]);
      var first := Receive(crc, filters, s, chunks[0]);
      EveryDispatchIsVetted(crc, filters, first.state, chunks[1..]);
      forall i | 0 <= i < |first.dispatched|
        ensures Vetted(crc, filters, first.dispatched[i], ReceiveBufferSize(filters))
      {
        VettedWider(crc, filters, first.dispatched[i], |chunks[0]|);
      }
    }
  }

  lemma VettedWider(crc: Crc, filters: bool, d: Bytes, extra: nat)
    requires Vetted(crc, filters, d, extra) && extra <= ReceiveBufferSize(filters)
    ensures Vetted(crc, filters, d, ReceiveBufferSize(filters))
  {
  }

  // ---- Headers that stay as they were let in ----------------------------------------------------------

  /** A header that was let in is still there, and the mark cannot wrap back to it. */
  ghost predicate Sound(crc: Crc, filters: bool, s: State) {
    if s.contentMode then
      && HEADER_SIZE <= s.mark <= |s.buffer| && PassesGates(crc, filters, s.buffer)
      && s.mark < ReadHeader(s.buffer).PacketSize() <= Room(filters) + 1
    else s.mark < HEADER_SIZE
  }

  lemma ReceiveKeepsSound(crc: Crc, filters: bool, s: State, chunk: Bytes)
    requires s.Sane() && Sound(crc, filters, s) && |chunk| <= ReceiveBufferSize(filters)
    ensures var r := Receive(crc, filters, s, chunk);
            && (forall d | d in r.dispatched :: Gated(crc, filters, d))
            && (r.state.contentMode ==> |r.state.buffer| >= HEADER_SIZE)
            && (r.state.contentMode ==> ReadHeader(r.state.buffer).PacketSize() <= Room(filters) + 1 ==> Sound(crc, filters, r.state))
            && (!r.state.contentMode ==> Sound(crc, filters, r.state))
            && (s.contentMode && r.dispatched == [] ==> r.state.contentMode && Sound(crc, filters, r.state))
  {
    hide CrcMatches, SizeAllowed, ReadHeader;
    var buffer := s.buffer[..s.mark] + chunk + s.buffer[s.mark..];
    WrappedSize(s.mark + |chunk|);
    if s.contentMode {
      assert buffer[..HEADER_SIZE] == s.buffer[..HEADER_SIZE];
      SamePrefixSameHeader(s.buffer, buffer);
      CrcOfPrefix(crc, s.buffer, buffer);
    }
  }

  /**
   Dispatch safety for every byte stream in every chunking in which no header that is let in announces
   more than Room + 1 bytes: every dispatched packet is complete and has passed the CRC gate, and, at
   the server, none is a chat request with more than 20 bytes of content.
   */
  lemma {:induction false} EveryDispatchIsGated(crc: Crc, filters: bool, s: State, chunks: seq<Bytes>)
    requires s.Sane() && Sound(crc, filters, s) && FitReceiveBuffer(filters, chunks)
    requires HeadersWithin(crc, filters, Room(filters) + 1, s, chunks)
    ensures var r := Run(crc, filters, s, chunks);
            && Sound(crc, filters, r.state)
            && forall i | 0 <= i < |r.dispatched| :: Gated(crc, filters, r.dispatched[i])
    decreases chunks
  {
    hide Receive, Sound, Gated, ReadHeader;
    if chunks != [] {
      ReceiveKeepsSound(crc, filters, s, chunks[0]);
      EveryDispatchIsGated(crc, filters, Receive(crc, filters, s, chunks[0]).state, chunks[1..]);
    }
  }

  /** The packet that this header leads to, if any, has passed both gates. */
  ghost predicate NextIsGated(crc: Crc, filters: bool, s: State, chunks: seq<Bytes>)
    requires s.Sane()
  {
    var d := Run(crc, filters, s, chunks).dispatched;
    d != [] ==> Gated(crc, filters, d[0])
  }

  lemma {:induction false} SoundNextIsGated(crc: Crc, filters: bool, s: State, chunks: seq<Bytes>)
    requires s.Sane() && s.contentMode && Sound(crc, filters, s) && FitReceiveBuffer(filters, chunks)
    ensures NextIsGated(crc, filters, s, chunks)
    decreases chunks
  {
    hide Receive, Sound, Gated, ReadHeader;
    if chunks != [] {
      var first := Receive(crc, filters, s, chunks[0]);
      ReceiveKeepsSound(crc, filters, s, chunks[0]);
      if first.dispatched == [] {
        SoundNextIsGated(crc, filters, first.state, chunks[1..]);
      }
    }
  }

  // ---- Headers that do not ----------------------------------------------------------------------------

  /** Each byte in a chunk of its own */
  function Singly(t: Bytes): (chunks: seq<Bytes>)
    ensures |chunks| == |t| && forall i | 0 <= i < |t| :: chunks[i] == [t[i]]
  {
    if t == [] then [] else [[t[0]]] + Singly(t[1..])
  }

  function Zeros(n: nat): (t: Bytes)
    ensures |t| == n
  {
    seq(n, _ => 0)
  }

  /** A packet that is not complete at m bytes is still waited for there. */
  lemma {:induction false} WaitsTo(crc: Crc, filters: bool, s: State, m: nat)
    requires s.Sane() && s.contentMode && Tracking(crc, filters, s)
    requires s.mark <= m < ReadHeader(s.buffer).PacketSize() && m < TWO_32
    ensures var r := Run(crc, filters, s, Singly(Zeros(m - s.mark)));
            && r.dispatched == [] && r.state.contentMode && r.state.mark == m && Tracking(crc, filters, r.state)
            && r.state.buffer[..HEADER_SIZE] == s.buffer[..HEADER_SIZE]
    decreases m - s.mark
  {
    hide CrcMatches, SizeAllowed, ReadHeader;
    if s.mark < m {
      WaitsForOne(crc, filters, s);
      var rest := Zeros(m - s.mark)[1..];
      assert rest == Zeros(m - s.mark - 1);
      WaitsTo(crc, filters, Receive(crc, filters, s, [0]).state, m);
    }
  }

  lemma WaitsForOne(crc: Crc, filters: bool, s: State)
    requires s.Sane() && s.contentMode && Tracking(crc, filters, s)
    requires s.mark + 1 < ReadHeader(s.buffer).PacketSize() && s.mark + 1 < TWO_32
    ensures var r := Receive(crc, filters, s, [0]);
            && r.dispatched == [] && r.state.contentMode && r.state.mark == s.mark + 1 && Tracking(crc, filters, r.state)
            && r.state.buffer[..HEADER_SIZE] == s.buffer[..HEADER_SIZE]
            && ReadHeader(r.state.buffer) == ReadHeader(s.buffer)
  {
    hide CrcMatches, SizeAllowed, ReadHeader;
    var buffer := s.buffer[..s.mark] + [0] + s.buffer[s.mark..];
    assert buffer == s.buffer + [0];
    assert buffer[..HEADER_SIZE] == s.buffer[..HEADER_SIZE];
    SamePrefixSameHeader(s.buffer, buffer);
    CrcOfPrefix(crc, s.buffer, buffer);
  }

  lemma UnseenByte(crc: Crc, filters: bool, s: State, q: Bytes)
    requires s.Sane() && s.contentMode && s.mark < |q| < TWO_32 && s.buffer[..s.mark] == q[..s.mark]
    requires |q| >= HEADER_SIZE && ReadHeader(q).PacketSize() == |q|
    ensures var k := s.mark;
            var r := Receive(crc, filters, s, [q[k]]);
            if k + 1 < |q| then r.dispatched == [] && r.state.contentMode && r.state.mark == k + 1 && r.state.buffer[..k + 1] == q[..k + 1]
            else r.state == EMPTY && |r.dispatched| == 1 && q <= r.dispatched[0]
  {
    hide CrcMatches, SizeAllowed, ReadHeader;
    var k := s.mark;
    var buffer := s.buffer[..k] + [q[k]] + s.buffer[k..];
    assert buffer[..k + 1] == q[..k + 1];
    if k + 1 >= HEADER_SIZE {
      assert buffer[..HEADER_SIZE] == buffer[..k + 1][..HEADER_SIZE] == q[..HEADER_SIZE];
      SamePrefixSameHeader(q, buffer);
    }
  }

  /** In content mode, with the mark inside a header, whatever arrives is taken for a packet: no gate looks at it. */
  lemma {:induction false} UnseenByTheGates(crc: Crc, filters: bool, s: State, q: Bytes)
    requires s.Sane() && s.contentMode && s.mark < |q| < TWO_32 && s.buffer[..s.mark] == q[..s.mark]
    requires |q| >= HEADER_SIZE && ReadHeader(q).PacketSize() == |q|
    ensures var r := Run(crc, filters, s, Singly(q[s.mark..]));
            r.state == EMPTY && |r.dispatched| == 1 && q <= r.dispatched[0]
    decreases |q| - s.mark
  {
    hide Receive, ReadHeader;
    var k, t := s.mark, q[s.mark..];
    UnseenByte(crc, filters, s, q);
    SinglyUnfolds(t);
    assert t[1..] == q[k + 1..];
    if k + 1 < |q| {
      UnseenByTheGates(crc, filters, Receive(crc, filters, s, [q[k]]).state, q);
    } else {
      RunNothing(crc, filters);
    }
  }

  lemma SinglyUnfolds(t: Bytes)
    requires t != []
    ensures Singly(t) == [[t[0]]] + Singly(t[1..])
  {
  }

  /** How the mark gets back into the header of a packet with more than Room + 1 bytes */
  function WrapAround(filters: bool, mark: nat): seq<Bytes>
    requires mark < TWO_32
  {
    var m := if mark <= Room(filters) then Room(filters) + 1 else mark;
    Singly(Zeros(m - mark)) + [Zeros(TWO_32 + 1 - m)]
  }

  lemma WrapsAround(crc: Crc, filters: bool, s: State)
    requires s.Sane() && s.contentMode && Tracking(crc, filters, s)
    requires ReadHeader(s.buffer).PacketSize() > Room(filters) + 1
    ensures FitReceiveBuffer(filters, WrapAround(filters, s.mark))
    ensures var r := Run(crc, filters, s, WrapAround(filters, s.mark));
            r.dispatched == [] && r.state.contentMode && r.state.mark == 1 && r.state.buffer[..1] == s.buffer[..1]
  {
    hide PassesGates, ReadHeader, Run;
    var m := if s.mark <= Room(filters) then Room(filters) + 1 else s.mark;
    var chunks, last := Singly(Zeros(m - s.mark)), Zeros(TWO_32 + 1 - m);
    WaitsTo(crc, filters, s, m);
    var s1 := Run(crc, filters, s, chunks).state;
    RunAppend(crc, filters, s, chunks, [last]);
    RunOne(crc, filters, s1, last);
    OneTooMany(crc, filters, s1, last);
    assert s1.buffer[..1] == s1.buffer[..HEADER_SIZE][..1] == s.buffer[..HEADER_SIZE][..1] == s.buffer[..1];
  }

  /** The read that takes the count to 2^32 + 1 */
  lemma OneTooMany(crc: Crc, filters: bool, s: State, chunk: Bytes)
    requires s.Sane() && s.contentMode && s.mark >= 1 && s.mark + |chunk| == TWO_32 + 1
    ensures var r := Receive(crc, filters, s, chunk);
            r.dispatched == [] && r.state.contentMode && r.state.mark == 1 && r.state.buffer[..1] == s.buffer[..1]
  {
    hide CrcMatches, SizeAllowed, ReadHeader;
    WrappedSize(s.mark + |chunk|);
  }

  lemma RunOne(crc: Crc, filters: bool, s: State, chunk: Bytes)
    requires s.Sane()
    ensures Run(crc, filters, s, [chunk]) == Receive(crc, filters, s, chunk)
  {
    hide Receive;
    var r := Receive(crc, filters, s, chunk);
    assert Run(crc, filters, r.state, []) == Result(r.state, []);
    assert r.dispatched + [] == r.dispatched;
  }

  /** Twelve bytes that pass no CRC gate and start with b */
  function Unsigned(crc: Crc, b: byte): (q: Bytes)
    ensures |q| == HEADER_SIZE && q[0] == b && ReadHeader(q).PacketSize() == |q| && !CrcMatches(crc, q)
  {
    var head := [b] + Zeros(7);
    var q := head + EncodeLE(if crc(head) == 0 then 1 else 0, 4);
    assert q[..8] == head && q[8..12] == EncodeLE(if crc(head) == 0 then 1 else 0, 4);
    Pow256Values();
    DecodeEncodeLE(if crc(head) == 0 then 1 else 0, 4);
    DecodeZeros(4);
    assert q[4..8] == Zeros(4);
    q
  }

  lemma {:induction false} DecodeZeros(n: nat)
    ensures DecodeLE(Zeros(n)) == 0
  {
    if n > 0 {
      assert Zeros(n)[1..] == Zeros(n - 1);
      DecodeZeros(n - 1);
    }
  }

  /** From the mark's second time in the header on, any packet that starts with the header's first byte can be dispatched. */
  lemma WrapsIntoAnyPacket(crc: Crc, filters: bool, s: State, q: Bytes)
    requires s.Sane() && s.contentMode && Tracking(crc, filters, s)
    requires ReadHeader(s.buffer).PacketSize() > Room(filters) + 1
    requires HEADER_SIZE <= |q| < TWO_32 && ReadHeader(q).PacketSize() == |q| && q[0] == s.buffer[0]
    ensures var chunks := WrapAround(filters, s.mark) + Singly(q[1..]);
            var r := Run(crc, filters, s, chunks);
            FitReceiveBuffer(filters, chunks) && r.state == EMPTY && |r.dispatched| == 1 && q <= r.dispatched[0]
  {
    hide Run, ReadHeader, WrapAround, PassesGates;
    WrapsAround(crc, filters, s);
    var s1 := Run(crc, filters, s, WrapAround(filters, s.mark)).state;
    assert s1.buffer[..1] == s.buffer[..1] == [s.buffer[0]] == q[..1];
    UnseenByTheGates(crc, filters, s1, q);
    RunAppend(crc, filters, s, WrapAround(filters, s.mark), Singly(q[1..]));
  }

  /**
   A header that was let in keeps what it leads to behind both gates, whatever follows in reads that
   fit the buffer, if and only if it announces at most Room + 1 bytes: at the server
   content_size_ + 12 <= 2^32 - 11, at the client content_size_ + 12 <= 2^32 - 9.
   */
  lemma GatesHoldIffThereIsRoom(crc: Crc, filters: bool, s: State)
    requires s.Sane() && s.contentMode && Tracking(crc, filters, s)
    ensures (forall chunks: seq<Bytes> | FitReceiveBuffer(filters, chunks) :: NextIsGated(crc, filters, s, chunks))
            <==> ReadHeader(s.buffer).PacketSize() <= Room(filters) + 1
  {
    hide Run, ReadHeader, CrcMatches, WrapAround;
    if ReadHeader(s.buffer).PacketSize() <= Room(filters) + 1 {
      forall chunks: seq<Bytes> | FitReceiveBuffer(filters, chunks)
        ensures NextIsGated(crc, filters, s, chunks)
      {
        SoundNextIsGated(crc, filters, s, chunks);
      }
    } else {
      var q := Unsigned(crc, s.buffer[0]);
      WrapsIntoAnyPacket(crc, filters, s, q);
      var chunks := WrapAround(filters, s.mark) + Singly(q[1..]);
      var d := Run(crc, filters, s, chunks).dispatched[0];
      SamePrefixSameHeader(q, d);
      CrcOfPrefix(crc, q, d);
      assert !NextIsGated(crc, filters, s, chunks);
    }
  }

  /** Up to and with the next dispatch the mark is the buffer's size. */
  ghost predicate TracksToNext(crc: Crc, filters: bool, s: State, chunks: seq<Bytes>)
    requires s.Sane()
    decreases chunks
  {
    && |s.buffer| == s.mark
    && (chunks != [] ==>
          var r := Receive(crc, filters, s, chunks[0]);
          r.dispatched == [] ==> TracksToNext(crc, filters, r.state, chunks[1..]))
  }

  lemma ReceiveKeepsHeader(crc: Crc, filters: bool, s: State, chunk: Bytes)
    requires s.Sane() && s.contentMode && Tracking(crc, filters, s) && |s.buffer| + |chunk| < TWO_32
    ensures var r := Receive(crc, filters, s, chunk);
            r.dispatched == [] ==> r.state.contentMode && ReadHeader(r.state.buffer) == ReadHeader(s.buffer)
  {
    hide CrcMatches, SizeAllowed, ReadHeader;
    var buffer := s.buffer[..s.mark] + chunk + s.buffer[s.mark..];
    assert buffer[..HEADER_SIZE] == s.buffer[..HEADER_SIZE];
    SamePrefixSameHeader(s.buffer, buffer);
  }

  lemma {:induction false} RoomTracksToNext(crc: Crc, filters: bool, s: State, chunks: seq<Bytes>)
    requires s.Sane() && s.contentMode && Tracking(crc, filters, s) && FitReceiveBuffer(filters, chunks)
    requires ReadHeader(s.buffer).PacketSize() <= Room(filters)
    ensures TracksToNext(crc, filters, s, chunks)
    decreases chunks
  {
    hide Receive, ReadHeader, PassesGates;
    if chunks != [] {
      ReceiveKeepsTracking(crc, filters, s, chunks[0]);
      ReceiveKeepsHeader(crc, filters, s, chunks[0]);
      var r := Receive(crc, filters, s, chunks[0]);
      if r.dispatched == [] {
        RoomTracksToNext(crc, filters, r.state, chunks[1..]);
      }
    }
  }

  lemma {:induction false} TracksOn(crc: Crc, filters: bool, s: State, a: seq<Bytes>, b: seq<Bytes>)
    requires s.Sane() && Run(crc, filters, s, a).dispatched == [] && TracksToNext(crc, filters, s, a + b)
    ensures TracksToNext(crc, filters, Run(crc, filters, s, a).state, b)
    decreases a
  {
    hide Receive;
    if a == [] {
      assert a + b == b;
    } else {
      assert (a + b)[1..] == a[1..] + b;
      TracksOn(crc, filters, Receive(crc, filters, s, a[0]).state, a[1..], b);
    }
  }

  /** Up to the mark 2^32 - n, and then a read of n bytes */
  function FillUp(filters: bool, mark: nat): seq<Bytes>
    requires mark < TWO_32
  {
    var m := if mark <= Room(filters) then Room(filters) else mark;
    Singly(Zeros(m - mark)) + [Zeros(TWO_32 - m)]
  }

  lemma FillingUpLosesTrack(crc: Crc, filters: bool, s: State)
    requires s.Sane() && s.contentMode && Tracking(crc, filters, s)
    requires ReadHeader(s.buffer).PacketSize() > Room(filters)
    ensures FitReceiveBuffer(filters, FillUp(filters, s.mark)) && !TracksToNext(crc, filters, s, FillUp(filters, s.mark))
  {
    hide ReadHeader, Run, PassesGates, Receive, TracksToNext;
    var m := if s.mark <= Room(filters) then Room(filters) else s.mark;
    var chunks, last := Singly(Zeros(m - s.mark)), Zeros(TWO_32 - m);
    WaitsTo(crc, filters, s, m);
    FullLosesTrack(crc, filters, Run(crc, filters, s, chunks).state, last);
    if TracksToNext(crc, filters, s, chunks + [last]) {
      TracksOn(crc, filters, s, chunks, [last]);
    }
  }

  lemma FullLosesTrack(crc: Crc, filters: bool, s: State, chunk: Bytes)
    requires s.Sane() && |s.buffer| == s.mark && |chunk| <= ReceiveBufferSize(filters) && s.mark + |chunk| == TWO_32
    ensures !TracksToNext(crc, filters, s, [chunk])
  {
    WrapLosesTrack(crc, filters, s, chunk);
    FullIsNotDispatched(crc, filters, s, chunk);
    hide Receive;
    assert [chunk][1..] == [];
  }

  lemma FullIsNotDispatched(crc: Crc, filters: bool, s: State, chunk: Bytes)
    requires s.Sane() && s.mark + |chunk| == TWO_32
    ensures Receive(crc, filters, s, chunk).dispatched == []
  {
    hide ReadHeader, CrcMatches, SizeAllowed;
    WrappedSize(s.mark + |chunk|);
  }

  /** The mark stays the buffer's size up to the next dispatch, whatever arrives, if and only if the header announces at most Room bytes. */
  lemma MarkHoldsIffThereIsRoom(crc: Crc, filters: bool, s: State)
    requires s.Sane() && s.contentMode && Tracking(crc, filters, s)
    ensures (forall chunks: seq<Bytes> | FitReceiveBuffer(filters, chunks) :: TracksToNext(crc, filters, s, chunks))
            <==> ReadHeader(s.buffer).PacketSize() <= Room(filters)
  {
    hide ReadHeader, TracksToNext, FillUp, FitReceiveBuffer, PassesGates;
    if ReadHeader(s.buffer).PacketSize() <= Room(filters) {
      forall chunks: seq<Bytes> | FitReceiveBuffer(filters, chunks)
        ensures TracksToNext(crc, filters, s, chunks)
      {
        RoomTracksToNext(crc, filters, s, chunks);
      }
    } else {
      FillingUpLosesTrack(crc, filters, s);
    }
  }

  // ---- What a refused header leaves -------------------------------------------------------------------

  /** The first twelve bytes are a header whose crc_ field is wrong or, at the server, that of an oversized chat request. */
  predicate Refused(crc: Crc, filters: bool, b: Bytes) {
    && |b| >= HEADER_SIZE
    && (|| DecodeLE(b[8..12]) != crc(b[..8])
        || (filters && b[0] == REQUEST_CHAT && b[1] == 0 && DecodeLE(b[4..8]) > MAX_CHAT_MESSAGE_LEN))
  }

  /** The read that completes such a header empties the buffer and dispatches nothing. */
  lemma RefusedHeaderIsDropped(crc: Crc, filters: bool, s: State, chunk: Bytes)
    requires s.Sane() && Tracking(crc, filters, s) && !s.contentMode
    requires |s.buffer| + |chunk| < TWO_32 && Refused(crc, filters, s.buffer + chunk)
    ensures Receive(crc, filters, s, chunk) == Result(EMPTY, [])
  {
    var b := s.buffer + chunk;
    assert s.buffer[..s.mark] + chunk + s.buffer[s.mark..] == b;
    HeaderLayout(b);
    hide DecodeLE;
  }

  /** Bytes that complete no header are kept. */
  lemma {:induction false} HeaderIsCollected(crc: Crc, filters: bool, s: State, chunks: seq<Bytes>)
    requires s.Sane() && Tracking(crc, filters, s) && |s.buffer| + |Concat(chunks)| < HEADER_SIZE
    ensures var b := s.buffer + Concat(chunks); Run(crc, filters, s, chunks) == Result(State(b, |b|, false), [])
    decreases chunks
  {
    if chunks == [] {
      assert s.buffer + [] == s.buffer;
    } else {
      CollectsOne(crc, filters, s, chunks[0]);
      hide Receive;
      HeaderIsCollected(crc, filters, Receive(crc, filters, s, chunks[0]).state, chunks[1..]);
      Regroup(s.buffer, chunks[0], Concat(chunks[1..]));
    }
  }

  lemma CollectsOne(crc: Crc, filters: bool, s: State, chunk: Bytes)
    requires s.Sane() && Tracking(crc, filters, s) && |s.buffer| + |chunk| < HEADER_SIZE
    ensures Receive(crc, filters, s, chunk) == Result(State(s.buffer + chunk, |s.buffer| + |chunk|, false), [])
  {
    assert s.buffer[..s.mark] + chunk + s.buffer[s.mark..] == s.buffer + chunk;
  }

  /** A packet, or bytes whose first twelve are refused, with the chunks in which they came */
  datatype Arrival = Arrival(refused: bool, chunks: seq<Bytes>)

  /** Well-formed packets may be cut in any way; refused bytes end with the read that completes their header. */
  predicate Arrives(crc: Crc, filters: bool, a: Arrival) {
    var all, n := Concat(a.chunks), |a.chunks| - 1;
    && |all| < TWO_32
    && if a.refused then n >= 0 && |Concat(a.chunks[..n])| < HEADER_SIZE && Refused(crc, filters, Concat(a.chunks[..n]) + a.chunks[n])
       else WellFormedPacket(crc, filters, all)
  }

  function AllChunks(arrivals: seq<Arrival>): seq<Bytes> {
    if arrivals == [] then [] else arrivals[0].chunks + AllChunks(arrivals[1..])
  }

  /** The packets among them, in order */
  function PacketsAmong(arrivals: seq<Arrival>): seq<Bytes> {
    if arrivals == [] then []
    else (if arrivals[0].refused then [] else [Concat(arrivals[0].chunks)]) + PacketsAmong(arrivals[1..])
  }

  lemma RefusedArrives(crc: Crc, filters: bool, a: Arrival)
    requires Arrives(crc, filters, a) && a.refused && |Concat(a.chunks[..|a.chunks| - 1]) + a.chunks[|a.chunks| - 1]| < TWO_32
    ensures Run(crc, filters, EMPTY, a.chunks) == Result(EMPTY, [])
  {
    hide Receive, Refused, Run;
    var n := |a.chunks| - 1;
    var lead, last := a.chunks[..n], a.chunks[n];
    HeaderIsCollected(crc, filters, EMPTY, lead);
    assert [] + Concat(lead) == Concat(lead);
    var s := Run(crc, filters, EMPTY, lead).state;
    RefusedHeaderIsDropped(crc, filters, s, last);
    RunOne(crc, filters, s, last);
    RunAppend(crc, filters, EMPTY, lead, [last]);
    assert lead + [last] == a.chunks;
  }

  lemma {:induction false} ConcatSplits(chunks: seq<Bytes>)
    requires chunks != []
    ensures Concat(chunks) == Concat(chunks[..|chunks| - 1]) + chunks[|chunks| - 1]
  {
    var n := |chunks| - 1;
    if n > 0 {
      ConcatSplits(chunks[1..]);
      assert chunks[1..][..n - 1] == chunks[..n][1..];
      Regroup(chunks[0], Concat(chunks[1..n]), chunks[n]);
    } else {
      assert chunks[1..] == [] && chunks[0] + [] == chunks[0] == [] + chunks[0];
    }
  }

  /**
   Recovery. Among any well-formed packets, each cut in any way, there may be any number of refused
   headers: the packets are dispatched exactly and in order, and the buffer ends empty.
   */
  lemma {:induction false} RefusedHeadersDoNoHarm(crc: Crc, filters: bool, arrivals: seq<Arrival>)
    requires forall i | 0 <= i < |arrivals| :: Arrives(crc, filters, arrivals[i])
    ensures Run(crc, filters, EMPTY, AllChunks(arrivals)) == Result(EMPTY, PacketsAmong(arrivals))
    decreases arrivals
  {
    hide Run, WellFormedPacket, Refused;
    if arrivals == [] {
      RunNothing(crc, filters);
    } else {
      var a := arrivals[0];
      if a.refused {
        ConcatSplits(a.chunks);
        RefusedArrives(crc, filters, a);
      } else {
        OnePacketArrives(crc, filters, Concat(a.chunks), a.chunks);
      }
      RefusedHeadersDoNoHarm(crc, filters, arrivals[1..]);
      RunAppend(crc, filters, EMPTY, a.chunks, AllChunks(arrivals[1..]));
    }
  }

  // ---- An input on which the limit on chat requests fails ----------------------------------------------

  /** A packet of 2^32 + 11 bytes whose id's low byte is that of REQUEST_CHAT */
  function LongPacket(crc: Crc): (p: Bytes) { Packet(crc, 0x100 + REQUEST_CHAT, [0, 0], Zeros(TWO_32 - 1)) }

  /** A chat request with 21 bytes of content */
  function LongChat(): (q: Bytes) { [REQUEST_CHAT, 0, 0, 0, 21, 0, 0, 0] + Zeros(25) }

  lemma LongChatReads()
    ensures |LongChat()| == 33 == ReadHeader(LongChat()).PacketSize() && IsOversizedChat(LongChat())
  {
    var q := LongChat();
    assert q[..2] == [REQUEST_CHAT, 0] && q[4..8] == [21, 0, 0, 0];
    assert [REQUEST_CHAT, 0][1..] == [0] && [0][1..] == [];
    assert [21, 0, 0, 0][1..] == Zeros(3);
    DecodeZeros(3);
  }

  lemma LongPacketIsLetIn(crc: Crc)
    ensures var p := LongPacket(crc);
            && |p| == HEADER_SIZE + TWO_32 - 1 && p[0] == REQUEST_CHAT
            && Receive(crc, true, EMPTY, p[..HEADER_SIZE]) == Result(Partial(p, HEADER_SIZE), [])
            && Tracking(crc, true, Partial(p, HEADER_SIZE))
            && ReadHeader(p[..HEADER_SIZE]).PacketSize() == |p|
  {
    var p := LongPacket(crc);
    PacketReads(crc, 0x100 + REQUEST_CHAT, [0, 0], Zeros(TWO_32 - 1));
    StartsWithId(crc);
    hide Packet, LongPacket, ReadHeader, CrcMatches;
    assert p[..0] == [] && p[..HEADER_SIZE] + [] == p[..HEADER_SIZE];
    ReceivePiece(crc, true, p, 0, p[..HEADER_SIZE], []);
    SamePrefixSameHeader(p, p[..HEADER_SIZE]);
    CrcOfPrefix(crc, p, p[..HEADER_SIZE]);
  }

  lemma StartsWithId(crc: Crc)
    ensures LongPacket(crc) != [] && LongPacket(crc)[0] == REQUEST_CHAT
  {
    assert EncodeLE(0x100 + REQUEST_CHAT, 2)[0] == REQUEST_CHAT;
  }

  function LongChatStream(crc: Crc): seq<Bytes> {
    [LongPacket(crc)[..HEADER_SIZE]] + (WrapAround(true, HEADER_SIZE) + Singly(LongChat()[1..]))
  }

  predicate IsOversizedChat(d: Bytes) {
    |d| >= HEADER_SIZE && ReadHeader(d).id == REQUEST_CHAT && ReadHeader(d).contentSize > MAX_CHAT_MESSAGE_LEN
  }

  /** On this input, from empty buffers, the server dispatches a chat request with more than 20 bytes of content. */
  lemma LongChatIsDispatched(crc: Crc)
    ensures var r := Run(crc, true, EMPTY, LongChatStream(crc));
            && FitReceiveBuffer(true, LongChatStream(crc)) && |r.dispatched| == 1
            && IsOversizedChat(r.dispatched[0]) && !Gated(crc, true, r.dispatched[0])
  {
    hide Run, Receive, ReadHeader, WrapAround, LongPacket, LongChat, Tracking, Gated, Singly, IsOversizedChat;
    var p, q := LongPacket(crc), LongChat();
    LongPacketIsLetIn(crc);
    LongChatReads();
    FirstBytes();
    var s := Partial(p, HEADER_SIZE);
    assert s.buffer == p[..HEADER_SIZE] && s.buffer[0] == q[0];
    WrapsIntoAnyPacket(crc, true, s, q);
    RunOne(crc, true, EMPTY, p[..HEADER_SIZE]);
    RunAppend(crc, true, EMPTY, [p[..HEADER_SIZE]], WrapAround(true, HEADER_SIZE) + Singly(q[1..]));
    OversizedIsNotGated(crc, q, Run(crc, true, EMPTY, LongChatStream(crc)).dispatched[0]);
  }

  lemma OversizedIsNotGated(crc: Crc, q: Bytes, d: Bytes)
    requires q <= d && IsOversizedChat(q)
    ensures IsOversizedChat(d) && !Gated(crc, true, d)
  {
    hide ReadHeader;
    SamePrefixSameHeader(q, d);
  }

  lemma FirstBytes()
    ensures LongChat() != [] && LongChat()[0] == REQUEST_CHAT
  {
  }

  // ---- Sessions that are used again ---------------------------------------------------------------------

  /** Reused outside content mode: whatever the next client sends, in any chunking, only gated packets are dispatched. */
  lemma ReusedBetweenPackets(crc: Crc, filters: bool, s: State, chunks: seq<Bytes>)
    requires s.Sane() && !s.contentMode && FitReceiveBuffer(filters, chunks)
    requires HeadersWithin(crc, filters, Room(filters) + 1, Reused(s), chunks)
    ensures var r := Run(crc, filters, Reused(s), chunks);
            forall i | 0 <= i < |r.dispatched| :: Gated(crc, filters, r.dispatched[i])
  {
    EveryDispatchIsGated(crc, filters, Reused(s), chunks);
  }

  /**
   Reused in content mode, after a client left in the middle of a packet: the next client's first packet
   is dispatched whatever its CRC and whatever its size, and so is a chat request with 21 bytes of content.
   */
  lemma ReusedInsideAPacket(crc: Crc, filters: bool, s: State, q: Bytes)
    requires s.Sane() && s.contentMode && HEADER_SIZE <= |q| < TWO_32 && ReadHeader(q).PacketSize() == |q|
    ensures var r := Run(crc, filters, Reused(s), Singly(q));
            r.state == EMPTY && |r.dispatched| == 1 && q <= r.dispatched[0]
    ensures var r := Run(crc, filters, Reused(s), Singly(LongChat()));
            |r.dispatched| == 1 && IsOversizedChat(r.dispatched[0]) && !Gated(crc, true, r.dispatched[0])
  {
    hide Run, ReadHeader, LongChat, IsOversizedChat, Gated;
    assert q[0..] == q && q[..0] == [] == s.buffer[..0];
    UnseenByTheGates(crc, filters, Reused(s), q);
    LongChatReads();
    var c := LongChat();
    assert c[0..] == c && c[..0] == [];
    UnseenByTheGates(crc, filters, Reused(s), c);
    OversizedIsNotGated(crc, c, Run(crc, filters, Reused(s), Singly(c)).dispatched[0]);
  }

  /** A read that takes the count to 2^32 exactly is not counted, so the next read goes in front of it. */
  lemma ReadsChangePlaces(crc: Crc, filters: bool, s: State, first: Bytes, second: Bytes)
    requires s.Sane() && s.contentMode && Tracking(crc, filters, s)
    requires s.mark + |first| == TWO_32 && 0 < |second| && s.mark + |second| < ReadHeader(s.buffer).PacketSize() && s.mark + |second| < TWO_32
    ensures Run(crc, filters, s, [first, second]) == Result(State(s.buffer + second + first, s.mark + |second|, true), [])
  {
    NotCounted(crc, filters, s, first);
    var s1 := Receive(crc, filters, s, first).state;
    InFront(crc, filters, s, s1, first, second);
    hide Receive;
    RunOne(crc, filters, s, first);
    RunOne(crc, filters, s1, second);
    RunAppend(crc, filters, s, [first], [second]);
  }

  lemma NotCounted(crc: Crc, filters: bool, s: State, chunk: Bytes)
    requires s.Sane() && |s.buffer| == s.mark && s.mark + |chunk| == TWO_32
    ensures Receive(crc, filters, s, chunk) == Result(State(s.buffer + chunk, s.mark, s.contentMode), [])
  {
    hide ReadHeader, CrcMatches, SizeAllowed;
    assert s.buffer[..s.mark] + chunk + s.buffer[s.mark..] == s.buffer + chunk;
  }

  lemma InFront(crc: Crc, filters: bool, s: State, s1: State, first: Bytes, second: Bytes)
    requires s.Sane() && s.contentMode && Tracking(crc, filters, s) && s1 == State(s.buffer + first, s.mark, true)
    requires 0 < |second| && s.mark + |second| < ReadHeader(s.buffer).PacketSize() && s.mark + |second| < TWO_32
    ensures Receive(crc, filters, s1, second) == Result(State(s.buffer + second + first, s.mark + |second|, true), [])
  {
    hide ReadHeader, CrcMatches, SizeAllowed;
    var buffer := s.buffer + second + first;
    assert s1.buffer[..s.mark] + second + s1.buffer[s.mark..] == buffer;
    assert buffer[..HEADER_SIZE] == s.buffer[..HEADER_SIZE];
    SamePrefixSameHeader(s.buffer, buffer);
  }
}
