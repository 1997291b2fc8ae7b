/**
 * The sequential core of the socket layer: the receive queue's byte
 * accounting (`recv_queue`), the address-family and protocol tables used
 * when a socket is created, and the backlog rules of `listen`.
 *
 * Flag and constant values are those of the Linux ABI, which the kernel's
 * socket headers follow.
 */
module Socket {
  import opened Common

  // ------------------------------------------------- constants

  const AF_UNIX: int := 1
  const AF_INET: int := 2

  const SOCK_STREAM: bv32 := 1
  const SOCK_DGRAM: bv32 := 2
  const SOCK_RAW: bv32 := 3
  const SOCK_SEQPACKET: bv32 := 5
  const SOCK_NONBLOCK: bv32 := 0x800
  const SOCK_CLOEXEC: bv32 := 0x8_0000

  const MSG_PEEK: bv32 := 0x2
  const MSG_DONTWAIT: bv32 := 0x40
  const MSG_WAITALL: bv32 := 0x100

  const EAGAIN: int := 11
  const EOPNOTSUPP: int := 95
  const EINTR: int := 4

  // ------------------------------------------------- packets

  /**
   * A received packet: its payload (`size` is its length), how much of it
   * has been read, and the address it came from.
   */
  datatype Packet = Packet(payload: seq<byte>, read: nat, src: seq<byte>)

  predicate ReadWithin(p: Packet) {
    p.read <= |p.payload|
  }

  /** Every packet of the list has `read <= size`. */
  predicate AllReadWithin(pkts: seq<Packet>) {
    |pkts| == 0 || (ReadWithin(pkts[0]) && AllReadWithin(pkts[1..]))
  }

  lemma {:induction false} AllReadWithinAppend(a: seq<Packet>, b: seq<Packet>)
    requires AllReadWithin(a) && AllReadWithin(b)
    ensures AllReadWithin(a + b)
    decreases |a|
  {
    if |a| == 0 {
      assert a + b == b;
    } else {
      assert (a + b)[1..] == a[1..] + b;
      AllReadWithinAppend(a[1..], b);
    }
  }

  /** Bytes of a packet not read yet (`size - read`). */
  function Avail(p: Packet): int {
    |p.payload| - p.read
  }

  /** The sum of `size - read` over a packet list. */
  function Unread(pkts: seq<Packet>): int {
    if |pkts| == 0 then 0 else Avail(pkts[0]) + Unread(pkts[1..])
  }

  /** The unread bytes of a packet. */
  function Rest(p: Packet): seq<byte> {
    if p.read <= |p.payload| then p.payload[p.read..] else []
  }

  /** The unread bytes of a packet list, in queue order. */
  function Stream(pkts: seq<Packet>): seq<byte> {
    if |pkts| == 0 then [] else Rest(pkts[0]) + Stream(pkts[1..])
  }

  lemma {:induction false} UnreadAppend(a: seq<Packet>, b: seq<Packet>)
    ensures Unread(a + b) == Unread(a) + Unread(b)
    decreases |a|
  {
    if |a| == 0 {
      assert a + b == b;
    } else {
      assert (a + b)[1..] == a[1..] + b;
      UnreadAppend(a[1..], b);
    }
  }

  /** `total_data_in_buffers` counts exactly the bytes of the stream. */
  lemma {:induction false} UnreadIsStreamLength(pkts: seq<Packet>)
    requires AllReadWithin(pkts)
    ensures Unread(pkts) == |Stream(pkts)|
    decreases |pkts|
  {
    if |pkts| > 0 {
      UnreadIsStreamLength(pkts[1..]);
    }
  }

  // ------------------------------------------------- reading

  function Min(a: nat, b: nat): nat {
    if a <= b then a else b
  }

  /** `min(len, size - read)`: how much of packet `p` one pass copies. */
  function ToCopy(p: Packet, len: nat): nat {
    Min(len, |Rest(p)|)
  }

  /** The `n` bytes copied out of packet `p`. */
  function Chunk(p: Packet, n: nat): seq<byte> {
    if n <= |Rest(p)| then Rest(p)[..n] else Rest(p)
  }

  /**
   * What stays queued of packet `p` after `toCopy` of its bytes are copied:
   * all of it when peeking; otherwise nothing once it is fully read or on a
   * datagram socket, else the packet with `read` advanced.
   */
  function Kept(p: Packet, toCopy: nat, remove: bool, dgram: bool): seq<Packet> {
    if !remove then [p]
    else if p.read + toCopy == |p.payload| || dgram then []
    else [p.(read := p.read + toCopy)]
  }

  /** The loop's exit test: the bytes copied equal the room left, or a datagram socket. */
  predicate Stops(totalRead: nat, room: nat, dgram: bool) {
    totalRead == room || dgram
  }

  /** What a `recvfrom` loop produced: the bytes copied and the packets left queued. */
  datatype Drained = Drained(data: seq<byte>, rest: seq<Packet>)

  /**
   * The loop of `recv_queue::recvfrom` over the queued packets, with `len`
   * bytes of room left and `totalRead` bytes copied so far.
   */
  function Drain(pkts: seq<Packet>, len: nat, totalRead: nat, remove: bool, dgram: bool): Drained
    decreases |pkts|, 0
  {
    if |pkts| == 0 then Drained([], []) else Pass(pkts[0], pkts[1..], len, totalRead, remove, dgram)
  }

  /**
   * One pass of the loop over packet `p`, followed by the packets `tail`:
   * copy `min(len, size - read)` bytes, keep or drop the packet, then stop
   * or go on with the room that is left.
   */
  function Pass(p: Packet, tail: seq<Packet>, len: nat, totalRead: nat, remove: bool, dgram: bool): Drained
    decreases |tail|, 1
  {
    var n := ToCopy(p, len);
    if Stops(totalRead + n, len - n, dgram) then Drained(Chunk(p, n), Kept(p, n, remove, dgram) + tail)
    else
      var more := Drain(tail, len - n, totalRead + n, remove, dgram);
      Drained(Chunk(p, n) + more.data, Kept(p, n, remove, dgram) + more.rest)
  }

  /** The loop at position i of the list. */
  lemma DrainAt(pkts: seq<Packet>, i: nat, len: nat, totalRead: nat, remove: bool, dgram: bool)
    requires i < |pkts|
    ensures Drain(pkts[i..], len, totalRead, remove, dgram) == Pass(pkts[i], pkts[i + 1..], len, totalRead, remove, dgram)
  {
    assert pkts[i..][0] == pkts[i];
    assert pkts[i..][1..] == pkts[i + 1..];
  }

  /** With MSG_PEEK the queue is left exactly as it was. */
  lemma {:induction false} PeekKeepsQueue(pkts: seq<Packet>, len: nat, totalRead: nat, dgram: bool)
    ensures Drain(pkts, len, totalRead, false, dgram).rest == pkts
    decreases |pkts|
  {
    if |pkts| > 0 {
      PeekStep(pkts, len, totalRead, dgram);
      if !Stops(totalRead + ToCopy(pkts[0], len), len - ToCopy(pkts[0], len), dgram) {
        PeekKeepsQueue(pkts[1..], len - ToCopy(pkts[0], len), totalRead + ToCopy(pkts[0], len), dgram);
      }
      assert [pkts[0]] + pkts[1..] == pkts;
    }
  }

  /** A peeking pass keeps its packet in front of whatever the rest of the loop keeps. */
  lemma PeekStep(pkts: seq<Packet>, len: nat, totalRead: nat, dgram: bool)
    requires |pkts| > 0
    ensures Stops(totalRead + ToCopy(pkts[0], len), len - ToCopy(pkts[0], len), dgram) ==>
      Drain(pkts, len, totalRead, false, dgram).rest == [pkts[0]] + pkts[1..]
    ensures !Stops(totalRead + ToCopy(pkts[0], len), len - ToCopy(pkts[0], len), dgram) ==>
      Drain(pkts, len, totalRead, false, dgram).rest ==
        [pkts[0]] + Drain(pkts[1..], len - ToCopy(pkts[0], len), totalRead + ToCopy(pkts[0], len), false, dgram).rest
  {
  }

  /** A pass copies the front of the packet's unread bytes, all of them unless the room runs out. */
  lemma ChunkIsFront(p: Packet, len: nat)
    ensures var n := ToCopy(p, len);
      Chunk(p, n) == Rest(p)[..n] && |Chunk(p, n)| == n && (n < |Rest(p)| ==> n == len)
  {
  }

  /**
   * What is copied is the front of the stream of unread bytes, and never
   * more than the room given.
   */
  lemma {:induction false} DrainIsStreamPrefix(pkts: seq<Packet>, len: nat, totalRead: nat, remove: bool, dgram: bool)
    ensures |Drain(pkts, len, totalRead, remove, dgram).data| <= len
    ensures Drain(pkts, len, totalRead, remove, dgram).data <= Stream(pkts)
    decreases |pkts|, 0
  {
    if |pkts| > 0 {
      PassIsStreamPrefix(pkts[0], pkts[1..], len, totalRead, remove, dgram);
    }
  }

  lemma {:induction false} PassIsStreamPrefix(p: Packet, tail: seq<Packet>, len: nat, totalRead: nat, remove: bool, dgram: bool)
    ensures |Pass(p, tail, len, totalRead, remove, dgram).data| <= len
    ensures Pass(p, tail, len, totalRead, remove, dgram).data <= Rest(p) + Stream(tail)
    decreases |tail|, 1
  {
    var n := ToCopy(p, len);
    ChunkIsFront(p, len);
    if Stops(totalRead + n, len - n, dgram) {
      StreamPrefixJoin(Rest(p), Stream(tail), Chunk(p, n), []);
    } else {
      DrainIsStreamPrefix(tail, len - n, totalRead + n, remove, dgram);
      var more := Drain(tail, len - n, totalRead + n, remove, dgram);
      StreamPrefixJoin(Rest(p), Stream(tail), Chunk(p, n), more.data);
    }
  }

  /** Front-of-stream pieces join into a front of the stream. */
  lemma StreamPrefixJoin(head: seq<byte>, tail: seq<byte>, a: seq<byte>, b: seq<byte>)
    requires a <= head
    requires |a| < |head| ==> b == []
    requires b <= tail
    ensures a + b <= head + tail
  {
    if |a| == |head| {
      assert a == head;
    }
  }

  /** What stays of a packet being removed from, followed by more packets. */
  lemma KeptStream(p: Packet, len: nat, more: seq<Packet>)
    ensures var n := ToCopy(p, len);
      Stream(Kept(p, n, true, false) + more) == Rest(p)[n..] + Stream(more)
  {
    var n := ToCopy(p, len);
    var kept := Kept(p, n, true, false);
    if kept == [] {
      assert kept + more == more;
    } else {
      assert (kept + more)[1..] == more;
    }
  }

  /**
   * On a stream socket, removing data consumes exactly the bytes copied:
   * the queue's stream afterwards is the old stream without its copied front.
   */
  lemma {:induction false} DrainConsumesCopied(pkts: seq<Packet>, len: nat, totalRead: nat)
    ensures Drain(pkts, len, totalRead, true, false).data + Stream(Drain(pkts, len, totalRead, true, false).rest) == Stream(pkts)
    decreases |pkts|, 0
  {
    if |pkts| > 0 {
      PassConsumesCopied(pkts[0], pkts[1..], len, totalRead);
    }
  }

  lemma {:induction false} PassConsumesCopied(p: Packet, tail: seq<Packet>, len: nat, totalRead: nat)
    ensures Pass(p, tail, len, totalRead, true, false).data + Stream(Pass(p, tail, len, totalRead, true, false).rest) ==
      Rest(p) + Stream(tail)
    decreases |tail|, 2
  {
    var n := ToCopy(p, len);
    if Stops(totalRead + n, len - n, false) {
      StopConsumesCopied(p, tail, len, totalRead);
    } else {
      DrainConsumesCopied(tail, len - n, totalRead + n);
      GoConsumesCopied(p, tail, len, totalRead);
    }
  }

  /** A pass that ends the loop. */
  lemma StopConsumesCopied(p: Packet, tail: seq<Packet>, len: nat, totalRead: nat)
    requires Stops(totalRead + ToCopy(p, len), len - ToCopy(p, len), false)
    ensures Pass(p, tail, len, totalRead, true, false).data + Stream(Pass(p, tail, len, totalRead, true, false).rest) ==
      Rest(p) + Stream(tail)
  {
    var n := ToCopy(p, len);
    var d := Pass(p, tail, len, totalRead, true, false);
    ChunkIsFront(p, len);
    assert d == Drained(Chunk(p, n), Kept(p, n, true, false) + tail);
    KeptStream(p, len, tail);
    SplitFront(Rest(p), n, Stream(tail));
  }

  /** A pass that goes on to the next packet, given what the rest of the loop does. */
  lemma GoConsumesCopied(p: Packet, tail: seq<Packet>, len: nat, totalRead: nat)
    requires !Stops(totalRead + ToCopy(p, len), len - ToCopy(p, len), false)
    requires Drain(tail, len - ToCopy(p, len), totalRead + ToCopy(p, len), true, false).data +
      Stream(Drain(tail, len - ToCopy(p, len), totalRead + ToCopy(p, len), true, false).rest) == Stream(tail)
    ensures Pass(p, tail, len, totalRead, true, false).data + Stream(Pass(p, tail, len, totalRead, true, false).rest) ==
      Rest(p) + Stream(tail)
  {
    PassGoesOn(p, tail, len, totalRead, true, false);
    ChunkIsFront(p, len);
    KeptStream(p, len, Drain(tail, len - ToCopy(p, len), totalRead + ToCopy(p, len), true, false).rest);
    DrainIsStreamPrefix(tail, len - ToCopy(p, len), totalRead + ToCopy(p, len), true, false);
    JoinPieces(Rest(p), ToCopy(p, len), Drain(tail, len - ToCopy(p, len), totalRead + ToCopy(p, len), true, false).data,
      Stream(Drain(tail, len - ToCopy(p, len), totalRead + ToCopy(p, len), true, false).rest), Stream(tail));
  }

  /** A pass that does not stop copies its chunk and then what the rest of the loop copies. */
  lemma PassGoesOn(p: Packet, tail: seq<Packet>, len: nat, totalRead: nat, remove: bool, dgram: bool)
    requires !Stops(totalRead + ToCopy(p, len), len - ToCopy(p, len), dgram)
    ensures Pass(p, tail, len, totalRead, remove, dgram) == Drained(
      Chunk(p, ToCopy(p, len)) + Drain(tail, len - ToCopy(p, len), totalRead + ToCopy(p, len), remove, dgram).data,
      Kept(p, ToCopy(p, len), remove, dgram) + Drain(tail, len - ToCopy(p, len), totalRead + ToCopy(p, len), remove, dgram).rest)
  {
  }

  lemma SplitFront(r: seq<byte>, n: nat, after: seq<byte>)
    requires n <= |r|
    ensures r[..n] + (r[n..] + after) == r + after
  {
    assert r[..n] + r[n..] == r;
  }

  /** A packet's unread bytes split at the copied chunk, with what the rest of the queue yields. */
  lemma JoinPieces(r: seq<byte>, n: nat, d: seq<byte>, after: seq<byte>, whole: seq<byte>)
    requires n <= |r| && (n < |r| ==> d == []) && d + after == whole
    ensures (r[..n] + d) + (r[n..] + after) == r + whole
  {
    if n == |r| {
      assert r[..n] == r && r[n..] == [];
    } else {
      assert r[..n] + r[n..] == r;
    }
  }

  /** The packets left queued still have `read <= size`. */
  lemma {:induction false} DrainKeepsReadWithin(pkts: seq<Packet>, len: nat, totalRead: nat, remove: bool, dgram: bool)
    requires AllReadWithin(pkts)
    ensures AllReadWithin(Drain(pkts, len, totalRead, remove, dgram).rest)
    decreases |pkts|, 0
  {
    if |pkts| > 0 {
      PassKeepsReadWithin(pkts[0], pkts[1..], len, totalRead, remove, dgram);
    }
  }

  lemma {:induction false} PassKeepsReadWithin(p: Packet, tail: seq<Packet>, len: nat, totalRead: nat, remove: bool, dgram: bool)
    requires ReadWithin(p) && AllReadWithin(tail)
    ensures AllReadWithin(Pass(p, tail, len, totalRead, remove, dgram).rest)
    decreases |tail|, 1
  {
    var n := ToCopy(p, len);
    var kept := Kept(p, n, remove, dgram);
    assert AllReadWithin(kept) by {
      if kept != [] {
        assert kept[1..] == [];
      }
    }
    if Stops(totalRead + n, len - n, dgram) {
      AllReadWithinAppend(kept, tail);
    } else {
      DrainKeepsReadWithin(tail, len - n, totalRead + n, remove, dgram);
      AllReadWithinAppend(kept, Drain(tail, len - n, totalRead + n, remove, dgram).rest);
    }
  }

  /**
   * On a datagram socket one packet is consumed whole, even when the room
   * given is smaller than it: the rest of that packet is discarded.
   */
  lemma DatagramTakesOnePacket(pkts: seq<Packet>, len: nat, totalRead: nat, remove: bool)
    requires |pkts| > 0
    ensures var d := Drain(pkts, len, totalRead, remove, true);
      d.data == Rest(pkts[0])[..ToCopy(pkts[0], len)] &&
      d.rest == (if remove then pkts[1..] else pkts)
  {
    ChunkIsFront(pkts[0], len);
  }

  /** Outcome of waiting for data (`get_recv_packet_list`). */
  datatype Wait = Ready | Again | Sleeps

  /** Outcome of `recvfrom`: bytes and optionally the source address, `-EAGAIN`, or a sleep. */
  datatype RecvResult = Received(data: seq<byte>, src: Option<seq<byte>>) | WouldBlock | Blocks

  /** `struct recv_queue`: the queued packets and the count of bytes not read yet. */
  class RecvQueue {
    var recvList: seq<Packet>
    var totalDataInBuffers: int

    /** The counter matches the queue. */
    predicate Valid()
      reads this
    {
      AllReadWithin(recvList) && totalDataInBuffers == Unread(recvList)
    }

    constructor ()
      ensures recvList == [] && totalDataInBuffers == 0 && Valid()
    {
      recvList := [];
      totalDataInBuffers := 0;
    }

    /**
     * `has_data_available`: with MSG_WAITALL, whether at least
     * `requiredData` bytes are buffered; otherwise whether any packet is.
     */
    predicate HasDataAvailable(msgFlags: bv32, requiredData: nat): (available: bool)
      reads this
      ensures msgFlags & MSG_WAITALL != 0 && Valid() ==> (available <==> Unread(recvList) >= requiredData)
      ensures msgFlags & MSG_WAITALL == 0 ==> (available <==> |recvList| > 0)
    {
      if msgFlags & MSG_WAITALL != 0 then totalDataInBuffers >= requiredData else recvList != []
    }

    /**
     * Whenever MSG_WAITALL finds at least one byte buffered, some packet is
     * queued.
     */
    lemma WaitAllImpliesQueued(requiredData: nat)
      requires Valid() && requiredData > 0 && HasDataAvailable(MSG_WAITALL, requiredData)
      ensures HasDataAvailable(0, 0)
    {
    }

    /**
     * `get_recv_packet_list`: a non-blocking call without data fails with
     * EAGAIN; otherwise the call proceeds once data is available, sleeping
     * until then.
     */
    function GetRecvPacketList(msgFlags: bv32, requiredData: nat): (w: Wait)
      reads this
      ensures w == Again <==> msgFlags & MSG_DONTWAIT != 0 && !HasDataAvailable(msgFlags, requiredData)
      ensures w == Ready <==> HasDataAvailable(msgFlags, requiredData)
    {
      if msgFlags & MSG_DONTWAIT != 0 && !HasDataAvailable(msgFlags, requiredData) then Again
      else if HasDataAvailable(msgFlags, requiredData) then Ready
      else Sleeps
    }

    /** `add_packet`: queue `p` at the tail and count its `size` bytes. */
    method AddPacket(p: Packet)
      modifies this
      ensures recvList == old(recvList) + [p]
      ensures totalDataInBuffers == old(totalDataInBuffers) + |p.payload|
      ensures old(Valid()) && p.read == 0 ==> Valid()
    {
      recvList := recvList + [p];
      totalDataInBuffers := totalDataInBuffers + |p.payload|;
      UnreadAppend(old(recvList), [p]);
      if old(Valid()) && p.read == 0 {
        assert AllReadWithin([p]) by { assert [p][1..] == []; }
        AllReadWithinAppend(old(recvList), [p]);
      }
    }

    /**
     * `clear_packets`: drop every packet, subtracting each one's unread
     * bytes; from a valid queue the counter ends at 0, which is what the
     * destructor asserts.
     */
    method ClearPackets()
      modifies this
      ensures recvList == []
      ensures totalDataInBuffers == old(totalDataInBuffers) - Unread(old(recvList))
      ensures old(Valid()) ==> totalDataInBuffers == 0 && Valid()
    {
      while recvList != []
        invariant totalDataInBuffers == old(totalDataInBuffers) - Unread(old(recvList)) + Unread(recvList)
        decreases |recvList|
      {
        var p := recvList[0];
        recvList := recvList[1..];
        totalDataInBuffers := totalDataInBuffers - (|p.payload| - p.read);
      }
    }

    /**
     * The removal step of one `recvfrom` pass over `p` (unless peeking):
     * advance `read`, uncount the copied bytes, and unlink the packet once it
     * is fully read or the socket is a datagram socket. Returns what stays
     * queued in its place.
     */
    method TakeFrom(p: Packet, toCopy: nat, remove: bool, dgram: bool) returns (here: seq<Packet>)
      modifies this
      ensures here == Kept(p, toCopy, remove, dgram)
      ensures totalDataInBuffers == old(totalDataInBuffers) - Avail(p) + Unread(here)
      ensures recvList == old(recvList)
    {
      here := [p];
      if remove {
        var q := p.(read := p.read + toCopy);
        totalDataInBuffers := totalDataInBuffers - toCopy;
        here := [q];
        if q.read == |q.payload| || dgram {
          totalDataInBuffers := totalDataInBuffers - (|q.payload| - q.read);
          here := [];
        }
      }
    }

    /**
     * `recvfrom` on the queue (the copies to user memory left out): wait for
     * data, then run the packet loop, removing data unless MSG_PEEK is given.
     * The source address of the first packet is returned when asked for.
     */
    method RecvFrom(len: nat, flags: bv32, wantSrc: bool, dgram: bool) returns (r: RecvResult)
      requires Valid()
      modifies this
      ensures Valid()
      ensures old(GetRecvPacketList(flags, len)) == Again ==> r == WouldBlock && recvList == old(recvList)
      ensures old(GetRecvPacketList(flags, len)) == Sleeps ==> r == Blocks && recvList == old(recvList)
      ensures old(GetRecvPacketList(flags, len)) == Ready ==>
        var d := Drain(old(recvList), len, 0, flags & MSG_PEEK == 0, dgram);
        r == Received(d.data, if wantSrc && old(recvList) != [] then Some(old(recvList)[0].src) else None) &&
        recvList == d.rest
    {
      var w := GetRecvPacketList(flags, len);
      if w == Again {
        return WouldBlock;
      } else if w == Sleeps {
        return Blocks;
      }
      var data, src := ReadPackets(len, flags & MSG_PEEK == 0, wantSrc, dgram);
      r := Received(data, src);
    }

    /**
     * The packet loop of `recvfrom`: copy from the packets in queue order
     * until the bytes copied equal the room left or, on a datagram socket,
     * after the first packet; when `remove`, advance or unlink the packets
     * read and keep the counter in step.
     */
    method ReadPackets(len: nat, remove: bool, wantSrc: bool, dgram: bool) returns (data: seq<byte>, src: Option<seq<byte>>)
      requires Valid()
      modifies this
      ensures Valid()
      ensures var d := Drain(old(recvList), len, 0, remove, dgram);
        data == d.data && recvList == d.rest
      ensures src == if wantSrc && old(recvList) != [] then Some(old(recvList)[0].src) else None
    {
      var pkts := recvList;
      ghost var whole := Drain(pkts, len, 0, remove, dgram);
      LoopStart(pkts, len, remove, dgram, totalDataInBuffers);
      var kept, i;
      data, src, kept, i := CopyLoop(whole, pkts, len, remove, wantSrc, dgram);
      var left := kept + pkts[i..];
      Conclude(whole, pkts, len, remove, dgram, i, data, kept, totalDataInBuffers, left);
      recvList := left;
    }

    /**
     * The loop itself, over the packets `pkts` queued when it starts: it
     * returns the bytes copied, the source address, the packets kept from
     * those visited, and how many packets it visited.
     */
    method CopyLoop(ghost whole: Drained, pkts: seq<Packet>, len: nat, remove: bool, wantSrc: bool, dgram: bool)
      returns (data: seq<byte>, src: Option<seq<byte>>, kept: seq<Packet>, i: nat)
      requires Progress(whole, pkts, 0, remove, dgram, [], [], len, 0, totalDataInBuffers)
      modifies this
      ensures Finished(whole, pkts, i, data, kept, totalDataInBuffers)
      ensures src == if wantSrc && pkts != [] then Some(pkts[0].src) else None
    {
      src := None;
      var storingSrc := wantSrc;
      data := [];
      kept := [];
      var room := len;
      var totalRead := 0;
      i := 0;
      ghost var stopped := false;
      while i < |pkts|
        invariant Progress(whole, pkts, i, remove, dgram, data, kept, room, totalRead, totalDataInBuffers)
        invariant src == (if wantSrc && i > 0 then Some(pkts[0].src) else None)
        invariant storingSrc == (wantSrc && i == 0)
        invariant !stopped
        decreases |pkts| - i
      {
        var p := pkts[i];
        if storingSrc {
          src := Some(p.src);
          storingSrc := false;
        }
        var toCopy := ToCopy(p, room);
        ghost var (data0, kept0, room0, totalRead0, total0) := (data, kept, room, totalRead, totalDataInBuffers);
        data := data + Chunk(p, toCopy);
        totalRead := totalRead + toCopy;
        room := room - toCopy;
        var here := TakeFrom(p, toCopy, remove, dgram);
        kept := kept + here;
        LoopStep(whole, pkts, i, remove, dgram, data0, kept0, room0, totalRead0, total0,
                 here, data, kept, room, totalRead, totalDataInBuffers);
        i := i + 1;
        if totalRead == room || dgram {
          stopped := true;
          break;
        }
      }
      if !stopped {
        LoopDone(whole, pkts, remove, dgram, data, kept, room, totalRead, totalDataInBuffers);
      }
    }
  }

  /**
   * The state of the `recvfrom` loop once it is over: the bytes copied and
   * the packets kept, followed by those not visited, are the whole outcome,
   * and the counter covers exactly the packets left queued.
   */
  ghost predicate Finished(whole: Drained, pkts: seq<Packet>, i: nat, data: seq<byte>, kept: seq<Packet>, total: int)
  {
    i <= |pkts| && whole == Drained(data, kept + pkts[i..]) && total == Unread(kept + pkts[i..])
  }

  /**
   * The state of the `recvfrom` loop before packet `i`: the bytes copied and
   * the packets kept so far, followed by what the rest of the loop yields,
   * make up the whole outcome `whole`, and the counter covers the packets
   * kept and those not visited yet.
   */
  ghost predicate Progress(whole: Drained, pkts: seq<Packet>, i: nat, remove: bool, dgram: bool,
                           data: seq<byte>, kept: seq<Packet>, room: nat, totalRead: nat, total: int)
  {
    i <= |pkts| &&
    whole == Combine(data, kept, Drain(pkts[i..], room, totalRead, remove, dgram)) &&
    total == Unread(kept) + Unread(pkts[i..])
  }

  /** What the loop leaves behind is the outcome of `Drain`, with a valid queue. */
  lemma Conclude(whole: Drained, pkts: seq<Packet>, len: nat, remove: bool, dgram: bool,
                 i: nat, data: seq<byte>, kept: seq<Packet>, total: int, left: seq<Packet>)
    requires whole == Drain(pkts, len, 0, remove, dgram) && AllReadWithin(pkts)
    requires Finished(whole, pkts, i, data, kept, total)
    requires i <= |pkts| && left == kept + pkts[i..]
    ensures whole == Drained(data, left)
    ensures AllReadWithin(left) && total == Unread(left)
  {
    DrainKeepsReadWithin(pkts, len, 0, remove, dgram);
  }

  lemma LoopStart(pkts: seq<Packet>, len: nat, remove: bool, dgram: bool, total: int)
    requires total == Unread(pkts)
    ensures Progress(Drain(pkts, len, 0, remove, dgram), pkts, 0, remove, dgram, [], [], len, 0, total)
  {
    var whole := Drain(pkts, len, 0, remove, dgram);
    assert pkts[0..] == pkts;
    assert Combine([], [], whole) == whole;
  }

  /**
   * One pass of the `recvfrom` loop over `pkts[i]`: either the loop stops
   * after it, with the outcome complete, or it goes on from `i + 1`.
   */
  lemma LoopStep(whole: Drained, pkts: seq<Packet>, i: nat, remove: bool, dgram: bool,
                 data: seq<byte>, kept: seq<Packet>, room: nat, totalRead: nat, total: int,
                 here: seq<Packet>, data': seq<byte>, kept': seq<Packet>, room': nat, totalRead': nat, total': int)
    requires i < |pkts|
    requires Progress(whole, pkts, i, remove, dgram, data, kept, room, totalRead, total)
    requires totalRead' == totalRead + ToCopy(pkts[i], room) && room' == room - ToCopy(pkts[i], room)
    requires data' == data + Chunk(pkts[i], ToCopy(pkts[i], room))
    requires here == Kept(pkts[i], ToCopy(pkts[i], room), remove, dgram) && kept' == kept + here
    requires total' == total - Avail(pkts[i]) + Unread(here)
    ensures Stops(totalRead', room', dgram) ==> Finished(whole, pkts, i + 1, data', kept', total')
    ensures !Stops(totalRead', room', dgram) ==> Progress(whole, pkts, i + 1, remove, dgram, data', kept', room', totalRead', total')
  {
    DrainAt(pkts, i, room, totalRead, remove, dgram);
    KeptAccounts(pkts[i], ToCopy(pkts[i], room), remove, dgram, here, pkts, i, kept);
    UnreadAppend(kept', pkts[i + 1..]);
    if Stops(totalRead', room', dgram) {
      StopCombine(data, kept, pkts[i], pkts[i + 1..], room, totalRead, remove, dgram, ToCopy(pkts[i], room));
    } else {
      GoCombine(data, kept, pkts[i], pkts[i + 1..], room, totalRead, remove, dgram, ToCopy(pkts[i], room));
    }
  }

  lemma LoopDone(whole: Drained, pkts: seq<Packet>, remove: bool, dgram: bool,
                 data: seq<byte>, kept: seq<Packet>, room: nat, totalRead: nat, total: int)
    requires Progress(whole, pkts, |pkts|, remove, dgram, data, kept, room, totalRead, total)
    ensures Finished(whole, pkts, |pkts|, data, kept, total)
  {
    assert pkts[|pkts|..] == [];
    assert kept + [] == kept;
    assert Combine(data, kept, Drained([], [])) == Drained(data, kept);
  }

  /** Appending what was copied and kept so far to what the rest of the loop yields. */
  function Combine(data: seq<byte>, kept: seq<Packet>, d: Drained): Drained {
    Drained(data + d.data, kept + d.rest)
  }

  lemma StopCombine(data: seq<byte>, kept: seq<Packet>, p: Packet, tail: seq<Packet>,
                    room: nat, totalRead: nat, remove: bool, dgram: bool, n: nat)
    requires n == ToCopy(p, room) && Stops(totalRead + n, room - n, dgram)
    ensures Combine(data, kept, Pass(p, tail, room, totalRead, remove, dgram)) ==
      Drained(data + Chunk(p, n), (kept + Kept(p, n, remove, dgram)) + tail)
  {
    var k := Kept(p, n, remove, dgram);
    assert Pass(p, tail, room, totalRead, remove, dgram) == Drained(Chunk(p, n), k + tail);
    assert kept + (k + tail) == (kept + k) + tail;
  }

  lemma GoCombine(data: seq<byte>, kept: seq<Packet>, p: Packet, tail: seq<Packet>,
                  room: nat, totalRead: nat, remove: bool, dgram: bool, n: nat)
    requires n == ToCopy(p, room) && !Stops(totalRead + n, room - n, dgram)
    ensures Combine(data, kept, Pass(p, tail, room, totalRead, remove, dgram)) ==
      Combine(data + Chunk(p, n), kept + Kept(p, n, remove, dgram), Drain(tail, room - n, totalRead + n, remove, dgram))
  {
    var c, k := Chunk(p, n), Kept(p, n, remove, dgram);
    var more := Drain(tail, room - n, totalRead + n, remove, dgram);
    assert Pass(p, tail, room, totalRead, remove, dgram) == Drained(c + more.data, k + more.rest);
    assert data + (c + more.data) == (data + c) + more.data;
    assert kept + (k + more.rest) == (kept + k) + more.rest;
  }



  /** One pass of the loop keeps the counter equal to the unread bytes of what stays queued. */
  lemma KeptAccounts(p: Packet, toCopy: nat, remove: bool, dgram: bool, here: seq<Packet>,
                     pkts: seq<Packet>, i: nat, kept: seq<Packet>)
    requires i < |pkts| && pkts[i] == p
    requires here == Kept(p, toCopy, remove, dgram)
    ensures Unread(kept + here) + Unread(pkts[i + 1..]) == Unread(kept) + Unread(pkts[i..]) - Avail(p) + Unread(here)
  {
    assert pkts[i..] == [p] + pkts[i + 1..];
    UnreadAppend([p], pkts[i + 1..]);
    UnreadAppend(kept, here);
  }

  // ------------------------------------------------- creating sockets

  /** `check_af_support`: 0 for the supported address families, -1 otherwise. */
  function CheckAfSupport(domain: int): (r: int)
    ensures r == 0 || r == -1
    ensures r == 0 <==> domain == AF_INET || domain == AF_UNIX
  {
    if domain == AF_INET then 0
    else if domain == AF_UNIX then 0
    else -1
  }

  /** `type_mask`: every bit of the type argument except SOCK_NONBLOCK and SOCK_CLOEXEC. */
  const TYPE_MASK: bv32 := !(SOCK_NONBLOCK | SOCK_CLOEXEC)

  /** The protocols a socket can be created with. */
  datatype Protocol = ProtocolUnix | ProtocolUdp | ProtocolIpv4 | ProtocolTcp

  /** `net_autodetect_protocol`, with None for -1. */
  function AutodetectProtocol(sockType: bv32, domain: int): Option<Protocol> {
    var base := sockType & TYPE_MASK;
    if base == SOCK_DGRAM then
      if domain == AF_UNIX then Some(ProtocolUnix)
      else if domain == AF_INET then Some(ProtocolUdp)
      else None
    else if base == SOCK_RAW then
      if domain == AF_INET then Some(ProtocolIpv4)
      else if domain == AF_UNIX then Some(ProtocolUnix)
      else None
    else if base == SOCK_STREAM then
      if domain == AF_INET then Some(ProtocolTcp) else None
    else None
  }

  /** The creation flags in the type argument do not change the protocol. */
  lemma AutodetectIgnoresFlags(sockType: bv32, domain: int)
    ensures AutodetectProtocol(sockType | SOCK_NONBLOCK, domain) == AutodetectProtocol(sockType, domain)
    ensures AutodetectProtocol(sockType | SOCK_CLOEXEC, domain) == AutodetectProtocol(sockType, domain)
  {
    FlagMasked(sockType, SOCK_NONBLOCK);
    FlagMasked(sockType, SOCK_CLOEXEC);
  }

  lemma FlagMasked(t: bv32, f: bv32)
    requires f == SOCK_NONBLOCK || f == SOCK_CLOEXEC
    ensures (t | f) & TYPE_MASK == t & TYPE_MASK
  {
  }

  /** A protocol is only ever detected for a supported address family. */
  lemma AutodetectNeedsSupportedFamily(sockType: bv32, domain: int)
    requires AutodetectProtocol(sockType, domain).Some?
    ensures CheckAfSupport(domain) == 0
  {
  }

  /**
   * The table of protocols: which (type, family) pairs are accepted, and
   * with what, for a type argument without creation flags.
   */
  lemma AutodetectTable(domain: int)
    ensures AutodetectProtocol(SOCK_DGRAM, domain) ==
      (if domain == AF_UNIX then Some(ProtocolUnix) else if domain == AF_INET then Some(ProtocolUdp) else None)
    ensures AutodetectProtocol(SOCK_RAW, domain) ==
      (if domain == AF_UNIX then Some(ProtocolUnix) else if domain == AF_INET then Some(ProtocolIpv4) else None)
    ensures AutodetectProtocol(SOCK_STREAM, domain) == (if domain == AF_INET then Some(ProtocolTcp) else None)
    ensures AutodetectProtocol(SOCK_SEQPACKET, domain) == None
  {
    assert SOCK_DGRAM & TYPE_MASK == SOCK_DGRAM;
    assert SOCK_RAW & TYPE_MASK == SOCK_RAW;
    assert SOCK_STREAM & TYPE_MASK == SOCK_STREAM;
    assert SOCK_SEQPACKET & TYPE_MASK == SOCK_SEQPACKET;
  }

  // ------------------------------------------------- listen

  const BACKLOG_FOR_LISTEN_0: int := 16
  const BACKLOG_LIMIT: int := 4096

  /** The backlog `listen` records: 0 becomes 16, anything above 4096 becomes 4096. */
  function NormalizeBacklog(backlog: int): (b: int)
    ensures backlog == 0 ==> b == BACKLOG_FOR_LISTEN_0
    ensures backlog > BACKLOG_LIMIT ==> b == BACKLOG_LIMIT
    ensures backlog != 0 && backlog <= BACKLOG_LIMIT ==> b == backlog
    ensures b <= BACKLOG_LIMIT
  {
    var b := if backlog == 0 then BACKLOG_FOR_LISTEN_0 else backlog;
    if b > BACKLOG_LIMIT then BACKLOG_LIMIT else b
  }

  /** Normalising twice changes nothing more. */
  lemma NormalizeBacklogIdempotent(backlog: int)
    ensures NormalizeBacklog(NormalizeBacklog(backlog)) == NormalizeBacklog(backlog)
  {
  }

  /** A normalised non-negative backlog marks the socket as listening (`backlog != 0`). */
  lemma NormalizedBacklogListens(backlog: int)
    requires backlog >= 0
    ensures 0 < NormalizeBacklog(backlog) <= BACKLOG_LIMIT
  {
  }

  /** The type guard at the head of `sys_listen`, as written. */
  predicate ListenGuardAsWritten(sockType: bv32) {
    sockType != SOCK_DGRAM || sockType != SOCK_SEQPACKET
  }

  /** As written, the guard rejects every socket type. */
  lemma ListenGuardRejectsAll(sockType: bv32)
    ensures ListenGuardAsWritten(sockType)
  {
  }

  /** The guard as evidently intended: only connection-mode sockets may listen. */
  predicate ListenGuard(sockType: bv32) {
    sockType != SOCK_STREAM && sockType != SOCK_SEQPACKET
  }

  /**
   * `sys_listen` after the descriptor lookup, with the intended guard:
   * returns the status and the socket's new backlog. `interrupted` is the
   * outcome of taking the connection-state lock and `protoStatus` what the
   * protocol's `listen` returns.
   */
  function Listen(sockType: bv32, oldBacklog: int, backlog: int, interrupted: bool, protoStatus: int): (r: (int, int))
    ensures ListenGuard(sockType) ==> r == (-EOPNOTSUPP, oldBacklog)
    ensures !ListenGuard(sockType) && interrupted ==> r == (-EINTR, oldBacklog)
    ensures !ListenGuard(sockType) && !interrupted && protoStatus < 0 ==> r == (protoStatus, 0)
    ensures !ListenGuard(sockType) && !interrupted && protoStatus >= 0 ==> r == (protoStatus, NormalizeBacklog(backlog))
  {
    if ListenGuard(sockType) then (-EOPNOTSUPP, oldBacklog)
    else if interrupted then (-EINTR, oldBacklog)
    else if protoStatus < 0 then (protoStatus, 0)
    else (protoStatus, NormalizeBacklog(backlog))
  }

  /** Listening on a stream socket succeeds with the normalised backlog, or leaves it not listening. */
  lemma StreamListen(backlog: int, protoStatus: int)
    requires backlog >= 0
    ensures var r := Listen(SOCK_STREAM, 0, backlog, false, protoStatus);
      (r.0 >= 0 ==> r.1 != 0 && r.1 <= BACKLOG_LIMIT) && (r.0 < 0 ==> r.1 == 0)
  {
  }

  /** `sys_listen` as written: every call fails with EOPNOTSUPP and leaves the backlog alone. */
  function ListenAsWritten(sockType: bv32, oldBacklog: int, backlog: int, interrupted: bool, protoStatus: int): (r: (int, int))
    ensures r == (-EOPNOTSUPP, oldBacklog)
  {
    if ListenGuardAsWritten(sockType) then (-EOPNOTSUPP, oldBacklog)
    else if interrupted then (-EINTR, oldBacklog)
    else if protoStatus < 0 then (protoStatus, 0)
    else (protoStatus, NormalizeBacklog(backlog))
  }
}
