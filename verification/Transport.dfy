/** The buffered transport (`tnt_io_*`). The socket moves between one byte and everything it is offered,
    or fails, as it likes. */
module Transport {
  import opened Seqs
  import opened MsgPack
  import opened ObjectStream

  /** The peer's end: what has gone out and what has not been read yet. */
  class Wire {
    var sent: bytes
    var incoming: bytes

    constructor (stream: bytes)
      ensures sent == [] && incoming == stream
    {
      sent, incoming := [], stream;
    }

    /** `send(2)` */
    method Tx(buf: bytes) returns (r: int)
      modifies `sent
      ensures r <= |buf|
      ensures sent == if r > 0 then old(sent) + buf[..r] else old(sent)
    {
      r :| -1 <= r <= |buf|;
      if r > 0 { sent := sent + buf[..r]; }
    }

    /** `writev(2)` */
    method Txv(iov: seq<bytes>) returns (r: int)
      modifies `sent
      ensures r <= |Concat(iov)|
      ensures sent == if r > 0 then old(sent) + Concat(iov)[..r] else old(sent)
    {
      r := Tx(Concat(iov));
    }

    /** `recv(2)` */
    method Rx(size: nat) returns (r: int, chunk: bytes)
      modifies `incoming
      ensures r <= size && r <= old(|incoming|)
      ensures r <= 0 ==> incoming == old(incoming) && chunk == []
      ensures r > 0 ==> chunk == old(incoming)[..r] && incoming == old(incoming)[r..]
    {
      r :| -1 <= r <= size && r <= |incoming|;
      chunk := [];
      if r > 0 { chunk, incoming := incoming[..r], incoming[r..]; }
    }
  }

  datatype Error = EOK | ESYSTEM | EBIG

  /** The stream part of `struct tnt_stream_net`: a send buffer and a receive buffer of fixed size; size
      zero stands for no buffer. */
  class Net {
    const wire: Wire
    const sbuf: array<byte>
    const rbuf: array<byte>
    /** Whether the caller has installed a transmit callback, and how many pieces that takes at once. */
    const hooked: bool
    const iovMax: nat
    var sOff: nat
    var rOff: nat
    var rTop: nat
    var error: Error
    /** The messages accepted so far, and how many of them have left the send buffer. */
    ghost var accepted: seq<bytes>
    ghost var gone: nat

    constructor (wire: Wire, sendSize: nat, recvSize: nat, hooked: bool, iovMax: nat)
      requires iovMax > 0 && wire.sent == []
      ensures Valid() && Ordered() && this.wire == wire && fresh(sbuf) && fresh(rbuf)
      ensures accepted == [] && Pending() == wire.incoming && sbuf.Length == sendSize && rbuf.Length == recvSize
    {
      this.wire := wire;
      this.hooked, this.iovMax := hooked, iovMax;
      sbuf := new byte[sendSize];
      rbuf := new byte[recvSize];
      sOff, rOff, rTop, error := 0, 0, 0, EOK;
      accepted, gone := [], 0;
    }

    ghost predicate Valid()
      reads this
    {
      sOff <= sbuf.Length && rOff <= rTop <= rbuf.Length && sbuf != rbuf && iovMax > 0
    }

    /** The wire holds the oldest messages, whole; the send buffer holds the rest, whole. */
    ghost predicate Ordered()
      requires Valid()
      reads this, wire, sbuf
    {
      && gone <= |accepted|
      && wire.sent == Concat(accepted[..gone]) && sbuf[..sOff] == Concat(accepted[gone..])
    }

    /** What has gone out, followed by what is buffered. */
    ghost function Outgoing(): bytes
      requires Valid()
      reads this, wire, sbuf
    {
      wire.sent + sbuf[..sOff]
    }

    /** What a failed send leaves: the buffer as it was, and on the wire some first part of what it tried to
        write. When that was the buffer, the next flush writes that part again. So messages stay in order
        and whole exactly if nothing got out. */
    twostate predicate Failed(attempted: bytes)
      requires old(Valid()) && Valid()
      reads this, wire, sbuf
    {
      && sOff == old(sOff) && sbuf[..sOff] == old(sbuf[..sOff]) && accepted == old(accepted) && gone == old(gone)
      && old(wire.sent) <= wire.sent <= old(wire.sent) + attempted
      && (old(Ordered()) ==> (Ordered() <==> wire.sent == old(wire.sent)))
    }

    /** The bytes a reader still has to get. */
    ghost function Pending(): bytes
      requires Valid()
      reads this, wire, rbuf
    {
      rbuf[rOff..rTop] + wire.incoming
    }

    // -------------------------------------------------------------- sending

    /** `tnt_io_send_raw`: everything, or an error after some prefix. */
    method SendRaw(buf: bytes, all: bool) returns (rv: int)
      modifies wire`sent, `error
      ensures rv != -1 ==> error == old(error) && 0 < rv <= |buf| && (all ==> rv == |buf|)
                           && wire.sent == old(wire.sent) + buf[..rv]
      ensures rv == -1 ==> error == ESYSTEM && old(wire.sent) <= wire.sent <= old(wire.sent) + buf
    {
      var off := 0;
      while true
        invariant 0 <= off <= |buf| && wire.sent == old(wire.sent) + buf[..off] && error == old(error)
        invariant off == |buf| ==> off == 0
        decreases |buf| - off
      {
        var r := wire.Tx(buf[off..]);
        if r <= 0 {
          error := ESYSTEM;
          assert old(wire.sent) + buf == old(wire.sent) + buf[..off] + buf[off..];
          return -1;
        }
        assert buf[..off] + buf[off..][..r] == buf[..off + r];
        Assoc(old(wire.sent), buf[..off], buf[off..][..r]);
        off := off + r;
        if off == |buf| || !all { break; }
      }
      return off;
    }

    /** `tnt_io_flush` */
    method Flush() returns (rv: int)
      requires Valid()
      modifies this, wire`sent
      ensures Valid() && accepted == old(accepted)
      ensures rv != -1 ==> sOff == 0 && rv == old(sOff) && wire.sent == old(Outgoing())
      ensures rv != -1 && old(Ordered()) ==> Ordered() && wire.sent == Concat(accepted)
      ensures rv == -1 ==> Failed(old(sbuf[..sOff]))
      ensures rOff == old(rOff) && rTop == old(rTop) && Pending() == old(Pending())
    {
      if sOff == 0 {
        assert wire.sent + sbuf[..0] == wire.sent;
        if Ordered() { AllGone(accepted, gone, wire.sent, sbuf[..sOff]); }
        return 0;
      }
      rv := SendRaw(sbuf[..sOff], true);
      if rv == -1 { return -1; }
      if old(Ordered()) { AllGone(accepted, gone, old(wire.sent), sbuf[..sOff]); }
      sOff := 0;
      gone := |accepted|;
    }

    /** `tnt_io_send`: one message, into the buffer if it fits, after flushing what is there if not. */
    method Send(buf: bytes) returns (rv: int)
      requires Valid()
      modifies this, wire`sent, sbuf
      ensures Valid() && rOff == old(rOff) && rTop == old(rTop)
      ensures rv != -1 ==> rv == |buf| && Outgoing() == old(Outgoing()) + buf && accepted == old(accepted) + [buf]
      ensures rv != -1 && old(Ordered()) ==> Ordered()
      ensures rv == -1 ==> Failed(if sbuf.Length == 0 then buf else old(sbuf[..sOff]))
      ensures sbuf.Length > 0 && |buf| > sbuf.Length ==> rv == -1 && error == EBIG && wire.sent == old(wire.sent)
    {
      if sbuf.Length == 0 {
        rv := SendRaw(buf, true);
        if rv != -1 { SentWhole(old(wire.sent), buf, old(Ordered())); }
        return;
      }
      if |buf| > sbuf.Length {
        error := EBIG;
        return -1;
      }
      if sOff + |buf| <= sbuf.Length {
        CopyIn(sbuf, sOff, buf);
        sOff := sOff + |buf|;
        Buffered(old(sbuf[..sOff]), buf, old(Ordered()));
        return |buf|;
      }
      rv := SendRaw(sbuf[..sOff], true);
      if rv == -1 {
        error := ESYSTEM;
        return -1;
      }
      sOff := |buf|;
      CopyIn(sbuf, 0, buf);
      assert sbuf[..sOff] == buf;
      Replaced(old(wire.sent), old(sbuf[..sOff]), buf, old(Ordered()));
      return |buf|;
    }

    /** A message has gone out past the buffer, which does not exist. */
    ghost method SentWhole(was: bytes, msg: bytes, ordered: bool)
      requires Valid() && sbuf.Length == 0 && wire.sent == was + msg
      requires ordered ==> gone <= |accepted| && was == Concat(accepted[..gone]) && Concat(accepted[gone..]) == []
      modifies `accepted, `gone
      ensures accepted == old(accepted) + [msg] && Outgoing() == was + [] + msg && (ordered ==> Ordered())
    {
      if ordered {
        AllGone(accepted, gone, was, []);
        assert was + [] == was;
        Grew(msg, |accepted|);
      } else {
        accepted := accepted + [msg];
      }
      assert wire.sent + sbuf[..sOff] == was + [] + msg;
    }

    /** A message has been put behind what was buffered. */
    ghost method Buffered(was: bytes, msg: bytes, ordered: bool)
      requires Valid() && sbuf.Length > 0 && sbuf[..sOff] == was + msg
      requires ordered ==> gone <= |accepted| && wire.sent == Concat(accepted[..gone]) && was == Concat(accepted[gone..])
      modifies `accepted, `gone
      ensures accepted == old(accepted) + [msg] && Outgoing() == wire.sent + was + msg && (ordered ==> Ordered())
    {
      if ordered { Grew(msg, gone); } else { accepted := accepted + [msg]; }
      Assoc(wire.sent, was, msg);
    }

    /** The buffer has gone out and now holds one message. */
    ghost method Replaced(was: bytes, buffered: bytes, msg: bytes, ordered: bool)
      requires Valid() && sbuf.Length > 0 && wire.sent == was + buffered && sbuf[..sOff] == msg
      requires ordered ==> gone <= |accepted| && was == Concat(accepted[..gone]) && buffered == Concat(accepted[gone..])
      modifies `accepted, `gone
      ensures accepted == old(accepted) + [msg] && Outgoing() == was + buffered + msg && (ordered ==> Ordered())
    {
      if ordered {
        AllGone(accepted, gone, was, buffered);
        assert Concat(accepted[|accepted|..]) + msg == msg by { ConcatNone<byte>(); assert [] + msg == msg; }
        Grew(msg, |accepted|);
      } else {
        accepted := accepted + [msg];
      }
    }

    /** Account for one more message: the first `k` have left, the rest is buffered. */
    ghost method Grew(msg: bytes, k: nat)
      requires Valid() && k <= |accepted|
      requires k < |accepted| || sbuf.Length > 0 ==> wire.sent == Concat(accepted[..k]) && sbuf[..sOff] == Concat(accepted[k..]) + msg
      requires sbuf.Length == 0 ==> k == |accepted| && gone <= k && wire.sent == Concat(accepted) + msg
      modifies `accepted, `gone
      ensures accepted == old(accepted) + [msg] && Ordered()
    {
      ghost var was := accepted;
      accepted := accepted + [msg];
      if sbuf.Length == 0 {
        gone := |accepted|;
        ConcatSnoc(was, msg);
        assert accepted[..gone] == accepted && accepted[gone..] == [];
      } else {
        gone := k;
        ConcatSnoc(was[k..], msg);
        assert accepted[..k] == was[..k] && accepted[k..] == was[k..] + [msg];
      }
    }

    // -------------------------------------------------------------- gathering

    /** The inner loop of `tnt_io_sendv_raw`: skip what has been written, piece by piece. */
    method Advance(iov: array<bytes>, from: nat, written: nat) returns (at: nat)
      requires from <= iov.Length && written <= |Concat(iov[from..])|
      modifies iov
      ensures from <= at <= iov.Length && Concat(iov[at..]) == old(Concat(iov[from..]))[written..]
    {
      at := from;
      var r := written;
      ghost var rest := Concat(iov[from..]);
      while at < iov.Length
        invariant from <= at <= iov.Length && 0 <= r <= |Concat(iov[at..])|
        invariant Concat(iov[at..])[r..] == rest[written..]
        decreases iov.Length - at
      {
        assert iov[at..][0] == iov[at] && iov[at..][1..] == iov[at + 1..];
        ghost var now := Concat(iov[at..]);
        if |iov[at]| > r {
          iov[at] := iov[at][r..];
          assert iov[at..][0] == iov[at] && iov[at..][1..] == iov[at + 1..];
          assert Concat(iov[at..]) == now[r..];
          return;
        }
        assert now[r..] == Concat(iov[at + 1..])[r - |iov[at]|..];
        r := r - |iov[at]|;
        at := at + 1;
      }
    }

    /** One write of what is left of the vector: by the callback at most iovMax pieces at a time, by
        `writev(2)` all at once. */
    method WriteSome(iov: array<bytes>, at: nat) returns (r: int)
      requires at < iov.Length && iovMax > 0
      modifies wire`sent, `error
      ensures r <= |Concat(iov[at..])|
      ensures r <= 0 ==> wire.sent == old(wire.sent) && error == ESYSTEM
      ensures r > 0 ==> wire.sent == old(wire.sent) + Concat(iov[at..])[..r] && error == old(error)
    {
      var count := iov.Length - at;
      var most := if hooked && iovMax < count then iovMax else count;
      ConcatPrefix(iov[at..], most);
      assert iov[at..][..most] == iov[at..at + most];
      r := wire.Txv(iov[at..at + most]);
      if r > 0 {
        assert Concat(iov[at..at + most])[..r] == Concat(iov[at..])[..r];
      } else {
        error := ESYSTEM;
      }
    }

    /** `tnt_io_sendv_raw`: the vector is consumed in place until all of it is out. */
    method SendvRaw(iov: array<bytes>, all: bool) returns (rv: int)
      requires iovMax > 0
      modifies wire`sent, iov, `error
      ensures rv != -1 && all ==> rv == |Concat(old(iov[..]))| && wire.sent == old(wire.sent) + Concat(old(iov[..]))
      ensures rv != -1 ==> error == old(error)
      ensures rv == -1 ==> error == ESYSTEM && old(wire.sent) <= wire.sent <= old(wire.sent) + Concat(old(iov[..]))
    {
      hide Concat;
      ghost var goal := old(wire.sent) + Concat(iov[..]);
      assert iov[0..] == iov[..];
      var total, at := 0, 0;
      var count := iov.Length;
      while count > 0
        invariant 0 <= at && 0 <= count && at + count == iov.Length && error == old(error) && total >= 0
        invariant old(wire.sent) <= wire.sent && |wire.sent| == |old(wire.sent)| + total
        invariant wire.sent + Concat(iov[at..]) == goal
        decreases |Concat(iov[at..])|
      {
        ghost var rest := Concat(iov[at..]);
        ghost var before := wire.sent;
        var r := WriteSome(iov, at);
        if r <= 0 { return -1; }
        total := total + r;
        SplitAt(before, rest, r);
        if !all { return total; }
        at := Advance(iov, at, r);
        count := iov.Length - at;
      }
      assert Concat(iov[at..]) == [] by { assert iov[at..] == []; ConcatNone<byte>(); }
      assert wire.sent + [] == wire.sent;
      return total;
    }
  
    /** `tnt_io_sendv_put`: copy the pieces behind what is buffered. */
    method SendvPut(iov: seq<bytes>)
      requires Valid() && sOff + |Concat(iov)| <= sbuf.Length
      modifies `sOff, sbuf
      ensures Valid() && sOff == old(sOff) + |Concat(iov)|
      ensures sbuf[..sOff] == old(sbuf[..sOff]) + Concat(iov)
    {
      for i := 0 to |iov|
        invariant Valid() && sOff == old(sOff) + |Concat(iov[..i])|
        invariant sbuf[..sOff] == old(sbuf[..sOff]) + Concat(iov[..i])
      {
        ConcatTake(iov, i);
        ConcatPrefix(iov, i + 1);
        Assoc(old(sbuf[..sOff]), Concat(iov[..i]), iov[i]);
        CopyIn(sbuf, sOff, iov[i]);
        sOff := sOff + |iov[i]|;
      }
      assert iov[..|iov|] == iov;
    }

    /** `tnt_io_sendv`: the pieces are one message; it acts as `Send` of their concatenation. */
    method Sendv(iov: array<bytes>) returns (rv: int)
      requires Valid()
      modifies this, wire`sent, sbuf, iov
      ensures Valid() && rOff == old(rOff) && rTop == old(rTop)
      ensures rv != -1 ==> var buf := Concat(old(iov[..]));
                           rv == |buf| && Outgoing() == old(Outgoing()) + buf && accepted == old(accepted) + [buf]
      ensures rv != -1 && old(Ordered()) ==> Ordered()
      ensures rv == -1 ==> Failed(if sbuf.Length == 0 then Concat(old(iov[..])) else old(sbuf[..sOff]))
      ensures sbuf.Length > 0 && |Concat(old(iov[..]))| > sbuf.Length ==>
                rv == -1 && error == EBIG && wire.sent == old(wire.sent)
    {
      ghost var buf := Concat(iov[..]);
      if sbuf.Length == 0 {
        rv := SendvRaw(iov, true);
        if rv != -1 { SentWhole(old(wire.sent), buf, old(Ordered())); }
        return;
      }
      var size := TotalLength(iov[..]);
      if size > sbuf.Length {
        error := EBIG;
        return -1;
      }
      if sOff + size <= sbuf.Length {
        SendvPut(iov[..]);
        Buffered(old(sbuf[..sOff]), buf, old(Ordered()));
        return size;
      }
      rv := SendRaw(sbuf[..sOff], true);
      if rv == -1 {
        error := ESYSTEM;
        return -1;
      }
      sOff := 0;
      SendvPut(iov[..]);
      assert sbuf[..sOff] == buf;
      Replaced(old(wire.sent), old(sbuf[..sOff]), buf, old(Ordered()));
      return size;
    }

    // -------------------------------------------------------------- receiving

    /** `tnt_io_recv_raw` */
    method RecvRaw(dst: array<byte>, all: bool) returns (rv: int)
      modifies wire`incoming, dst, `error
      ensures rv != -1 ==> error == old(error) && 0 < rv <= dst.Length && rv <= old(|wire.incoming|) && (all ==> rv == dst.Length)
                           && dst[..rv] == old(wire.incoming[..rv]) && wire.incoming == old(wire.incoming[rv..])
      ensures rv == -1 ==> error == ESYSTEM && |wire.incoming| <= |old(wire.incoming)|
      ensures rv == -1 ==> wire.incoming == old(wire.incoming)[|old(wire.incoming)| - |wire.incoming|..]
      ensures rv == -1 && !all ==> wire.incoming == old(wire.incoming) && dst[..] == old(dst[..])
    {
      var off := 0;
      while true
        invariant 0 <= off <= dst.Length && off <= old(|wire.incoming|) && error == old(error)
        invariant dst[..off] == old(wire.incoming[..off]) && wire.incoming == old(wire.incoming[off..])
        invariant (off == dst.Length ==> off == 0) && (!all ==> off == 0 && dst[..] == old(dst[..]))
        decreases dst.Length - off
      {
        var r, chunk := wire.Rx(dst.Length - off);
        if r <= 0 {
          error := ESYSTEM;
          return -1;
        }
        CopyIn(dst, off, chunk);
        off := off + r;
        if off == dst.Length || !all { break; }
      }
      return off;
    }

    /** Without a receive buffer the bytes go straight to the caller; a failed call loses those it has read. */
    method RecvDirect(buf: array<byte>) returns (rv: int)
      requires Valid() && rbuf.Length == 0 && buf != rbuf && buf != sbuf
      modifies wire`incoming, buf, `error
      ensures Valid()
      ensures rv != -1 ==> rv == buf.Length <= |old(Pending())|
                           && buf[..] == old(Pending())[..buf.Length] && Pending() == old(Pending())[buf.Length..]
      ensures rv == -1 ==> |Pending()| <= |old(Pending())| && Pending() == old(Pending())[|old(Pending())| - |Pending()|..]
    {
      assert rbuf[rOff..rTop] == [];
      assert Pending() == wire.incoming;
      rv := RecvRaw(buf, true);
      assert Pending() == wire.incoming;
      assert buf[..] == buf[..buf.Length];
    }

    /** What a failed buffered call leaves, given the sizes of its successful refills. Without any, the bytes
        in front of the offset come back; otherwise the bytes buffered at the start and those of all
        refills but the last are lost. */
    ghost predicate LeftBehind(before: bytes, delivered: bytes, buffered: nat, refills: seq<nat>)
      requires Valid()
      reads this, wire, rbuf
    {
      if |refills| == 0 then Pending() == delivered + before
      else
        var lost := buffered + Sum(refills[..|refills| - 1]);
        lost <= |before| && Pending() == before[lost..]
    }

    /** `tnt_io_recv`: exactly the next bytes of the stream, however the socket splits it. A failed call
        leaves what `LeftBehind` says. It loses and repeats nothing exactly if its first refill failed and
        the offset was zero, or its second one did and nothing was buffered before. */
    method Recv(buf: array<byte>) returns (rv: int, ghost refills: seq<nat>)
      requires Valid() && buf != rbuf && buf != sbuf
      modifies `rOff, `rTop, `error, wire`incoming, rbuf, buf
      ensures Valid()
      ensures rv != -1 ==> rv == buf.Length <= |old(Pending())|
                           && buf[..] == old(Pending())[..buf.Length] && Pending() == old(Pending())[buf.Length..]
      ensures rbuf.Length > 0 ==>
                (forall k :: 0 <= k < |refills| ==> 0 < refills[k] <= rbuf.Length)
                && |old(wire.incoming)| == |wire.incoming| + Sum(refills)
      ensures rv == -1 && rbuf.Length > 0 ==>
                && LeftBehind(old(Pending()), old(rbuf[..rOff]), old(rTop - rOff), refills)
                && (Pending() == old(Pending()) <==>
                      (|refills| == 0 && old(rOff) == 0) || (|refills| == 1 && old(rOff) == old(rTop)))
      ensures rv == -1 && rbuf.Length == 0 ==>
                |Pending()| <= |old(Pending())| && Pending() == old(Pending())[|old(Pending())| - |Pending()|..]
    {
      hide Pending;
      if rbuf.Length == 0 {
        refills := [];
        rv := RecvDirect(buf);
      } else {
        rv, refills := RecvBuffered(buf);
        if rv == -1 { NothingLost(old(Pending()), old(rbuf[..rOff]), old(rTop - rOff), refills); }
      }
    }

    /** When a failed call has lost and repeated nothing. */
    lemma NothingLost(before: bytes, delivered: bytes, buffered: nat, refills: seq<nat>)
      requires Valid() && LeftBehind(before, delivered, buffered, refills)
      requires forall k :: 0 <= k < |refills| ==> refills[k] > 0
      ensures Pending() == before <==>
                (|refills| == 0 && |delivered| == 0) || (|refills| == 1 && buffered == 0)
    {
      hide Pending;
      if |refills| > 1 {
        SumPositive(refills[..|refills| - 1]);
      } else if |refills| == 0 && |delivered| == 0 {
        assert delivered + before == before;
      }
    }

    /** Losing: two bytes were buffered, a refill brought three more, the next one failed. The offset was zero. */
    lemma RefillLoses()
      requires Valid() && LeftBehind([1, 2, 3, 4, 5], [], 2, [3])
      ensures Pending() == [3, 4, 5]
    {
      hide Pending;
      assert [3][..0] == [] && [1, 2, 3, 4, 5][2..] == [3, 4, 5];
    }

    /** Repeating: two bytes had been delivered, one more was buffered, the first refill failed. */
    lemma RefillRepeats()
      requires Valid() && LeftBehind([3], [1, 2], 1, [])
      ensures Pending() == [1, 2, 3]
    {
      hide Pending;
      assert [1, 2] + [3] == [1, 2, 3];
    }

    /** The loop of `tnt_io_recv`. */
    method RecvBuffered(buf: array<byte>) returns (rv: int, ghost refills: seq<nat>)
      requires Valid() && buf != rbuf && buf != sbuf
      modifies `rOff, `rTop, `error, wire`incoming, rbuf, buf
      ensures Valid()
      ensures rv != -1 ==> rv == buf.Length <= |old(Pending())|
                           && buf[..] == old(Pending())[..buf.Length] && Pending() == old(Pending())[buf.Length..]
      ensures Counted(refills, rbuf.Length, |old(wire.incoming)| - |wire.incoming|)
      ensures rv == -1 ==> LeftBehind(old(Pending()), old(rbuf[..rOff]), old(rTop - rOff), refills)
    {
      hide Pending, Sum, LeftBehind, Counted;
      var off, left := 0, buf.Length;
      ghost var stream, buffered := Pending(), rTop - rOff;
      refills := [];
      PendingIs();
      CountedNone(rbuf.Length);
      while true
        invariant Valid() && 0 <= off && 0 <= left && off + left == buf.Length && off <= |stream|
        invariant buf[..off] == stream[..off] && Pending() == stream[off..]
        invariant Counted(refills, rbuf.Length, |old(wire.incoming)| - |wire.incoming|)
        invariant |refills| == 0 ==>
                    off == 0 && rOff == old(rOff) && rTop == old(rTop) && rbuf[..] == old(rbuf[..])
                    && wire.incoming == old(wire.incoming)
        invariant |refills| > 0 ==>
                    rOff == 0 && rTop == refills[|refills| - 1] && off == buffered + Sum(refills[..|refills| - 1])
        decreases left, if rOff == rTop then 1 else 0
      {
        if rOff + left <= rTop {
          Finish(buf, off, left, stream);
          return buf.Length, refills;
        }
        var lv := rTop - rOff;
        var rest := left - lv;
        ghost var at := off;
        PendingIs();
        var ok := NextRefill(buf, off, stream);
        off := off + lv;
        if !ok {
          Leftovers(stream, at, old(rbuf[..]), old(rOff), old(rTop), old(wire.incoming), refills);
          return -1, refills;
        }
        CountedMore(refills, rbuf.Length, |old(wire.incoming)| - |wire.incoming| - rTop, rTop);
        refills := refills + [rTop];
        if rest <= rTop {
          Finish(buf, off, rest, stream);
          return buf.Length, refills;
        }
        left := left - lv;
      }
    }

    /** Copy the last n bytes to the reader. */
    method Finish(buf: array<byte>, off: nat, n: nat, ghost stream: bytes)
      requires Valid() && buf != rbuf && buf != sbuf && off + n == buf.Length && rOff + n <= rTop
      requires off <= |stream| && buf[..off] == stream[..off] && Pending() == stream[off..]
      modifies `rOff, buf
      ensures Valid() && buf.Length <= |stream|
      ensures buf[..] == stream[..buf.Length] && Pending() == stream[buf.Length..]
    {
      hide Pending;
      TakeBuffered(buf, off, n, stream);
      assert buf[..] == buf[..off + n];
    }

    /** Copy all buffered bytes to the reader and fill the buffer again. */
    method NextRefill(buf: array<byte>, off: nat, ghost stream: bytes) returns (ok: bool)
      requires Valid() && buf != rbuf && buf != sbuf && off + (rTop - rOff) <= buf.Length
      requires off <= |stream| && buf[..off] == stream[..off] && Pending() == stream[off..]
      modifies `rOff, `rTop, `error, wire`incoming, rbuf, buf
      ensures Valid() && rOff == 0
      ensures ok ==>
                && 0 < rTop <= rbuf.Length && |old(wire.incoming)| == |wire.incoming| + rTop
                && var off' := off + old(rTop - rOff);
                   off' <= |stream| && buf[..off'] == stream[..off'] && Pending() == stream[off'..]
      ensures !ok ==> rTop == old(rTop) && wire.incoming == old(wire.incoming) && rbuf[..] == old(rbuf[..])
    {
      hide Pending;
      var lv := rTop - rOff;
      if lv > 0 { TakeBuffered(buf, off, lv, stream); }
      ok := Refill();
    }

    lemma PendingIs()
      requires Valid()
      ensures Pending() == rbuf[rOff..rTop] + wire.incoming
    {
    }

    /** A refill has failed; the bytes it was to replace had been copied out from `at` on. */
    lemma Leftovers(
      stream: bytes, at: nat, kept: bytes, oldOff: nat, oldTop: nat, oldIncoming: bytes, refills: seq<nat>)
      requires Valid() && rOff == 0 && oldOff <= oldTop <= |kept| == rbuf.Length
      requires stream == kept[oldOff..oldTop] + oldIncoming
      requires |refills| == 0 ==> rbuf[..] == kept && rTop == oldTop && wire.incoming == oldIncoming
      requires |refills| > 0 ==>
                 && at == oldTop - oldOff + Sum(refills[..|refills| - 1]) <= |stream|
                 && stream[at..] == rbuf[0..rTop] + wire.incoming
      ensures LeftBehind(stream, kept[..oldOff], oldTop - oldOff, refills)
    {
      if |refills| == 0 {
        assert rbuf[0..rTop] == rbuf[..][..rTop] == kept[..oldTop] == kept[..oldOff] + kept[oldOff..oldTop];
        Assoc(kept[..oldOff], kept[oldOff..oldTop], oldIncoming);
      }
    }

    /** Copy n buffered bytes to the reader. */
    method TakeBuffered(buf: array<byte>, off: nat, n: nat, ghost stream: bytes)
      requires Valid() && buf != rbuf && buf != sbuf && off + n <= buf.Length && rOff + n <= rTop
      requires off <= |stream| && buf[..off] == stream[..off] && Pending() == stream[off..]
      modifies `rOff, buf
      ensures Valid() && rOff == old(rOff) + n
      ensures off + n <= |stream| && buf[..off + n] == stream[..off + n] && Pending() == stream[off + n..]
      ensures rbuf[..] == old(rbuf[..])
    {
      TakeNext(stream, off, n, rbuf[rOff..rTop], wire.incoming);
      Halves(rbuf, rOff, rOff + n, rTop);
      CopyIn(buf, off, rbuf[rOff..rOff + n]);
      rOff := rOff + n;
    }

    /** The receive buffer is used up: reset it and fill it again. The offset is reset before the read. */
    method Refill() returns (ok: bool)
      requires Valid() && rOff == rTop
      modifies `rOff, `rTop, `error, wire`incoming, rbuf
      ensures Valid()
      ensures ok ==> rOff == 0 < rTop && Pending() == old(Pending()) && |old(wire.incoming)| == |wire.incoming| + rTop
      ensures !ok ==> rOff == 0 && rTop == old(rTop) && wire.incoming == old(wire.incoming) && rbuf[..] == old(rbuf[..])
    {
      rOff := 0;
      var top := RecvRaw(rbuf, false);
      if top <= 0 {
        error := ESYSTEM;
        return false;
      }
      rTop := top;
      assert old(Pending()) == old(wire.incoming);
      return true;
    }
  }

  /** The sizes of several refills together. */
  function Sum(s: seq<nat>): nat
  {
    if |s| == 0 then 0 else Sum(s[..|s| - 1]) + s[|s| - 1]
  }

  /** The sizes of the refills of a call that has taken `spent` bytes from the peer. */
  ghost predicate Counted(refills: seq<nat>, size: nat, spent: int)
  {
    (forall k :: 0 <= k < |refills| ==> 0 < refills[k] <= size) && spent == Sum(refills)
  }

  lemma CountedNone(size: nat)
    ensures Counted([], size, 0)
  {
  }

  lemma CountedMore(refills: seq<nat>, size: nat, spent: int, n: nat)
    requires Counted(refills, size, spent) && 0 < n <= size
    ensures var more := refills + [n];
            && Counted(more, size, spent + n) && more[..|more| - 1] == refills
            && (|refills| > 0 ==> Sum(refills) == Sum(refills[..|refills| - 1]) + refills[|refills| - 1])
    ensures |refills| == 0 ==> Sum(refills) == 0
  {
    assert (refills + [n])[..|refills|] == refills;
  }

  lemma SumPositive(s: seq<nat>)
    requires |s| > 0 && forall k :: 0 <= k < |s| ==> s[k] > 0
    ensures Sum(s) > 0
  {
  }

  /** A run of sends and gathering sends (messages are given in pieces), then a flush: if none fails, the
      peer gets exactly the messages, in order. */
  method SendAll(n: Net, msgs: seq<seq<bytes>>) returns (ok: bool)
    requires n.Valid() && n.Ordered() && n.accepted == []
    modifies n, n.wire`sent, n.sbuf
    ensures ok ==> n.Valid() && n.Ordered() && n.wire.sent == Concat(Whole(msgs)) == Concat(n.accepted)
  {
    for i := 0 to |msgs|
      invariant n.Valid() && n.Ordered() && n.accepted == Whole(msgs[..i])
    {
      var rv;
      assert Whole(msgs[..i + 1]) == Whole(msgs[..i]) + [Concat(msgs[i])];
      if |msgs[i]| == 1 {
        rv := n.Send(msgs[i][0]);
        ConcatOne(msgs[i][0]);
        assert msgs[i] == [msgs[i][0]];
      } else {
        var iov := new bytes[|msgs[i]|](k requires 0 <= k < |msgs[i]| => msgs[i][k]);
        assert iov[..] == msgs[i];
        rv := n.Sendv(iov);
      }
      if rv == -1 { return false; }
    }
    assert msgs[..|msgs|] == msgs;
    var rv := n.Flush();
    return rv != -1;
  }

  function Whole(msgs: seq<seq<bytes>>): (r: seq<bytes>)
    ensures |r| == |msgs|
  {
    seq(|msgs|, i requires 0 <= i < |msgs| => Concat(msgs[i]))
  }

  /** A run of receives: if none fails, the readers get exactly the stream, in order, whatever sizes they ask
      for and however the socket splits it, and what is left is what is left of the stream. */
  method Deliver(n: Net, sizes: seq<nat>) returns (ok: bool, out: seq<bytes>)
    requires n.Valid()
    modifies n`rOff, n`rTop, n`error, n.wire`incoming, n.rbuf
    ensures ok ==> |out| == |sizes| && (forall i :: 0 <= i < |out| ==> |out[i]| == sizes[i])
    ensures ok ==> n.Valid() && old(n.Pending()) == Concat(out) + n.Pending()
  {
    hide Concat, Net.Pending;
    out := [];
    ConcatNone<byte>();
    assert [] + n.Pending() == n.Pending();
    for i := 0 to |sizes|
      invariant n.Valid() && |out| == i && (forall k :: 0 <= k < i ==> |out[k]| == sizes[k])
      invariant old(n.Pending()) == Concat(out) + n.Pending()
    {
      var buf := new byte[sizes[i]];
      ghost var before := n.Pending();
      var rv, refills := n.Recv(buf);
      if rv == -1 { return false, out; }
      ConcatSnoc(out, buf[..]);
      Extended(old(n.Pending()), Concat(out), before, buf[..], n.Pending());
      out := out + [buf[..]];
    }
    ok := true;
  }

  lemma Halves(a: array<byte>, i: nat, k: nat, j: nat)
    requires i <= k <= j <= a.Length
    ensures a[i..j][..k - i] == a[i..k] && a[i..j][k - i..] == a[k..j]
  {
  }

  lemma Extended(all: bytes, done: bytes, before: bytes, s: bytes, after: bytes)
    requires all == done + before && |s| <= |before| && s == before[..|s|] && after == before[|s|..]
    ensures all == done + s + after
  {
    assert before == s + after;
  }

  lemma SplitAt(a: bytes, s: bytes, r: nat)
    requires r <= |s|
    ensures a + s[..r] + s[r..] == a + s
  {
    assert s[..r] + s[r..] == s;
  }

  /** The next n bytes of a stream, from the front of what is buffered. */
  lemma TakeNext(stream: bytes, off: nat, n: nat, buffered: bytes, incoming: bytes)
    requires off <= |stream| && stream[off..] == buffered + incoming && n <= |buffered|
    ensures off + n <= |stream| && stream[..off + n] == stream[..off] + buffered[..n]
    ensures stream[off + n..] == buffered[n..] + incoming
  {
    assert stream == stream[..off] + (buffered + incoming);
  }

  /** When everything accepted so far has gone out. */
  lemma AllGone(accepted: seq<bytes>, gone: nat, sent: bytes, buffered: bytes)
    requires gone <= |accepted| && sent == Concat(accepted[..gone]) && buffered == Concat(accepted[gone..])
    ensures sent + buffered == Concat(accepted) && accepted[..|accepted|] == accepted && accepted[|accepted|..] == []
  {
    ConcatAppend(accepted[..gone], accepted[gone..]);
    assert accepted[..gone] + accepted[gone..] == accepted;
  }
}
