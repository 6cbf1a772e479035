/** A connection (`tnt_net_*`): requests go out and are counted, replies come in and are counted off;
    and the reply iterator. */
module Connection {
  import opened Seqs
  import opened MsgPack
  import opened Wrappers
  import opened Protocol
  import opened Transport
  import R = Reply

  /** A reply that ends its request: everything but a push (chunk) reply without an error. */
  predicate IsFinal(f: R.Fields)
  {
    f.error.Some? || (f.code / CHUNK) % 2 == 0
  }

  /** One complete, well-formed reply frame. */
  predicate FrameOk(frame: bytes)
  {
    && R.ShortPrefix(frame) && R.FrameOf(frame) == R.Complete(|frame|) && |frame| >= R.PREFIX
    && R.PayloadReadable(frame[R.PREFIX..]) && R.SpecPayload(frame[R.PREFIX..]).Some?
  }

  function FieldsOf(frame: bytes): R.Fields
    requires FrameOk(frame)
  {
    R.SpecPayload(frame[R.PREFIX..]).value
  }

  /** What a reply says about its request, read off its maps: it ends it if it has an error or if bit 7 of its
      code is clear. */
  predicate EndsRequest(payload: bytes)
    requires R.WellFormed(payload)
  {
    (R.HasBody(payload) && Lookup(Parse(payload[Parse(payload).len..]).v.flat, ERROR).Some?)
    || R.NumberAt(Parse(payload).v.flat, CODE) % 0x100 < 0x80
  }

  lemma FinalExactly(payload: bytes)
    requires R.SpecPayload(payload).Some?
    ensures R.WellFormed(payload) && (IsFinal(R.SpecPayload(payload).value) <==> EndsRequest(payload))
  {
    hide R.SpecPayload, R.HeaderMap, R.BodyMap, R.NumberAt, R.SpanIs, Parse;
    R.PayloadMeaning(payload);
    CodeBit(R.NumberAt(Parse(payload).v.flat, CODE));
  }

  lemma CodeBit(code: nat)
    ensures (code % 0x8000 / CHUNK) % 2 == 0 <==> code % 0x100 < 0x80
  {
  }

  predicate AllOk(frames: seq<bytes>)
  {
    forall i :: 0 <= i < |frames| ==> FrameOk(frames[i])
  }

  function Finals(frames: seq<bytes>): nat
    requires AllOk(frames)
  {
    if |frames| == 0 then 0 else (if IsFinal(FieldsOf(frames[0])) then 1 else 0) + Finals(frames[1..])
  }

  /** How many replies there are up to and with the k-th final one. */
  function FinalAt(frames: seq<bytes>, k: nat): (m: nat)
    requires AllOk(frames) && k <= Finals(frames)
    ensures m <= |frames| && (m > 0 <==> k > 0)
  {
    if k == 0 then 0
    else 1 + FinalAt(frames[1..], k - if IsFinal(FieldsOf(frames[0])) then 1 else 0)
  }

  lemma {:induction false} FinalAtMeans(frames: seq<bytes>, k: nat)
    requires AllOk(frames) && k <= Finals(frames)
    ensures var m := FinalAt(frames, k);
            Finals(frames[..m]) == k && (m > 0 ==> IsFinal(FieldsOf(frames[m - 1])))
  {
    hide FrameOk, IsFinal;
    if k > 0 {
      var k' := k - if IsFinal(FieldsOf(frames[0])) then 1 else 0;
      var m := FinalAt(frames, k);
      FinalAtMeans(frames[1..], k');
      assert frames[..m][1..] == frames[1..][..m - 1];
      if m > 1 { assert frames[m - 1] == frames[1..][m - 2]; }
    }
  }

  lemma {:induction false} FinalAtAll(frames: seq<bytes>)
    requires AllOk(frames) && (|frames| > 0 ==> IsFinal(FieldsOf(frames[|frames| - 1])))
    ensures FinalAt(frames, Finals(frames)) == |frames|
  {
    hide FrameOk, IsFinal;
    if |frames| > 0 {
      LastCounts(frames);
      if |frames| > 1 { assert frames[1..][|frames| - 2] == frames[|frames| - 1]; }
      FinalAtAll(frames[1..]);
    }
  }

  /** Whatever the stream starts with, the parser can look at it. */
  predicate StreamReadable(s: bytes)
  {
    R.Readable(s)
  }

  lemma OkReadable(frame: bytes, more: bytes)
    requires FrameOk(frame)
    ensures StreamReadable(frame + more) && R.FrameOf(frame + more) == R.Complete(|frame|)
    ensures (frame + more)[R.PREFIX..|frame|] == frame[R.PREFIX..] && (frame + more)[|frame|..] == more
  {
    hide R.FrameOf, R.PayloadReadable;
    R.TrailingIgnored(frame, more);
  }

  /** `struct tnt_stream` over the network. */
  class Conn {
    const net: Net
    var wrcnt: u32

    constructor (net: Net)
      requires net.Valid()
      ensures this.net == net && wrcnt == 0
    {
      this.net := net;
      wrcnt := 0;
    }

    /** `tnt_net_write` */
    method Write(buf: bytes) returns (rc: int)
      requires net.Valid()
      modifies this, net, net.wire`sent, net.sbuf
      ensures net.Valid()
      ensures rc != -1 ==> net.accepted == old(net.accepted) + [buf] && wrcnt == (old(wrcnt) + 1) % TWO32
      ensures rc != -1 && old(net.Ordered()) ==> net.Ordered()
      ensures rc == -1 ==> net.accepted == old(net.accepted) && wrcnt == old(wrcnt)
    {
      rc := net.Send(buf);
      if rc != -1 { wrcnt := (wrcnt + 1) % TWO32; }
    }

    /** `tnt_net_writev` */
    method Writev(iov: array<bytes>) returns (rc: int)
      requires net.Valid()
      modifies this, net, net.wire`sent, net.sbuf, iov
      ensures net.Valid()
      ensures rc != -1 ==> net.accepted == old(net.accepted) + [Concat(old(iov[..]))] && wrcnt == (old(wrcnt) + 1) % TWO32
      ensures rc != -1 && old(net.Ordered()) ==> net.Ordered()
      ensures rc == -1 ==> net.accepted == old(net.accepted) && wrcnt == old(wrcnt)
      ensures net.Pending() == old(net.Pending())
    {
      rc := net.Sendv(iov);
      if rc != -1 { wrcnt := (wrcnt + 1) % TWO32; }
    }

    /** `tnt_reply_from` over `tnt_net_recv_cb`: five bytes, then as many as they announce, however the
        transport delivers them. */
    method ReplyFrom(r: R.Reply) returns (rc: int)
      requires net.Valid() && StreamReadable(net.Pending())
      modifies r, net`rOff, net`rTop, net`error, net.wire`incoming, net.rbuf
      ensures net.Valid()
      ensures rc == 0 ==> R.FrameOf(old(net.Pending())).Complete?
      ensures rc == 0 ==>
                var s, total := old(net.Pending()), R.FrameOf(old(net.Pending())).total;
                && R.PREFIX <= total <= |s| && R.SpecPayload(s[R.PREFIX..total]) == Some(r.f)
                && r.buf == Some(s[R.PREFIX..total]) && net.Pending() == s[total..]
      ensures rc != 0 ==> rc == -1 && r.f == R.BLANK
    {
      hide R.PayloadReadable, R.SpecPayload, ParseHead, IsType, Net.Pending;
      r.buf, r.f := None, R.BLANK;
      ghost var s := net.Pending();
      var length := new byte[R.PREFIX];
      var rv, refills := net.Recv(length);
      if rv == -1 { return -1; }
      var prefix := length[..];
      assert prefix == s[..R.PREFIX];
      PrefixOf(s, prefix);
      if !IsType(prefix, KUInt) { return -1; }
      R.PrefixHead(prefix);
      var size := ParseHead(prefix).arg;
      var buf := new byte[size];
      rv, refills := net.Recv(buf);
      if rv == -1 {
        r.buf, r.f := None, R.BLANK;
        return -1;
      }
      var payload := buf[..];
      FrameParts(s, prefix, payload, net.Pending());
      rc := r.Digest(payload);
    }

    /** `tnt_net_reply` */
    method ReadReply(r: R.Reply) returns (rv: int)
      requires net.Valid() && (wrcnt > 0 ==> StreamReadable(net.Pending()))
      modifies this, r, net`rOff, net`rTop, net`error, net.wire`incoming, net.rbuf
      ensures net.Valid()
      ensures old(wrcnt) == 0 ==> rv == 1 && wrcnt == 0 && net.Pending() == old(net.Pending()) && r.f == old(r.f)
      ensures old(wrcnt) > 0 ==> rv <= 0 && wrcnt == old(wrcnt) - (if IsFinal(r.f) then 1 else 0)
      ensures old(wrcnt) > 0 && rv == 0 ==> R.FrameOf(old(net.Pending())).Complete?
      ensures old(wrcnt) > 0 && rv == 0 ==>
                var s, total := old(net.Pending()), R.FrameOf(old(net.Pending())).total;
                && R.PREFIX <= total <= |s| && R.SpecPayload(s[R.PREFIX..total]) == Some(r.f)
                && r.buf == Some(s[R.PREFIX..total]) && net.Pending() == s[total..]
      ensures old(wrcnt) > 0 && rv == 0 ==>
                var payload := old(net.Pending())[R.PREFIX..R.FrameOf(old(net.Pending())).total];
                R.WellFormed(payload) && wrcnt == old(wrcnt) - if EndsRequest(payload) then 1 else 0
      ensures old(wrcnt) > 0 && rv != 0 ==> rv == -1 && r.f == R.BLANK && wrcnt == old(wrcnt) - 1
    {
      hide R.PayloadReadable, R.SpecPayload, R.WellFormed, EndsRequest, Net.Pending;
      if wrcnt == 0 { return 1; }
      rv := ReplyFrom(r);
      if rv == 0 { FinalExactly(old(net.Pending())[R.PREFIX..R.FrameOf(old(net.Pending())).total]); }
      if r.f.error.Some? || (r.f.code / CHUNK) % 2 == 0 { wrcnt := (wrcnt + TWO32 - 1) % TWO32; }
    }
  }

  /** The first five bytes decide the framing. */
  lemma PrefixOf(s: bytes, prefix: bytes)
    requires StreamReadable(s) && |s| >= R.PREFIX && prefix == s[..R.PREFIX]
    ensures prefix[0] != 0xcf && IsType(prefix, KUInt) == IsType(s, KUInt)
    ensures IsType(s, KUInt) ==> ParseHead(prefix).Head? && ParseHead(prefix) == ParseHead(s) && ParseHead(s).arg >= 0
  {
    hide R.PayloadReadable, ParseHead;
    if IsType(s, KUInt) {
      R.PrefixHead(s);
      HeadLocal(s, prefix, R.PREFIX);
    }
  }

  /** The two reads together are the first frame of the stream. */
  lemma FrameParts(s: bytes, prefix: bytes, payload: bytes, rest: bytes)
    requires StreamReadable(s) && |s| >= R.PREFIX && prefix == s[..R.PREFIX] && IsType(s, KUInt)
    requires ParseHead(s).Head? && ParseHead(s).arg == |payload|
    requires |payload| <= |s[R.PREFIX..]| && payload == s[R.PREFIX..][..|payload|] && rest == s[R.PREFIX..][|payload|..]
    ensures R.FrameOf(s) == R.Complete(R.PREFIX + |payload|) && R.PayloadReadable(payload)
    ensures payload == s[R.PREFIX..R.PREFIX + |payload|] && rest == s[R.PREFIX + |payload|..]
  {
    hide R.PayloadReadable, ParseHead;
    assert payload == s[R.PREFIX..R.PREFIX + |payload|];
  }

  // ---------------------------------------------------------------- the reply iterator

  /** `tnt_iter_reply` */
  class ReplyIter {
    const conn: Conn
    var reply: R.Reply
    var failed: bool

    constructor (conn: Conn)
      ensures this.conn == conn && !failed && fresh(reply)
    {
      this.conn := conn;
      failed := false;
      reply := new R.Reply();
    }

    /** `tnt_iter_reply_next` */
    method Next() returns (more: bool)
      requires conn.net.Valid() && (conn.wrcnt > 0 ==> StreamReadable(conn.net.Pending()))
      modifies this, conn, conn.net`rOff, conn.net`rTop, conn.net`error, conn.net.wire`incoming, conn.net.rbuf
      ensures conn.net.Valid() && fresh(reply)
      ensures old(conn.wrcnt) == 0 ==> !more && failed == old(failed) && conn.wrcnt == 0 && conn.net.Pending() == old(conn.net.Pending())
      ensures more ==> old(conn.wrcnt) > 0 && R.FrameOf(old(conn.net.Pending())).Complete? && failed == old(failed)
      ensures more ==> var s, total := old(conn.net.Pending()), R.FrameOf(old(conn.net.Pending())).total;
                       && R.PREFIX <= total <= |s| && R.SpecPayload(s[R.PREFIX..total]) == Some(reply.f)
                       && reply.buf == Some(s[R.PREFIX..total]) && conn.net.Pending() == s[total..]
                       && conn.wrcnt == old(conn.wrcnt) - (if IsFinal(reply.f) then 1 else 0)
      ensures old(conn.wrcnt) > 0 && !more ==> failed
    {
      hide R.PayloadReadable, R.SpecPayload, Net.Pending;
      reply := new R.Reply();
      var rc := conn.ReadReply(reply);
      if rc == -1 {
        failed := true;
        return false;
      }
      return rc != 1;
    }
  }

  /** The iterator stands at the first of these replies, with the others and then `rest` still to come. */
  ghost predicate Standing(it: ReplyIter, left: seq<bytes>, rest: bytes)
    requires it.conn.net.Valid()
    reads it, it.reply, it.conn, it.conn.net, it.conn.net.wire, it.conn.net.rbuf
  {
    && |left| > 0 && AllOk(left) && !it.failed
    && it.reply.buf == Some(left[0][R.PREFIX..]) && it.reply.f == FieldsOf(left[0])
    && it.conn.net.Pending() == Concat(left[1..]) + rest && it.conn.wrcnt == Finals(left[1..])
    && (|left| > 1 ==> IsFinal(FieldsOf(left[|left| - 1])))
  }

  /** One call of the iterator on such a connection. */
  method NextOf(it: ReplyIter, ghost left: seq<bytes>, ghost rest: bytes) returns (more: bool)
    requires it.conn.net.Valid() && !it.failed && it.conn.net.Pending() == Concat(left) + rest
    requires AllOk(left) && Finals(left) == it.conn.wrcnt
    requires |left| > 0 ==> IsFinal(FieldsOf(left[|left| - 1]))
    modifies it, it.conn, it.conn.net`rOff, it.conn.net`rTop, it.conn.net`error, it.conn.net.wire`incoming, it.conn.net.rbuf
    ensures it.conn.net.Valid() && fresh(it.reply)
    ensures more ==> Standing(it, left, rest)
    ensures !more && !it.failed ==> left == [] && it.conn.wrcnt == 0 && it.conn.net.Pending() == rest
  {
    hide R.PayloadReadable, R.SpecPayload, R.FrameOf, R.Readable, Net.Pending, FrameOk, IsFinal, Concat;
    Upcoming(left, rest, it.conn.wrcnt);
    more := it.Next();
  }

  /** Draining a connection on which as many requests are counted as final replies are on their way, each
      preceded by any number of chunks. Unless the transport fails, the iterator yields every reply, in
      wire order, and stops right after the last final one. */
  method Drain(it: ReplyIter, ghost frames: seq<bytes>, ghost rest: bytes) returns (out: seq<R.Fields>)
    requires it.conn.net.Valid() && !it.failed && it.conn.net.Pending() == Concat(frames) + rest
    requires AllOk(frames) && Finals(frames) == it.conn.wrcnt
    requires |frames| > 0 ==> IsFinal(FieldsOf(frames[|frames| - 1]))
    modifies it, it.conn, it.conn.net`rOff, it.conn.net`rTop, it.conn.net`error, it.conn.net.wire`incoming, it.conn.net.rbuf
    ensures !it.failed ==>
              && |out| == |frames| && (forall i :: 0 <= i < |out| ==> out[i] == FieldsOf(frames[i]))
              && it.conn.wrcnt == 0 && it.conn.net.Valid() && it.conn.net.Pending() == rest
  {
    hide Standing, R.SpecPayload, Net.Pending, FrameOk, IsFinal, Concat;
    out := [];
    ghost var left := frames;
    var more := NextOf(it, left, rest);
    while more
      invariant it.conn.net.Valid() && fresh(it.reply) && |out| <= |frames| && left == frames[|out|..]
      invariant forall i :: 0 <= i < |out| ==> out[i] == FieldsOf(frames[i])
      invariant more ==> Standing(it, left, rest)
      invariant !more && !it.failed ==> left == [] && it.conn.wrcnt == 0 && it.conn.net.Pending() == rest
      decreases |left|, more
    {
      StandingMeans(it, left, rest);
      assert left[0] == frames[|out|];
      out := out + [it.reply.f];
      left := left[1..];
      more := NextOf(it, left, rest);
    }
  }

  lemma StandingMeans(it: ReplyIter, left: seq<bytes>, rest: bytes)
    requires it.conn.net.Valid() && Standing(it, left, rest)
    ensures |left| > 0 && AllOk(left) && AllOk(left[1..]) && |left[0]| >= R.PREFIX && !it.failed
    ensures it.reply.buf == Some(left[0][R.PREFIX..]) && it.reply.f == FieldsOf(left[0])
    ensures it.conn.net.Pending() == Concat(left[1..]) + rest && it.conn.wrcnt == Finals(left[1..])
    ensures |left| > 1 ==> IsFinal(FieldsOf(left[1..][|left[1..]| - 1]))
  {
    hide R.SpecPayload, R.FrameOf, R.PayloadReadable, Net.Pending, IsFinal;
    assert FrameOk(left[0]);
  }

  /** What the next call of the iterator will meet. */
  lemma {:induction false} Upcoming(left: seq<bytes>, rest: bytes, wrcnt: nat)
    requires AllOk(left) && Finals(left) == wrcnt && (|left| > 0 ==> IsFinal(FieldsOf(left[|left| - 1])))
    ensures wrcnt == 0 ==> left == [] && Concat(left) + rest == rest
    ensures wrcnt > 0 ==> |left| > 0 && wrcnt == (if IsFinal(FieldsOf(left[0])) then 1 else 0) + Finals(left[1..])
    ensures wrcnt > 0 ==>
              var s := Concat(left) + rest;
              && StreamReadable(s) && R.FrameOf(s) == R.Complete(|left[0]|) && R.PREFIX <= |left[0]| <= |s|
              && s[|left[0]|..] == Concat(left[1..]) + rest && s[R.PREFIX..|left[0]|] == left[0][R.PREFIX..]
              && R.SpecPayload(s[R.PREFIX..|left[0]|]) == Some(FieldsOf(left[0]))
  {
    hide R.PayloadReadable, R.SpecPayload, R.FrameOf, R.Readable, IsFinal;
    if |left| == 0 {
      assert [] + rest == rest;
    } else {
      LastCounts(left);
      Assoc(left[0], Concat(left[1..]), rest);
      OkReadable(left[0], Concat(left[1..]) + rest);
      assert FrameOk(left[0]);
    }
  }

  lemma {:induction false} LastCounts(frames: seq<bytes>)
    requires AllOk(frames) && |frames| > 0 && IsFinal(FieldsOf(frames[|frames| - 1]))
    ensures Finals(frames) > 0
  {
    hide FrameOk, IsFinal;
    if |frames| > 1 { LastCounts(frames[1..]); }
  }
}
