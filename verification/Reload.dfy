/** `tnt_reload_schema`: two requests, for spaces under sync 127 and for indexes under sync 128, whose
    replies may come in either order. */
module Reload {
  import opened Seqs
  import opened MsgPack
  import opened Wrappers
  import opened Protocol
  import opened Builder
  import opened ObjectStream
  import C = Connection
  import O = OneShot
  import P = RequestProofs
  import Q = Requests
  import R = Reply
  import S = Schema
  import T = Transport

  const SPACES_SYNC: nat := 127
  const INDEXES_SYNC: nat := 128

  /** What the loop looks at in a reply: the sync, whether there is an error, and the data. */
  datatype Rep = Rep(sync: nat, failed: bool, data: bytes)

  /** The replies the schema decoders can read. */
  predicate Shaped(r: Rep)
  {
    !r.failed ==> (r.sync == SPACES_SYNC ==> S.AllShaped(r.data, true)) && (r.sync == INDEXES_SYNC ==> S.AllShaped(r.data, false))
  }

  function WithSpaces(c: S.Cache, data: bytes): S.Cache
  {
    if S.IsRows(data) then S.PutSpaces(c, Parse(data).v.items).cache else c
  }

  function WithIndexes(c: S.Cache, data: bytes): S.Cache
  {
    if S.IsRows(data) then S.PutIndexes(c, Parse(data).v.items).cache else c
  }

  /** `sloaded`, the saved index reply, and the cache. */
  datatype Progress = Progress(loaded: nat, backup: Option<bytes>, cache: S.Cache)

  /** One turn of the loop; None is a jump to the error exit. */
  function Turn(l: Progress, r: Rep): Option<Progress>
  {
    if r.sync == SPACES_SYNC && !r.failed then
      Some(l.(loaded := l.loaded + 1, cache := WithSpaces(l.cache, r.data)))
    else if r.sync == INDEXES_SYNC && !r.failed then
      if l.loaded % 2 == 0 then Some(l.(backup := Some(r.data)))
      else Some(l.(loaded := l.loaded + 2, cache := WithIndexes(l.cache, r.data)))
    else None
  }

  function Turns(l: Progress, rs: seq<Rep>): Option<Progress>
    decreases |rs|
  {
    if |rs| == 0 then Some(l)
    else match Turn(l, rs[0]) case None => None case Some(l') => Turns(l', rs[1..])
  }

  function Finish(l: Progress): Progress
  {
    if l.backup.None? then l
    else Progress(l.loaded + 2, None, WithIndexes(l.cache, l.backup.value))
  }

  lemma {:induction false} TurnsSnoc(l: Progress, rs: seq<Rep>, r: Rep)
    ensures Turns(l, rs + [r]) == match Turns(l, rs) case None => None case Some(m) => Turn(m, r)
    decreases |rs|
  {
    hide Turn;
    if |rs| == 0 {
      assert rs + [r] == [r] && [r][1..] == [];
    } else {
      assert (rs + [r])[1..] == rs[1..] + [r];
      if Turn(l, rs[0]).Some? { TurnsSnoc(Turn(l, rs[0]).value, rs[1..], r); }
    }
  }

  /** What the loop reads off a reply frame; a reply without data has none. */
  function RepOf(frame: bytes): Rep
    requires C.FrameOk(frame)
  {
    var payload, f := frame[R.PREFIX..], C.FieldsOf(frame);
    R.DataInside(payload);
    Rep(f.sync, f.error.Some?, if f.data.Some? then payload[f.data.value.lo..f.data.value.hi] else [])
  }

  /** What this is, read off the maps of the reply. */
  lemma RepMeans(frame: bytes)
    requires C.FrameOk(frame)
    ensures var payload, r := frame[R.PREFIX..], RepOf(frame);
            && R.WellFormed(payload) && r.sync == R.NumberAt(Parse(payload).v.flat, SYNC)
            && (r.failed <==> R.HasBody(payload) && Lookup(Parse(payload[Parse(payload).len..]).v.flat, ERROR).Some?)
            && (r.data != [] <==> R.HasBody(payload) && Lookup(Parse(payload[Parse(payload).len..]).v.flat, DATA).Some?)
            && (r.data != [] ==> Exact(r.data, Lookup(Parse(payload[Parse(payload).len..]).v.flat, DATA).value))
  {
    hide R.SpecPayload, R.HeaderMap, R.BodyMap, R.NumberAt, R.FrameOf, Parse, Lookup;
    var payload := frame[R.PREFIX..];
    R.PayloadMeaning(payload);
    R.DataInside(payload);
    NothingExact();
  }

  lemma NothingExact()
    ensures forall v :: !Exact([], v)
  {
  }

  function Reps(frames: seq<bytes>): (rs: seq<Rep>)
    requires C.AllOk(frames)
    ensures |rs| == |frames|
  {
    seq(|frames|, i requires 0 <= i < |frames| => RepOf(frames[i]))
  }

  /** Complete replies that answer n requests: n of them final, the last one among these, each with rows the
      schema decoders can read. */
  ghost predicate Answers(frames: seq<bytes>, n: nat): (b: bool)
    ensures b ==> C.AllOk(frames)
  {
    && AllShaped(frames) && C.Finals(frames) == n
    && (|frames| > 0 ==> C.IsFinal(C.FieldsOf(frames[|frames| - 1])))
  }

  /** One turn of the reply loop: the `switch` on the sync. */
  method TakeReply(schema: S.Schema, r: Rep, sloaded: nat, backup: Option<bytes>)
    returns (ok: bool, sloaded': nat, backup': Option<bytes>)
    requires S.Bounded(schema.State()) && Shaped(r)
    modifies schema
    ensures S.Bounded(schema.State())
    ensures var t := Turn(Progress(sloaded, backup, old(schema.State())), r);
            if ok then t == Some(Progress(sloaded', backup', schema.State())) else t.None?
    ensures ok && backup'.Some? ==> backup' == backup || (backup' == Some(r.data) && S.AllShaped(r.data, false))
  {
    hide S.Bounded, S.PutSpaces, S.PutIndexes, S.AllShaped, Parse;
    sloaded', backup' := sloaded, backup;
    if r.sync == SPACES_SYNC {
      if r.failed { return false, sloaded, backup; }
      var rc := schema.AddSpaces(r.data);
      sloaded' := sloaded + 1;
    } else if r.sync == INDEXES_SYNC {
      if r.failed { return false, sloaded, backup; }
      if sloaded % 2 == 0 {
        backup' := Some(r.data);
      } else {
        sloaded' := sloaded + 2;
        var rc := schema.AddIndexes(r.data);
      }
    } else {
      return false, sloaded, backup;
    }
    ok := true;
  }

  /** The reply loop and its end, on a connection where as many requests are counted as final replies are on
      their way. The result is that of the replies looked at; unless the transport fails or a reply ends
      the reload, these are all of them. */
  method ReplyLoop(schema: S.Schema, it: C.ReplyIter, ghost frames: seq<bytes>, ghost rest: bytes)
    returns (rc: int, ghost seen: nat)
    requires it.conn.net.Valid() && !it.failed && it.conn.net.Pending() == Concat(frames) + rest
    requires Answers(frames, it.conn.wrcnt) && S.Bounded(schema.State())
    modifies schema, it, it.conn, it.conn.net`rOff, it.conn.net`rTop, it.conn.net`error, it.conn.net.wire`incoming,
             it.conn.net.rbuf
    ensures it.conn.net.Valid() && seen <= |frames|
    ensures Concluded(old(schema.State()), Reps(frames[..seen]), rc, schema.State())
    ensures !it.failed && Turns(Progress(0, None, old(schema.State())), Reps(frames[..seen])).Some? ==>
              seen == |frames| && it.conn.wrcnt == 0 && it.conn.net.Pending() == rest
  {
    hide S.Bounded, S.AllShaped, Turn, Turns, Shaped, C.Standing;
    hide R.SpecPayload, T.Net.Pending, C.FrameOk, C.IsFinal, Concat, RepOf;
    var backup: Option<bytes>, sloaded := None, 0;
    ghost var start := Progress(0, None, schema.State());
    ghost var left := frames;
    seen := 0;
    TurnsNone(start);
    var more := C.NextOf(it, left, rest);
    while more
      invariant it.conn.net.Valid() && fresh(it.reply) && seen <= |frames| && left == frames[seen..]
      invariant S.Bounded(schema.State()) && (backup.Some? ==> S.AllShaped(backup.value, false))
      invariant Turns(start, Reps(frames[..seen])) == Some(Progress(sloaded, backup, schema.State()))
      invariant more ==> C.Standing(it, left, rest)
      invariant !more && !it.failed ==> left == [] && it.conn.wrcnt == 0 && it.conn.net.Pending() == rest
      decreases |left|, more
    {
      C.StandingMeans(it, left, rest);
      var r := ReadRep(it.reply, left[0]);
      assert left[0] == frames[seen] && Shaped(RepOf(frames[seen]));
      RepsSnoc(frames, seen);
      TurnsSnoc(start, Reps(frames[..seen]), r);
      seen := seen + 1;
      var ok;
      ok, sloaded, backup := TakeReply(schema, r, sloaded, backup);
      if !ok { return -1, seen; }
      left := left[1..];
      more := C.NextOf(it, left, rest);
    }
    rc := Conclude(schema, sloaded, backup);
  }

  lemma RepsSnoc(frames: seq<bytes>, i: nat)
    requires C.AllOk(frames) && i < |frames|
    ensures Reps(frames[..i + 1]) == Reps(frames[..i]) + [RepOf(frames[i])]
  {
    hide C.FrameOk, RepOf;
  }

  lemma TurnsNone(l: Progress)
    ensures Turns(l, []) == Some(l)
  {
  }

  /** What the loop reads from the reply of the iterator. */
  method ReadRep(reply: R.Reply, ghost frame: bytes) returns (r: Rep)
    requires C.FrameOk(frame) && reply.f == C.FieldsOf(frame) && reply.buf == Some(frame[R.PREFIX..])
    ensures r == RepOf(frame)
  {
    hide R.SpecPayload;
    ghost var payload := frame[R.PREFIX..];
    R.DataInside(payload);
    var f := reply.f;
    return Rep(f.sync, f.error.Some?, if f.data.Some? then reply.buf.value[f.data.value.lo..f.data.value.hi] else []);
  }

  /** After the loop: a saved index reply is applied, and both parts have to be loaded. */
  method Conclude(schema: S.Schema, sloaded: nat, backup: Option<bytes>) returns (rc: int)
    requires S.Bounded(schema.State()) && (backup.Some? ==> S.AllShaped(backup.value, false))
    modifies schema
    ensures var e := Finish(Progress(sloaded, backup, old(schema.State())));
            rc == (if e.loaded == 3 then 0 else -1) && schema.State() == e.cache
  {
    hide S.Bounded, S.PutIndexes, S.AllShaped, Parse;
    var loaded := sloaded;
    if backup.Some? {
      var ok := schema.AddIndexes(backup.value);
      loaded := sloaded + 2;
    }
    if loaded != 3 { return -1; }
    return 0;
  }

  // ---------------------------------------------------------------- the whole call

  // System spaces and the index the selects use.
  const VSPACE: u32 := 281
  const VINDEX: u32 := 289
  const BY_NAME: u32 := 2
  const ITER_ALL: byte := 2

  /** The select for all rows of a system space, as it goes out. */
  function AllRows(space: u32, sync: u64): bytes
  {
    Packet(OP_SELECT, sync, O.SelectPairs(space, BY_NAME, 0xffff_ffff, 0, ITER_ALL, EncHead(KArray, 0)))
  }

  /** What the server reads: all entries of the view, by index 2, with an iterator over everything and an empty
      key. */
  lemma {:induction false} AllRowsRead(space: u32, sync: u64)
    ensures FrameReads(AllRows(space, sync), HeaderValue(OP_SELECT, sync),
                       Map([UInt(0x10), UInt(space), UInt(0x11), UInt(2), UInt(0x12), UInt(0xffff_ffff),
                            UInt(0x13), UInt(0), UInt(0x14), UInt(2), UInt(0x20), Array([])]))
  {
    hide FrameReads, HeaderValue, Packet, EncHead, EncUint, Flat, Exact, PairsBytes;
    var ps := O.SelectPairs(space, BY_NAME, 0xffff_ffff, 0, ITER_ALL, EncHead(KArray, 0));
    var vs := [UInt(space), UInt(2), UInt(0xffff_ffff), UInt(0), UInt(2), Array([])];
    RowsExact(space);
    assert PairsExact(ps, vs);
    PairsLength(ps, 6);
    P.PacketSize(OP_SELECT, sync, ps);
    PacketReads(OP_SELECT, sync, ps, vs);
    SixFlat(ps, vs);
  }

  lemma SixFlat(ps: seq<Pair>, vs: seq<Value>)
    requires |ps| == |vs| == 6
    ensures Flat(ps, vs) == [UInt(ps[0].key), vs[0], UInt(ps[1].key), vs[1], UInt(ps[2].key), vs[2],
                             UInt(ps[3].key), vs[3], UInt(ps[4].key), vs[4], UInt(ps[5].key), vs[5]]
  {
    hide Flat;
    FlatAt(ps, vs, 0);
    FlatAt(ps, vs, 1);
    FlatAt(ps, vs, 2);
    FlatAt(ps, vs, 3);
    FlatAt(ps, vs, 4);
    FlatAt(ps, vs, 5);
  }

  lemma RowsExact(space: u32)
    ensures forall n: u32 :: Exact(EncUint(n), UInt(n))
    ensures Exact(EncHead(KArray, 0), Array([]))
  {
    hide Exact, EncHead;
    forall n: u32 ensures Exact(EncUint(n), UInt(n)) { EncodeExact(Packed, UInt(n)); }
    EncodeExact(Packed, Array([]));
    assert EncodeAll(Packed, []) == [];
    assert EncHead(KArray, 0) + [] == EncHead(KArray, 0);
  }

  /** A few short entries make a short body. */
  lemma {:induction false} PairsLength(ps: seq<Pair>, k: nat)
    requires |ps| == k && forall i :: 0 <= i < |ps| ==> |ps[i].raw| <= 9
    ensures |PairsBytes(ps)| <= 18 * k
  {
    hide EncUint;
    if k > 0 { PairsLength(ps[1..], k - 1); }
  }

  /** `struct tnt_stream` over the network, with its schema. */
  class NetStream {
    const conn: C.Conn
    const schema: S.Schema
    var reqid: u64
    var connected: bool

    constructor (conn: C.Conn, schema: S.Schema)
      ensures this.conn == conn && this.schema == schema && reqid == 0 && !connected
    {
      this.conn, this.schema := conn, schema;
      reqid, connected := 0, false;
    }

    /** `tnt_stream_reqid`: request counters go through 32 bits in both directions. */
    method SetReqid(n: nat) returns (was: u32)
      modifies `reqid
      ensures reqid == n % TWO32 && was == old(reqid) % TWO32
    {
      was := reqid % TWO32;
      reqid := n % TWO32;
    }

    /** `tnt_get_space` and `tnt_get_index` */
    method GetRows(space: u32) returns (rv: int)
      requires conn.net.Valid()
      modifies `reqid, conn, conn.net, conn.net.wire`sent, conn.net.sbuf
      ensures conn.net.Valid() && conn.net.Pending() == old(conn.net.Pending()) && reqid == Q.NextReqid(old(reqid))
      ensures rv != -1 ==>
                && conn.wrcnt == (old(conn.wrcnt) + 1) % TWO32
                && conn.net.accepted == old(conn.net.accepted) + [AllRows(space, old(reqid))]
      ensures rv == -1 ==> conn.wrcnt == old(conn.wrcnt) && conn.net.accepted == old(conn.net.accepted)
    {
      hide AllRows, T.Net.Pending, T.Net.Ordered, Concat;
      var sync := reqid;
      reqid := Q.NextReqid(reqid);
      var iov := SelectAll(space, sync);
      rv := conn.Writev(iov);
    }

    /** The requests of a reload: two selects under fixed syncs, then the old counter, then a flush. A select
        that cannot be sent is not counted, and nothing else changes. */
    method Ask() returns (ghost spaces: bool, ghost indexes: bool)
      requires conn.net.Valid() && conn.wrcnt == 0
      modifies `reqid, conn, conn.net, conn.net.wire`sent, conn.net.sbuf
      ensures conn.net.Valid() && conn.net.Pending() == old(conn.net.Pending())
      ensures conn.wrcnt == |Asked(spaces, indexes)| && reqid == old(reqid) % TWO32
      ensures conn.net.accepted == old(conn.net.accepted) + Asked(spaces, indexes)
    {
      hide T.Net.Pending, T.Net.Ordered, AllRows;
      var oldsync := SetReqid(SPACES_SYNC);
      var rv := GetRows(VSPACE);
      spaces := rv != -1;
      rv := GetRows(VINDEX);
      indexes := rv != -1;
      var was := SetReqid(oldsync);
      rv := conn.net.Flush();
    }

    /** `tnt_reload_schema`. `frames` are complete replies with two final ones among them. The selects go out
        under syncs 127 and 128 (`spaces` and `indexes` say which could be sent), and the request counter
        comes back cut to 32 bits. The result and the cache are those of the replies looked at: unless the
        transport fails or one of them ends the reload, all up to the last final one of a select sent. */
    method Reload(ghost frames: seq<bytes>, ghost rest: bytes)
      returns (rc: int, ghost spaces: bool, ghost indexes: bool, ghost seen: nat, ghost failed: bool)
      requires conn.net.Valid() && conn.net.Pending() == Concat(frames) + rest
      requires Answers(frames, 2) && S.Bounded(schema.State())
      modifies `reqid, schema, conn, conn.net, conn.net.wire, conn.net.sbuf, conn.net.rbuf
      ensures conn.net.Valid()
      ensures !old(connected) || old(conn.wrcnt) != 0 ==>
                rc == -1 && reqid == old(reqid) && schema.State() == old(schema.State())
                && conn.net.Pending() == old(conn.net.Pending()) && conn.net.accepted == old(conn.net.accepted)
      ensures old(connected) && old(conn.wrcnt) == 0 ==>
                && conn.net.accepted == old(conn.net.accepted) + Asked(spaces, indexes)
                && reqid == old(reqid) % TWO32 && seen <= |frames|
                && Concluded(old(schema.State()), Reps(frames[..seen]), rc, schema.State())
                && (!failed && Turns(Progress(0, None, old(schema.State())), Reps(frames[..seen])).Some? ==>
                      seen == C.FinalAt(frames, |Asked(spaces, indexes)|) && conn.wrcnt == 0
                      && conn.net.Pending() == Concat(frames[seen..]) + rest
                      && (spaces && indexes ==> seen == |frames|))
      ensures old(connected) && old(conn.wrcnt) == 0 && spaces && indexes && !failed && old(schema.State()) == S.EMPTY
              && Orderly(Reps(frames)) ==>
                rc == 0 && MirrorsReplies(schema.State(), Reps(frames))
    {
      hide S.Bounded, Parse, Turns, Finish, Concluded, Orderly, MirrorsReplies, Reps, C.AllOk;
      hide T.Net.Pending, T.Net.Ordered, Concat, RepOf, AllRows, Answers;
      spaces, indexes, seen, failed := false, false, 0, false;
      if !connected || conn.wrcnt != 0 { return -1, spaces, indexes, seen, failed; }
      spaces, indexes := Ask();
      ghost var m, later := SplitAnswers(frames, rest, |Asked(spaces, indexes)|);
      var it := new C.ReplyIter(conn);
      rc, seen := ReplyLoop(schema, it, frames[..m], later);
      assert frames[..m][..seen] == frames[..seen];
      failed := it.failed;
      if spaces && indexes && !failed { OrderlyReload(frames, seen, rc, old(schema.State()), schema.State()); }
    }
  }

  /** The requests that could be sent. */
  function Asked(spaces: bool, indexes: bool): (sent: seq<bytes>)
    ensures |sent| <= 2 && (|sent| == 2 <==> spaces && indexes)
  {
    (if spaces then [AllRows(281, 127)] else []) + (if indexes then [AllRows(289, 128)] else [])
  }

  ghost predicate AllShaped(frames: seq<bytes>): (b: bool)
    ensures b ==> C.AllOk(frames)
  {
    C.AllOk(frames) && forall i :: 0 <= i < |frames| ==> Shaped(RepOf(frames[i]))
  }

  lemma PrefixShaped(frames: seq<bytes>, m: nat)
    requires AllShaped(frames) && m <= |frames|
    ensures AllShaped(frames[..m])
  {
    hide C.FrameOk, RepOf, Shaped;
  }

  /** The replies up to the k-th final one answer k requests. */
  lemma AnswersTo(frames: seq<bytes>, k: nat)
    requires Answers(frames, 2) && k <= 2
    ensures C.Finals(frames) == 2 && Answers(frames[..C.FinalAt(frames, k)], k)
    ensures k == 2 ==> C.FinalAt(frames, k) == |frames|
  {
    hide C.FrameOk, C.IsFinal, C.Finals, C.FinalAt, C.FieldsOf, R.SpecPayload, AllShaped;
    var m := C.FinalAt(frames, k);
    PrefixShaped(frames, m);
    C.FinalAtMeans(frames, k);
    if k == 2 { C.FinalAtAll(frames); }
    if m > 0 { assert frames[..m][m - 1] == frames[m - 1]; }
  }

  lemma SplitConcat(frames: seq<bytes>, m: nat, rest: bytes)
    requires m <= |frames|
    ensures Concat(frames) + rest == Concat(frames[..m]) + (Concat(frames[m..]) + rest)
  {
    hide Concat;
    assert frames == frames[..m] + frames[m..];
    ConcatAppend(frames[..m], frames[m..]);
    Assoc(Concat(frames[..m]), Concat(frames[m..]), rest);
  }

  lemma SplitAnswers(frames: seq<bytes>, rest: bytes, k: nat) returns (m: nat, later: bytes)
    requires Answers(frames, 2) && k <= 2
    ensures C.Finals(frames) == 2 && m == C.FinalAt(frames, k) <= |frames| && Answers(frames[..m], k)
    ensures later == Concat(frames[m..]) + rest && Concat(frames) + rest == Concat(frames[..m]) + later
    ensures k == 2 ==> m == |frames|
  {
    hide Concat, Answers, C.FinalAt, C.Finals;
    AnswersTo(frames, k);
    m := C.FinalAt(frames, k);
    later := Concat(frames[m..]) + rest;
    SplitConcat(frames, m, rest);
  }

  /** The vector of a select for all rows; the key is an empty array. */
  method SelectAll(space: u32, sync: u64) returns (iov: array<bytes>)
    ensures fresh(iov) && Concat(iov[..]) == AllRows(space, sync)
  {
    hide EncHead, Body, HeaderBytes, Concat;
    var obj := new Stream();
    var n, junk := obj.AddContainer(KArray, 0);
    var key := obj.data[..obj.size];
    assert key == EncHead(KArray, 0) by { KeyIs(obj, junk); }
    var piece := O.SelectPiece(space, BY_NAME, 0xffff_ffff, 0, ITER_ALL, key);
    var v := O.Vector(OP_SELECT, sync, [piece, key]);
    iov := new bytes[|v|](i requires 0 <= i < |v| => v[i]);
    assert iov[..] == v;
  }

  lemma KeyIs(obj: Stream, junk: seq<Frame>)
    requires obj.Valid() && |junk| >= MAX_STACK
    requires Builder.AddContainer(Fresh(Simple), KArray, 0, junk) == Some(obj.State())
    ensures obj.data[..obj.size] == EncHead(KArray, 0)
  {
    hide EncHead;
    assert [] + EncHead(KArray, 0) == EncHead(KArray, 0);
  }

  /** What a reload that has looked at these replies returns and leaves in the cache. */
  predicate Concluded(c: S.Cache, rs: seq<Rep>, rc: int, c': S.Cache): (b: bool)
    ensures b ==> (rc == 0 <==> Succeeds(c, rs))
  {
    var l := Turns(Progress(0, None, c), rs);
    if l.None? then rc == -1
    else rc == (if Finish(l.value).loaded == 3 then 0 else -1) && c' == Finish(l.value).cache
  }

  /** Whether a reload that has looked at these replies succeeds. */
  predicate Succeeds(c: S.Cache, rs: seq<Rep>)
  {
    var l := Turns(Progress(0, None, c), rs);
    l.Some? && Finish(l.value).loaded == 3
  }

  predicate Clean(rs: seq<Rep>)
  {
    forall i :: 0 <= i < |rs| ==> !rs[i].failed && (rs[i].sync == SPACES_SYNC || rs[i].sync == INDEXES_SYNC)
  }

  function SpaceReplies(rs: seq<Rep>): nat
  {
    if |rs| == 0 then 0 else (if rs[0].sync == SPACES_SYNC then 1 else 0) + SpaceReplies(rs[1..])
  }

  /** Index replies that arrive after an odd number of space replies (`odd` of them were seen before). */
  function Late(rs: seq<Rep>, odd: bool): nat
  {
    if |rs| == 0 then 0
    else if rs[0].sync == SPACES_SYNC then Late(rs[1..], !odd)
    else (if odd then 1 else 0) + Late(rs[1..], odd)
  }

  /** Whether an index reply arrives after an even number of space replies. */
  predicate Early(rs: seq<Rep>, odd: bool)
  {
    |rs| > 0 && if rs[0].sync == SPACES_SYNC then Early(rs[1..], !odd) else !odd || Early(rs[1..], odd)
  }

  lemma {:induction false} TurnsCount(l: Progress, rs: seq<Rep>)
    ensures Turns(l, rs).Some? <==> Clean(rs)
    ensures Turns(l, rs).Some? ==>
              var m := Turns(l, rs).value;
              && m.loaded == l.loaded + SpaceReplies(rs) + 2 * Late(rs, l.loaded % 2 == 1)
              && (m.backup.Some? <==> l.backup.Some? || Early(rs, l.loaded % 2 == 1))
    decreases |rs|
  {
    hide WithSpaces, WithIndexes;
    if |rs| > 0 {
      var t := Turn(l, rs[0]);
      if t.Some? {
        TurnsCount(t.value, rs[1..]);
        assert Clean(rs) <==> Clean(rs[1..]) by { CleanCons(rs); }
      }
    }
  }

  lemma CleanCons(rs: seq<Rep>)
    requires |rs| > 0 && !rs[0].failed && (rs[0].sync == SPACES_SYNC || rs[0].sync == INDEXES_SYNC)
    ensures Clean(rs) <==> Clean(rs[1..])
  {
    if Clean(rs[1..]) {
      forall i | 0 <= i < |rs|
        ensures !rs[i].failed && (rs[i].sync == SPACES_SYNC || rs[i].sync == INDEXES_SYNC)
      {
        if i > 0 { assert rs[i] == rs[1..][i - 1]; }
      }
    }
  }

  /** Exactly when a reload reports success, for any number of replies: no error, no foreign sync, and either
      one space reply with the index replies of one side of it counted once, or three space replies and no
      index reply at all. `SuccessLoads` says what has been loaded then. */
  lemma {:induction false} SuccessExactly(c: S.Cache, rs: seq<Rep>)
    ensures Succeeds(c, rs) <==>
              && Clean(rs)
              && (|| (SpaceReplies(rs) == 1 && Late(rs, false) + (if Early(rs, false) then 1 else 0) == 1)
                  || (SpaceReplies(rs) == 3 && Late(rs, false) == 0 && !Early(rs, false)))
  {
    TurnsCount(Progress(0, None, c), rs);
  }

  // ---------------------------------------------------------------- what an accepted reload has loaded

  /** The data of the space replies, of the index replies applied at once, and of those put aside. */
  function SpaceData(rs: seq<Rep>): (ds: seq<bytes>)
    ensures |ds| == SpaceReplies(rs)
  {
    if |rs| == 0 then [] else (if rs[0].sync == SPACES_SYNC then [rs[0].data] else []) + SpaceData(rs[1..])
  }

  function LateData(rs: seq<Rep>, odd: bool): (ds: seq<bytes>)
    ensures |ds| == Late(rs, odd)
  {
    if |rs| == 0 then []
    else if rs[0].sync == SPACES_SYNC then LateData(rs[1..], !odd)
    else (if odd then [rs[0].data] else []) + LateData(rs[1..], odd)
  }

  function EarlyData(rs: seq<Rep>, odd: bool): (ds: seq<bytes>)
    ensures |ds| > 0 <==> Early(rs, odd)
  {
    if |rs| == 0 then []
    else if rs[0].sync == SPACES_SYNC then EarlyData(rs[1..], !odd)
    else (if odd then [] else [rs[0].data]) + EarlyData(rs[1..], odd)
  }

  /** Several space replies, one after another. */
  function WithAllSpaces(c: S.Cache, ds: seq<bytes>): S.Cache
    decreases |ds|
  {
    if |ds| == 0 then c else WithAllSpaces(WithSpaces(c, ds[0]), ds[1..])
  }

  /** What replies without an index reply to be applied at once leave: the space replies in the cache, and the
      last index reply put aside. */
  lemma {:induction false} TurnsEarly(l: Progress, rs: seq<Rep>)
    requires Turns(l, rs).Some? && Late(rs, l.loaded % 2 == 1) == 0
    ensures var m, early := Turns(l, rs).value, EarlyData(rs, l.loaded % 2 == 1);
            && m.cache == WithAllSpaces(l.cache, SpaceData(rs))
            && m.backup == if |early| > 0 then Some(Last(early)) else l.backup
    decreases |rs|
  {
    hide WithSpaces, WithIndexes;
    if |rs| > 0 {
      var odd, l' := l.loaded % 2 == 1, Turn(l, rs[0]).value;
      TurnsEarly(l', rs[1..]);
      if rs[0].sync == SPACES_SYNC {
        assert SpaceData(rs)[0] == rs[0].data && SpaceData(rs)[1..] == SpaceData(rs[1..]);
      } else {
        assert SpaceData(rs) == SpaceData(rs[1..]);
        assert EarlyData(rs, odd) == [rs[0].data] + EarlyData(rs[1..], odd);
      }
    }
  }

  /** One index reply and no space reply, after an odd number of them. */
  lemma TurnsLate(l: Progress, rs: seq<Rep>)
    requires Turns(l, rs).Some? && l.loaded % 2 == 1 && SpaceReplies(rs) == 0 && Late(rs, true) == 1
    ensures Turns(l, rs).value.cache == WithIndexes(l.cache, LateData(rs, true)[0])
  {
    hide WithSpaces, WithIndexes;
    NoMore(rs[1..]);
    assert Turns(Turn(l, rs[0]).value, []) == Turn(l, rs[0]);
    assert LateData(rs, true) == [rs[0].data] + LateData([], true);
  }

  lemma {:induction false} NoMore(rs: seq<Rep>)
    requires SpaceReplies(rs) == 0 && Late(rs, true) == 0
    ensures rs == []
  {
  }

  /** One space reply and then one index reply, nothing put aside. */
  lemma TurnsBoth(l: Progress, rs: seq<Rep>)
    requires Turns(l, rs).Some? && l.loaded % 2 == 0 && SpaceReplies(rs) == 1 && Late(rs, false) == 1 && !Early(rs, false)
    ensures Turns(l, rs).value.cache == WithIndexes(WithSpaces(l.cache, SpaceData(rs)[0]), LateData(rs, false)[0])
    ensures Turns(l, rs).value.backup == l.backup
  {
    hide WithSpaces, WithIndexes;
    TurnsLate(Turn(l, rs[0]).value, rs[1..]);
    TurnsCount(Turn(l, rs[0]).value, rs[1..]);
    TurnsKeep(Turn(l, rs[0]).value, rs[1..]);
    assert SpaceData(rs)[0] == rs[0].data;
  }

  lemma {:induction false} TurnsKeep(l: Progress, rs: seq<Rep>)
    requires Turns(l, rs).Some? && l.loaded % 2 == 1 && SpaceReplies(rs) == 0
    ensures Turns(l, rs).value.backup == l.backup
    decreases |rs|
  {
    hide WithSpaces, WithIndexes;
    if |rs| > 0 { TurnsKeep(Turn(l, rs[0]).value, rs[1..]); }
  }

  /** What a reload that reports success has loaded. After one space reply: its rows and those of one index
      reply, the one that came after it or else the last of those before it. After three space replies:
      their rows and no index at all. */
  lemma {:induction false} SuccessLoads(c: S.Cache, rs: seq<Rep>)
    requires Succeeds(c, rs)
    ensures var e, spaces, late, early := Loaded(c, rs), SpaceData(rs), LateData(rs, false), EarlyData(rs, false);
            || (|spaces| == 3 && |late| == 0 && |early| == 0 && e == WithAllSpaces(c, spaces))
            || (|spaces| == 1 && |late| == 1 && |early| == 0 && e == WithIndexes(WithSpaces(c, spaces[0]), late[0]))
            || (|spaces| == 1 && |late| == 0 && |early| > 0 && e == WithIndexes(WithSpaces(c, spaces[0]), Last(early)))
  {
    hide WithSpaces, WithIndexes;
    var l := Progress(0, None, c);
    SuccessExactly(c, rs);
    if Late(rs, false) == 0 {
      TurnsEarly(l, rs);
      if SpaceReplies(rs) == 1 { assert SpaceData(rs)[1..] == []; }
    } else {
      TurnsBoth(l, rs);
    }
  }

  /** The cache a reload leaves. */
  function Loaded(c: S.Cache, rs: seq<Rep>): S.Cache
    requires Turns(Progress(0, None, c), rs).Some?
  {
    Finish(Turns(Progress(0, None, c), rs).value).cache
  }

  /** Success without all the rows: of two index replies before the space reply the first is lost. */
  lemma FirstIndexesLost(c: S.Cache, i: Rep, j: Rep, s: Rep)
    requires i.sync == j.sync == INDEXES_SYNC && s.sync == SPACES_SYNC && !i.failed && !j.failed && !s.failed
    ensures Succeeds(c, [i, j, s]) && Loaded(c, [i, j, s]) == WithIndexes(WithSpaces(c, s.data), j.data)
  {
    hide WithSpaces, WithIndexes;
    var l := Progress(0, None, c);
    TurnsThree(l, i, j, s);
  }

  /** Success without any index: three space replies. */
  lemma NoIndexesAtAll(c: S.Cache, r: Rep, s: Rep, t: Rep)
    requires r.sync == s.sync == t.sync == SPACES_SYNC && !r.failed && !s.failed && !t.failed
    ensures Succeeds(c, [r, s, t])
    ensures Loaded(c, [r, s, t]) == WithSpaces(WithSpaces(WithSpaces(c, r.data), s.data), t.data)
  {
    hide WithSpaces, WithIndexes;
    TurnsThree(Progress(0, None, c), r, s, t);
  }

  lemma TurnsThree(l: Progress, a: Rep, b: Rep, d: Rep)
    requires Turn(l, a).Some? && Turn(Turn(l, a).value, b).Some?
    ensures Turns(l, [a, b, d]) == Turn(Turn(Turn(l, a).value, b).value, d)
  {
    hide Turn;
    assert [a, b, d][1..] == [b, d] && [b, d][1..] == [d] && [d][1..] == [];
    var m := Turn(Turn(l, a).value, b).value;
    assert Turns(m, [d]) == match Turn(m, d) case None => None case Some(n) => Some(n);
    assert Turns(l, [a, b, d]) == Turns(Turn(l, a).value, [b, d]);
  }

  // ---------------------------------------------------------------- what an orderly reload leaves

  /** The rows a reply carries. */
  function RowsOf(r: Rep): seq<Value>
    requires S.IsRows(r.data)
  {
    Parse(r.data).v.items
  }

  /** The space reply and the index reply among two. */
  function SpacesOf(rs: seq<Rep>): Rep
    requires |rs| == 2
  {
    if rs[0].sync == SPACES_SYNC then rs[0] else rs[1]
  }

  function IndexesOf(rs: seq<Rep>): Rep
    requires |rs| == 2
  {
    if rs[0].sync == SPACES_SYNC then rs[1] else rs[0]
  }

  /** One error-free reply of each kind, in either order, with rows that can be loaded. */
  predicate Orderly(rs: seq<Rep>)
  {
    && |rs| == 2 && !rs[0].failed && !rs[1].failed
    && SpacesOf(rs).sync == SPACES_SYNC && IndexesOf(rs).sync == INDEXES_SYNC
    && S.IsRows(SpacesOf(rs).data) && S.IsRows(IndexesOf(rs).data)
    && S.Loadable(RowsOf(SpacesOf(rs)), RowsOf(IndexesOf(rs)))
  }

  /** The cache is exactly what the two replies say. */
  predicate MirrorsReplies(c: S.Cache, rs: seq<Rep>)
    requires Orderly(rs)
  {
    S.Mirrors(c, RowsOf(SpacesOf(rs)), RowsOf(IndexesOf(rs)))
  }

  /** Into an empty cache such replies load exactly their tuples, in either order. */
  lemma {:induction false} OrderlyLoads(rs: seq<Rep>)
    requires Orderly(rs)
    ensures Succeeds(S.EMPTY, rs) && MirrorsReplies(Loaded(S.EMPTY, rs), rs)
  {
    hide S.Loadable, S.Mirrors, Turns, Parse;
    assert rs == [rs[0], rs[1]];
    TwoReplies(S.EMPTY, rs[0], rs[1]);
    S.LoadAgrees(RowsOf(SpacesOf(rs)), RowsOf(IndexesOf(rs)));
  }

  /** So does a reload that has looked at all it was sent. */
  lemma OrderlyReload(frames: seq<bytes>, seen: nat, rc: int, was: S.Cache, c: S.Cache)
    requires C.AllOk(frames) && seen <= |frames| && Concluded(was, Reps(frames[..seen]), rc, c)
    requires Turns(Progress(0, None, was), Reps(frames[..seen])).Some? ==> seen == |frames|
    ensures was == S.EMPTY && Orderly(Reps(frames)) ==> rc == 0 && MirrorsReplies(c, Reps(frames))
  {
    hide MirrorsReplies, Turns, S.IsRows, S.Loadable, WithSpaces, WithIndexes, RepOf, C.FrameOk;
    if was == S.EMPTY && Orderly(Reps(frames)) {
      TurnsCount(Progress(0, None, was), Reps(frames[..seen]));
      assert Reps(frames[..seen]) == Reps(frames)[..seen];
      assert frames[..|frames|] == frames;
      OrderlyLoads(Reps(frames));
    }
  }

  /** The results of the loaders are not looked at: replies that carry no rows at all make a reload succeed that
      loads nothing. */
  lemma NoRowsAtAll(c: S.Cache, s: Rep, i: Rep)
    requires s.sync == SPACES_SYNC && i.sync == INDEXES_SYNC && !s.failed && !i.failed
    requires !S.IsRows(s.data) && !S.IsRows(i.data)
    ensures Succeeds(c, [s, i]) && Loaded(c, [s, i]) == c
  {
    hide S.IsRows, Turns;
    TwoReplies(c, s, i);
  }

  /** One reply is never enough, so a reload that could not send both selects fails unless the server answers
      one of them with chunks. */
  lemma OneReplyFails(c: S.Cache, rs: seq<Rep>)
    requires |rs| <= 1
    ensures !Succeeds(c, rs)
  {
    hide WithSpaces, WithIndexes;
    SuccessExactly(c, rs);
  }

  /** With one reply to each of the two requests: success exactly when one error-free reply for each sync
      arrived, in either order, and both orders leave the same cache: indexes are applied after spaces. */
  lemma {:induction false} TwoReplies(c: S.Cache, a: Rep, b: Rep)
    ensures Succeeds(c, [a, b]) <==>
              !a.failed && !b.failed && ((a.sync == SPACES_SYNC && b.sync == INDEXES_SYNC) || (a.sync == INDEXES_SYNC && b.sync == SPACES_SYNC))
    ensures Succeeds(c, [a, b]) ==>
              var (s, i) := if a.sync == SPACES_SYNC then (a, b) else (b, a);
              Finish(Turns(Progress(0, None, c), [a, b]).value).cache == WithIndexes(WithSpaces(c, s.data), i.data)
  {
    hide WithSpaces, WithIndexes;
    var l := Progress(0, None, c);
    assert [a, b][1..] == [b];
    var t := Turn(l, a);
    if t.Some? {
      assert [b][1..] == [];
      assert Turns(t.value, [b]) == match Turn(t.value, b) case None => None case Some(m) => Some(m);
    }
  }
}
