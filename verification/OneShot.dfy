/** The one-shot encoders: `tnt_select`, `tnt_insert`, `tnt_replace`, `tnt_delete`, `tnt_update`,
    `tnt_upsert`, `tnt_call`, `tnt_call_16`, `tnt_eval` and `tnt_ping`. Each builds its body in a local
    64-byte buffer and sends it with the caller's objects in between. */
module OneShot {
  import opened Seqs
  import opened MsgPack
  import opened Wrappers
  import opened Builder
  import opened ObjectStream
  import opened Protocol
  import opened Requests

  // ---------------------------------------------------------------- what they send

  function StorePairs(space: u32, tuple: bytes): seq<Pair>
  {
    [Pair(SPACE, EncUint(space))] + [Pair(TUPLE, tuple)]
  }

  function SelectPairs(space: u32, index: u32, limit: u32, offset: u32, iter: byte, key: bytes): seq<Pair>
  {
    [Pair(SPACE, EncUint(space))] + [Pair(INDEX, EncUint(index))] + [Pair(LIMIT, EncUint(limit))]
    + [Pair(OFFSET, EncUint(offset))] + [Pair(ITERATOR, EncUint(iter))] + [Pair(KEY, key)]
  }

  function DeletePairs(space: u32, index: u32, key: bytes): seq<Pair>
  {
    [Pair(SPACE, EncUint(space))] + [Pair(INDEX, EncUint(index))] + [Pair(KEY, key)]
  }

  function UpdatePairs(space: u32, index: u32, key: bytes, ops: bytes): seq<Pair>
  {
    [Pair(SPACE, EncUint(space))] + [Pair(INDEX, EncUint(index))] + [Pair(KEY, key)] + [Pair(TUPLE, ops)]
  }

  function UpsertPairs(space: u32, tuple: bytes, ops: bytes): seq<Pair>
  {
    [Pair(SPACE, EncUint(space))] + [Pair(TUPLE, tuple)] + [Pair(OPS, ops)]
  }

  function RpcPairs(op: u32, proc: bytes, args: bytes): seq<Pair>
  {
    var fld := if op == OP_CALL || op == OP_CALL_16 then FUNCTION else EXPRESSION;
    [Pair(fld, EncHead(KStr, Wrap32(|proc|)) + proc)] + [Pair(TUPLE, args)]
  }

  // ---------------------------------------------------------------- the local body buffer

  const BODY_SIZE: nat := 64

  /** The local buffer with its cursor `data` and the start of the part not yet in the vector. */
  class BodyBuffer {
    const body: array<byte>
    var data: nat
    var start: nat

    constructor ()
      ensures Valid() && fresh(body) && data == start == 0
    {
      body := new byte[BODY_SIZE];
      data, start := 0, 0;
    }

    ghost predicate Valid()
      reads this
    {
      body.Length == BODY_SIZE && start <= data <= BODY_SIZE
    }

    ghost function Pending(): bytes
      requires Valid()
      reads this, body
    {
      body[start..data]
    }

    method Put(s: bytes)
      requires Valid() && data + |s| <= BODY_SIZE
      modifies this, body
      ensures Valid() && data == old(data) + |s| && start == old(start)
      ensures Pending() == old(Pending()) + s
    {
      forall i | 0 <= i < |s| { body[data + i] := s[i]; }
      data := data + |s|;
    }

    method Field(key: byte, n: u32)
      requires Valid() && key < 0x80 && data + 6 <= BODY_SIZE
      modifies this, body
      ensures Valid() && old(data) <= data <= old(data) + 6 && start == old(start)
      ensures Pending() == old(Pending()) + PairBytes(Pair(key, EncUint(n)))
    {
      hide EncUint;
      ghost var before := Pending();
      Put(EncUint(key));
      Put(EncUint(n));
      Assoc(before, EncUint(key), EncUint(n));
    }

    /** A piece for the vector; the next piece starts where it ends. */
    method Take() returns (piece: bytes)
      requires Valid()
      modifies this
      ensures Valid() && piece == old(Pending()) && Pending() == [] && data == old(data)
    {
      piece := body[start..data];
      start := data;
    }
  }

  /** The vector every encoder hands to `writev`: header and pieces behind a length prefix. */
  method Vector(op: u32, sync: u64, iov: seq<bytes>) returns (v: seq<bytes>)
    ensures Concat(v) == Framed(HeaderBytes(op, sync) + Concat(iov)) && |v| == |iov| + 2
  {
    hide HeaderBytes, LongUint;
    var pieces := [HeaderBytes(op, sync)] + iov;
    var packageLen := TotalLength(pieces);
    var prefix := LongUint(packageLen);
    assert ([prefix] + pieces)[1..] == pieces && pieces[1..] == iov;
    return [prefix] + pieces;
  }

  /** The common end of every encoder. */
  method Send(s: Sink, op: u32, sync: u64, iov: seq<bytes>) returns (rv: int)
    modifies s
    ensures s.reqid == old(s.reqid) && s.working == old(s.working)
    ensures !s.working ==> rv == -1 && s.wire == old(s.wire)
    ensures s.working ==> rv > 0 && s.wire == old(s.wire) + Framed(HeaderBytes(op, sync) + Concat(iov))
  {
    hide HeaderBytes, LongUint;
    var v := Vector(op, sync, iov);
    rv := s.Writev(v);
  }

  /** What a call must have put on the wire. */
  twostate predicate Sent(s: Sink, op: u32, ps: seq<Pair>, rv: int)
    requires |ps| < TWO32
    reads s
  {
    && s.reqid == (old(s.reqid) + 1) % TWO64 && s.working == old(s.working)
    && (!s.working ==> rv == -1 && s.wire == old(s.wire))
    && (s.working ==> rv > 0 && s.wire == old(s.wire) + Packet(op, old(s.reqid), ps))
  }

  /** A body starts with its size and the space number. */
  method StartBody(n: nat, space: u32) returns (b: BodyBuffer)
    requires n < 0x10
    ensures fresh(b) && fresh(b.body) && b.Valid() && b.start == 0 && b.data <= 7
    ensures b.Pending() == EncHead(KMap, n) + PairsBytes([Pair(SPACE, EncUint(space))])
  {
    hide EncHead, EncUint, PairBytes;
    b := new BodyBuffer();
    SmallMap(n);
    b.Put(EncHead(KMap, n));
    b.Field(SPACE, space);
    PairsOne(Pair(SPACE, EncUint(space)));
    assert [] + EncHead(KMap, n) == EncHead(KMap, n);
  }

  /** One more number; `ps` are the entries so far. */
  method NextField(b: BodyBuffer, key: byte, n: u32, ghost hd: bytes, ghost ps: seq<Pair>)
    requires b.Valid() && key < 0x80 && b.data + 6 <= BODY_SIZE && b.Pending() == hd + PairsBytes(ps)
    modifies b, b.body
    ensures b.Valid() && old(b.data) <= b.data <= old(b.data) + 6 && b.start == old(b.start)
    ensures b.Pending() == hd + PairsBytes(ps + [Pair(key, EncUint(n))])
  {
    hide EncUint, PairBytes;
    b.Field(key, n);
    PairsSnoc(ps, Pair(key, EncUint(n)));
    Assoc(hd, PairsBytes(ps), PairBytes(Pair(key, EncUint(n))));
  }

  lemma PairsOne(p: Pair)
    ensures PairsBytes([p]) == PairBytes(p)
  {
    assert [p][1..] == [];
  }

  // ---------------------------------------------------------------- the encoders

  /** The body of a store, up to the caller's tuple. */
  method StorePiece(space: u32, ghost tuple: bytes) returns (piece: bytes)
    ensures Concat([piece, tuple]) == Body(StorePairs(space, tuple))
  {
    hide EncHead, EncUint, PairBytes, PairsBytes;
    var b := StartBody(2, space);
    b.Put(EncUint(TUPLE));
    piece := b.Take();
    OneTail(EncHead(KMap, 2), [Pair(SPACE, EncUint(space))], piece, TUPLE, tuple);
  }

  /** `tnt_store_base`: `tnt_insert` and `tnt_replace` */
  method Store(s: Sink, space: u32, tuple: bytes, op: u32) returns (rv: int)
    requires |tuple| > 0
    modifies s
    ensures !WholeArray(tuple) ==> rv == -1 && unchanged(s)
    ensures WholeArray(tuple) ==> Sent(s, op, StorePairs(space, tuple), rv)
  {
    hide Verify, WholeArray, HeaderBytes, Body, StorePairs;
    ArrayCheck(tuple);
    if Verify(tuple, Some(KArray)) != 0 { return -1; }
    var sync := s.reqid;
    s.reqid := NextReqid(s.reqid);
    var piece := StorePiece(space, tuple);
    rv := Send(s, op, sync, [piece, tuple]);
  }

  /** The check of every encoder. */
  lemma ArrayCheck(data: bytes)
    requires |data| > 0
    ensures Verify(data, Some(KArray)) == 0 <==> WholeArray(data)
  {
    hide Verify, Parse;
    VerifyExactly(data, Some(KArray));
  }

  /** A body that ends with a key in the local buffer and the caller's object. */
  lemma OneTail(hd: bytes, ps: seq<Pair>, piece: bytes, key: byte, raw: bytes)
    requires piece == hd + PairsBytes(ps) + EncUint(key)
    ensures Concat([piece, raw]) == hd + PairsBytes(ps + [Pair(key, raw)])
  {
    hide EncUint;
    TwoPieces(piece, raw);
    PairsSnoc(ps, Pair(key, raw));
    assert hd + PairsBytes(ps) + EncUint(key) + raw == hd + (PairsBytes(ps) + (EncUint(key) + raw));
  }

  /** A body with two objects of the caller in it; the first may have a string header of its own. */
  lemma TwoTails(
    hd: bytes, ps: seq<Pair>, piece: bytes, key: byte, h: bytes, raw: bytes, piece': bytes, key': byte, raw': bytes)
    requires piece == hd + PairsBytes(ps) + EncUint(key) + h && piece' == EncUint(key')
    ensures Concat([piece, raw, piece', raw']) == hd + PairsBytes(ps + [Pair(key, h + raw)] + [Pair(key', raw')])
  {
    hide EncUint;
    assert [piece, raw, piece', raw'] == [piece, raw] + [piece', raw'];
    ConcatAppend([piece, raw], [piece', raw']);
    TwoPieces(piece, raw);
    TwoPieces(piece', raw');
    PairsSnoc(ps, Pair(key, h + raw));
    PairsSnoc(ps + [Pair(key, h + raw)], Pair(key', raw'));
    Chain(hd, PairsBytes(ps), EncUint(key), h, raw, EncUint(key') + raw');
  }

  lemma BareTails(hd: bytes, ps: seq<Pair>, piece: bytes, key: byte, raw: bytes, piece': bytes, key': byte, raw': bytes)
    requires piece == hd + PairsBytes(ps) + EncUint(key) && piece' == EncUint(key')
    ensures Concat([piece, raw, piece', raw']) == hd + PairsBytes(ps + [Pair(key, raw)] + [Pair(key', raw')])
  {
    hide EncUint, PairsBytes;
    assert hd + PairsBytes(ps) + EncUint(key) + [] == piece && [] + raw == raw;
    TwoTails(hd, ps, piece, key, [], raw, piece', key', raw');
  }

  lemma Chain(a: bytes, b: bytes, c: bytes, d: bytes, e: bytes, f: bytes)
    ensures a + b + c + d + e + f == a + (b + (c + (d + e)) + f)
  {
  }

  /** The body of a select, up to the caller's key. */
  method SelectPiece(space: u32, index: u32, limit: u32, offset: u32, iter: byte, ghost key: bytes)
    returns (piece: bytes)
    ensures Concat([piece, key]) == Body(SelectPairs(space, index, limit, offset, iter, key))
  {
    hide EncHead, EncUint, PairBytes, PairsBytes;
    var b := StartBody(6, space);
    ghost var hd, ps := EncHead(KMap, 6), [Pair(SPACE, EncUint(space))];
    NextField(b, INDEX, index, hd, ps);
    ps := ps + [Pair(INDEX, EncUint(index))];
    NextField(b, LIMIT, limit, hd, ps);
    ps := ps + [Pair(LIMIT, EncUint(limit))];
    NextField(b, OFFSET, offset, hd, ps);
    ps := ps + [Pair(OFFSET, EncUint(offset))];
    NextField(b, ITERATOR, iter, hd, ps);
    ps := ps + [Pair(ITERATOR, EncUint(iter))];
    b.Put(EncUint(KEY));
    piece := b.Take();
    OneTail(hd, ps, piece, KEY, key);
  }

  /** `tnt_select` */
  method Select(s: Sink, space: u32, index: u32, limit: u32, offset: u32, iter: byte, key: bytes) returns (rv: int)
    requires |key| > 0
    modifies s
    ensures !WholeArray(key) ==> rv == -1 && unchanged(s)
    ensures WholeArray(key) ==> Sent(s, OP_SELECT, SelectPairs(space, index, limit, offset, iter, key), rv)
  {
    hide Verify, WholeArray, HeaderBytes, Body, SelectPairs;
    ArrayCheck(key);
    if Verify(key, Some(KArray)) != 0 { return -1; }
    var sync := s.reqid;
    s.reqid := NextReqid(s.reqid);
    var piece := SelectPiece(space, index, limit, offset, iter, key);
    rv := Send(s, OP_SELECT, sync, [piece, key]);
  }

  /** The body of a delete, up to the caller's key. */
  method DeletePiece(space: u32, index: u32, ghost key: bytes) returns (piece: bytes)
    ensures Concat([piece, key]) == Body(DeletePairs(space, index, key))
  {
    hide EncHead, EncUint, PairBytes, PairsBytes;
    var b := StartBody(3, space);
    ghost var hd, ps := EncHead(KMap, 3), [Pair(SPACE, EncUint(space))];
    NextField(b, INDEX, index, hd, ps);
    ps := ps + [Pair(INDEX, EncUint(index))];
    b.Put(EncUint(KEY));
    piece := b.Take();
    OneTail(hd, ps, piece, KEY, key);
  }

  /** `tnt_delete` */
  method Delete(s: Sink, space: u32, index: u32, key: bytes) returns (rv: int)
    requires |key| > 0
    modifies s
    ensures !WholeArray(key) ==> rv == -1 && unchanged(s)
    ensures WholeArray(key) ==> Sent(s, OP_DELETE, DeletePairs(space, index, key), rv)
  {
    hide Verify, WholeArray, HeaderBytes, Body, DeletePairs;
    ArrayCheck(key);
    if Verify(key, Some(KArray)) != 0 { return -1; }
    var sync := s.reqid;
    s.reqid := NextReqid(s.reqid);
    var piece := DeletePiece(space, index, key);
    rv := Send(s, OP_DELETE, sync, [piece, key]);
  }

  /** The body of an update around the caller's key and in front of the operations. */
  method UpdatePieces(space: u32, index: u32, ghost key: bytes, ghost ops: bytes) returns (piece: bytes, piece': bytes)
    ensures Concat([piece, key, piece', ops]) == Body(UpdatePairs(space, index, key, ops))
  {
    hide EncHead, EncUint, PairBytes, PairsBytes, Concat;
    var b := StartBody(4, space);
    ghost var hd, ps := EncHead(KMap, 4), [Pair(SPACE, EncUint(space))];
    NextField(b, INDEX, index, hd, ps);
    ps := ps + [Pair(INDEX, EncUint(index))];
    b.Put(EncUint(KEY));
    piece := b.Take();
    b.Put(EncUint(TUPLE));
    piece' := b.Take();
    assert piece' == EncUint(TUPLE);
    BareTails(hd, ps, piece, KEY, key, piece', TUPLE, ops);
  }

  /** `tnt_update` */
  method Update(s: Sink, space: u32, index: u32, key: bytes, ops: bytes) returns (rv: int)
    requires |key| > 0 && |ops| > 0
    modifies s
    ensures !WholeArray(key) || !WholeArray(ops) ==> rv == -1 && unchanged(s)
    ensures WholeArray(key) && WholeArray(ops) ==> Sent(s, OP_UPDATE, UpdatePairs(space, index, key, ops), rv)
  {
    hide Verify, WholeArray, HeaderBytes, Body, UpdatePairs;
    ArrayCheck(key);
    ArrayCheck(ops);
    if Verify(key, Some(KArray)) != 0 { return -1; }
    if Verify(ops, Some(KArray)) != 0 { return -1; }
    var sync := s.reqid;
    s.reqid := NextReqid(s.reqid);
    var piece, piece' := UpdatePieces(space, index, key, ops);
    rv := Send(s, OP_UPDATE, sync, [piece, key, piece', ops]);
  }

  /** The body of an upsert around the caller's tuple and in front of the operations. */
  method UpsertPieces(space: u32, ghost tuple: bytes, ghost ops: bytes) returns (piece: bytes, piece': bytes)
    ensures Concat([piece, tuple, piece', ops]) == Body(UpsertPairs(space, tuple, ops))
  {
    hide EncHead, EncUint, PairBytes, PairsBytes, Concat;
    var b := StartBody(3, space);
    ghost var hd, ps := EncHead(KMap, 3), [Pair(SPACE, EncUint(space))];
    b.Put(EncUint(TUPLE));
    piece := b.Take();
    b.Put(EncUint(OPS));
    piece' := b.Take();
    assert piece' == EncUint(OPS);
    BareTails(hd, ps, piece, TUPLE, tuple, piece', OPS, ops);
  }

  /** `tnt_upsert` */
  method Upsert(s: Sink, space: u32, tuple: bytes, ops: bytes) returns (rv: int)
    requires |tuple| > 0 && |ops| > 0
    modifies s
    ensures !WholeArray(tuple) || !WholeArray(ops) ==> rv == -1 && unchanged(s)
    ensures WholeArray(tuple) && WholeArray(ops) ==> Sent(s, OP_UPSERT, UpsertPairs(space, tuple, ops), rv)
  {
    hide Verify, WholeArray, HeaderBytes, Body, UpsertPairs;
    ArrayCheck(tuple);
    ArrayCheck(ops);
    if Verify(tuple, Some(KArray)) != 0 { return -1; }
    if Verify(ops, Some(KArray)) != 0 { return -1; }
    var sync := s.reqid;
    s.reqid := NextReqid(s.reqid);
    var piece, piece' := UpsertPieces(space, tuple, ops);
    rv := Send(s, OP_UPSERT, sync, [piece, tuple, piece', ops]);
  }

  /** The body of a call around the name and the arguments. */
  method RpcPieces(op: u32, proc: bytes, ghost args: bytes) returns (piece: bytes, piece': bytes)
    ensures Concat([piece, proc, piece', args]) == Body(RpcPairs(op, proc, args))
  {
    hide EncHead, EncUint, PairBytes, PairsBytes, Concat, RpcPairs;
    var fld := if op == OP_CALL || op == OP_CALL_16 then FUNCTION else EXPRESSION;
    var b := new BodyBuffer();
    SmallMap(2);
    b.Put(EncHead(KMap, 2));
    b.Put(EncUint(fld));
    b.Put(EncHead(KStr, Wrap32(|proc|)));
    piece := b.Take();
    assert piece == EncHead(KMap, 2) + EncUint(fld) + EncHead(KStr, Wrap32(|proc|));
    b.Put(EncUint(TUPLE));
    piece' := b.Take();
    assert piece' == EncUint(TUPLE);
    RpcTails(op, fld, piece, proc, piece', args);
  }

  lemma RpcTails(op: u32, fld: byte, piece: bytes, proc: bytes, piece': bytes, args: bytes)
    requires fld == if op == OP_CALL || op == OP_CALL_16 then FUNCTION else EXPRESSION
    requires piece == EncHead(KMap, 2) + EncUint(fld) + EncHead(KStr, Wrap32(|proc|)) && piece' == EncUint(TUPLE)
    ensures Concat([piece, proc, piece', args]) == Body(RpcPairs(op, proc, args))
  {
    hide EncHead, EncUint, PairBytes, PairsBytes, Concat;
    var hd, h := EncHead(KMap, 2), EncHead(KStr, Wrap32(|proc|));
    PairsNone(hd);
    TwoTails(hd, [], piece, fld, h, proc, piece', TUPLE, args);
    assert [] + [Pair(fld, h + proc)] == [Pair(fld, h + proc)];
  }

  /** `tnt_rpc_base`: `tnt_call`, `tnt_call_16` and `tnt_eval` */
  method Rpc(s: Sink, op: u32, proc: bytes, args: bytes) returns (rv: int)
    requires |args| > 0
    modifies s
    ensures |proc| == 0 || !WholeArray(args) ==> rv == -1 && unchanged(s)
    ensures |proc| > 0 && WholeArray(args) ==> Sent(s, op, RpcPairs(op, proc, args), rv)
  {
    hide Verify, WholeArray, HeaderBytes, Body, RpcPairs;
    if |proc| == 0 { return -1; }
    ArrayCheck(args);
    if Verify(args, Some(KArray)) != 0 { return -1; }
    var sync := s.reqid;
    s.reqid := NextReqid(s.reqid);
    var piece, piece' := RpcPieces(op, proc, args);
    rv := Send(s, op, sync, [piece, proc, piece', args]);
  }

  /** `tnt_ping` */
  method Ping(s: Sink) returns (rv: int)
    modifies s
    ensures Sent(s, OP_PING, [], rv)
  {
    hide EncHead, HeaderBytes;
    var sync := s.reqid;
    s.reqid := NextReqid(s.reqid);
    var b := new BodyBuffer();
    SmallMap(0);
    b.Put(EncHead(KMap, 0));
    var piece := b.Take();
    PairsNone(EncHead(KMap, 0));
    ConcatOne(piece);
    rv := Send(s, OP_PING, sync, [piece]);
  }
}
