/** Requests: `struct tnt_request` and its writer, and the one-shot encoders. */
module Requests {
  import opened Seqs
  import opened MsgPack
  import opened Wrappers
  import opened Builder
  import opened ObjectStream
  import opened Protocol

  const INT64_MAX: u64 := 0x7fff_ffff_ffff_ffff

  /** The fields of a request that reach the wire. `key` and `tuple` are None while their pointers are
      NULL. */
  datatype Req = Req(
    tp: u32, space: u32, index: u32, offset: u32, limit: u32, iter: u32,
    key: Option<bytes>, tuple: Option<bytes>, indexBase: int)

  function SizeOf(b: Option<bytes>): nat
  {
    if b.Some? then |b.value| else 0
  }

  /** The ranges of the C types: `index_base` is an int, buffers fit the address space. */
  predicate Legit(r: Req)
  {
    -TWO31 <= r.indexBase < TWO31 && SizeOf(r.key) + SizeOf(r.tuple) < TWO63
  }

  function Optional(present: bool, key: byte, n: u64): seq<Pair>
  {
    if present then [Pair(key, EncUint(n))] else []
  }

  predicate Spaced(tp: u32) { tp < OP_CALL_16 || tp == OP_UPSERT }

  predicate Indexed(tp: u32) { tp == OP_SELECT || tp == OP_UPDATE || tp == OP_DELETE }

  predicate Based(tp: u32) { tp == OP_UPDATE || tp == OP_UPSERT }

  /** The fields written before the key. */
  function NumberPairs(r: Req): (ps: seq<Pair>)
    ensures |ps| <= 5
  {
    Optional(Spaced(r.tp), SPACE, r.space)
    + Optional(r.index != 0 && Indexed(r.tp), INDEX, r.index)
    + Optional(r.tp == OP_SELECT, LIMIT, r.limit)
    + Optional(r.offset != 0 && r.tp == OP_SELECT, OFFSET, r.offset)
    + Optional(r.iter != 0 && r.tp == OP_SELECT, ITERATOR, r.iter)
  }

  /** Which map key `req->key` is written under; None if a request of this type takes no key. */
  function KeyCode(tp: u32): Option<byte>
  {
    if tp == OP_EVAL then Some(EXPRESSION)
    else if tp == OP_CALL || tp == OP_CALL_16 then Some(FUNCTION)
    else if Indexed(tp) then Some(KEY)
    else if tp == OP_UPSERT then Some(OPS)
    else None
  }

  /** Names and expressions are written as strings; their length is passed as 32 bits. */
  predicate Named(tp: u32) { tp == OP_EVAL || tp == OP_CALL || tp == OP_CALL_16 }

  function KeyHead(tp: u32, len: nat): bytes
  {
    if Named(tp) then EncHead(KStr, Wrap32(len)) else []
  }

  function KeyPairs(r: Req): (ps: seq<Pair>)
    requires r.key.Some? ==> KeyCode(r.tp).Some?
    ensures |ps| <= 1
  {
    if r.key.None? then [] else [Pair(KeyCode(r.tp).value, KeyHead(r.tp, |r.key.value|) + r.key.value)]
  }

  function TuplePairs(r: Req): (ps: seq<Pair>)
    ensures |ps| <= 1
  {
    if r.tuple.None? then [] else [Pair(TUPLE, r.tuple.value)]
  }

  function BasePairs(r: Req): (ps: seq<Pair>)
    ensures |ps| <= 1
  {
    Optional(r.indexBase != 0 && Based(r.tp), INDEX_BASE, r.indexBase % TWO64)
  }

  predicate Writable(r: Req)
  {
    r.key.Some? ==> KeyCode(r.tp).Some?
  }

  /** The body of a request, entry by entry. */
  function Pairs(r: Req): (ps: seq<Pair>)
    requires Writable(r)
    ensures |ps| <= 8
  {
    NumberPairs(r) + KeyPairs(r) + TuplePairs(r) + BasePairs(r)
  }

  // ---------------------------------------------------------------- the scattered frame

  /** `struct iovec`: a stretch of the local header buffer, or the caller's bytes. */
  datatype Iov = Local(base: nat, len: nat) | Foreign(b: bytes)

  predicate Within(v: seq<Iov>, lo: nat, hi: nat)
  {
    forall i :: 0 <= i < |v| && v[i].Local? ==> lo <= v[i].base && v[i].base + v[i].len <= hi
  }

  /** What `writev` will read. */
  function Gather(header: bytes, v: seq<Iov>): bytes
    requires Within(v, 0, |header|)
  {
    if |v| == 0 then []
    else (if v[0].Local? then header[v[0].base..v[0].base + v[0].len] else v[0].b) + Gather(header, v[1..])
  }

  lemma {:induction false} GatherStable(a: bytes, b: bytes, v: seq<Iov>, lim: nat)
    requires lim <= |a| && lim <= |b| && a[..lim] == b[..lim] && Within(v, 0, lim)
    ensures Gather(a, v) == Gather(b, v)
  {
    if |v| > 0 {
      if v[0].Local? {
        SliceOfPrefix(a, lim, v[0].base, v[0].base + v[0].len);
        SliceOfPrefix(b, lim, v[0].base, v[0].base + v[0].len);
      }
      GatherStable(a, b, v[1..], lim);
    }
  }

  lemma {:induction false} GatherSnoc(header: bytes, v: seq<Iov>, x: Iov)
    requires Within(v, 0, |header|) && Within([x], 0, |header|) && Within(v + [x], 0, |header|)
    ensures x.Local? ==> x.base + x.len <= |header|
    ensures Gather(header, v + [x]) == Gather(header, v) + if x.Local? then header[x.base..x.base + x.len] else x.b
  {
    hide Gather;
    assert [x][0] == x;
    if |v| == 0 {
      assert v + [x] == [x] && [x][1..] == [];
      GatherCons(header, [x]);
      GatherNone(header, v);
      GatherNone(header, [x][1..]);
    } else {
      assert (v + [x])[0] == v[0] && (v + [x])[1..] == v[1..] + [x];
      GatherSnoc(header, v[1..], x);
      GatherCons(header, v);
      GatherCons(header, v + [x]);
      Assoc(if v[0].Local? then header[v[0].base..v[0].base + v[0].len] else v[0].b, Gather(header, v[1..]),
            if x.Local? then header[x.base..x.base + x.len] else x.b);
    }
  }

  lemma GatherNone(header: bytes, v: seq<Iov>)
    requires |v| == 0
    ensures Gather(header, v) == []
  {
  }

  lemma GatherCons(header: bytes, v: seq<Iov>)
    requires Within(v, 0, |header|) && |v| > 0
    ensures v[0].Local? ==> v[0].base + v[0].len <= |header|
    ensures Gather(header, v)
            == (if v[0].Local? then header[v[0].base..v[0].base + v[0].len] else v[0].b) + Gather(header, v[1..])
  {
  }

  /** Patching one byte of the first stretch patches that byte of the gathered stream. */
  lemma {:induction false} GatherPatch(header: bytes, v: seq<Iov>, at: nat, x: byte)
    requires Within(v, 0, |header|) && |v| > 0 && v[0].Local?
    requires v[0].base <= at < v[0].base + v[0].len
    requires forall i :: 1 <= i < |v| && v[i].Local? ==> v[i].base > at
    ensures at - v[0].base < |Gather(header, v)|
    ensures Gather(header[at := x], v) == Gather(header, v)[at - v[0].base := x]
  {
    GatherElsewhere(header, v[1..], at, x);
    var s := header[v[0].base..v[0].base + v[0].len];
    assert header[at := x][v[0].base..v[0].base + v[0].len] == s[at - v[0].base := x];
  }

  lemma {:induction false} GatherElsewhere(header: bytes, v: seq<Iov>, at: nat, x: byte)
    requires Within(v, 0, |header|) && at < |header|
    requires forall i :: 0 <= i < |v| && v[i].Local? ==> v[i].base > at
    ensures Gather(header[at := x], v) == Gather(header, v)
  {
    if |v| > 0 {
      if v[0].Local? {
        assert header[at := x][v[0].base..v[0].base + v[0].len] == header[v[0].base..v[0].base + v[0].len];
      }
      GatherElsewhere(header, v[1..], at, x);
    }
  }

  /** The length of the length prefix is reserved in front; the packet starts here. */
  const PREFIX: nat := 9
  const HEADER_SIZE: nat := 128

  /** The local variables of the writer: the header buffer, the cursor, the start of the stretch not yet
      in the vector, and the vector without its first entry. */
  class Scatter {
    const header: array<byte>
    var pos: nat
    var begin: nat
    var v: seq<Iov>

    constructor ()
      ensures Valid() && fresh(header) && pos == begin == PREFIX && v == [] && Emitted() == []
    {
      header := new byte[HEADER_SIZE];
      pos, begin, v := PREFIX, PREFIX, [];
    }

    ghost predicate Valid()
      reads this, header
    {
      header.Length == HEADER_SIZE && PREFIX <= begin <= pos <= HEADER_SIZE && Within(v, PREFIX, begin)
    }

    /** The packet so far, without its length prefix. */
    ghost function Emitted(): bytes
      requires Valid()
      reads this, header
    {
      Gather(header[..], v) + header[begin..pos]
    }

    method Put(s: bytes)
      requires Valid() && pos + |s| <= HEADER_SIZE
      modifies this, header
      ensures Valid() && Emitted() == old(Emitted()) + s
      ensures pos == old(pos) + |s| && begin == old(begin) && v == old(v)
    {
      ghost var before := header[..];
      forall i | 0 <= i < |s| { header[pos + i] := s[i]; }
      assert header[..pos] == before[..pos];
      GatherStable(before, header[..], v, pos);
      assert header[begin..pos + |s|] == before[begin..pos] + s;
      pos := pos + |s|;
    }

    /** `map = pos++`: leave a byte to be filled in later. */
    method Skip() returns (at: nat)
      requires Valid() && pos < HEADER_SIZE
      modifies this
      ensures Valid() && at == old(pos) && pos == old(pos) + 1 && begin == old(begin) && v == old(v)
      ensures Emitted() == old(Emitted()) + [header[at]]
    {
      at := pos;
      pos := pos + 1;
      assert header[begin..pos] == header[begin..at] + [header[at]];
    }

    /** Put the pending stretch into the vector. */
    method Flush()
      requires Valid()
      modifies this
      ensures Valid() && begin == pos == old(pos) && Emitted() == old(Emitted())
      ensures v == old(v) + [Local(old(begin), old(pos) - old(begin))]
    {
      var x := Local(begin, pos - begin);
      Extend(v, x, begin, pos);
      GatherSnoc(header[..], v, x);
      assert header[..][begin..pos] == header[begin..pos];
      v := v + [x];
      begin := pos;
    }

    /** Put the pending stretch and then the caller's bytes into the vector. */
    method Attach(b: bytes)
      requires Valid()
      modifies this
      ensures Valid() && begin == pos == old(pos) && Emitted() == old(Emitted()) + b
      ensures v == old(v) + [Local(old(begin), old(pos) - old(begin))] + [Foreign(b)]
      ensures forall hole :: old(Holed(v, begin, pos, hole)) ==> Holed(v, begin, pos, hole)
    {
      Flush();
      Extend(v, Foreign(b), begin, pos);
      GatherSnoc(header[..], v, Foreign(b));
      v := v + [Foreign(b)];
    }
  }

  /** Only the first stretch holds the byte that was skipped. */
  predicate Holed(v: seq<Iov>, begin: nat, pos: nat, hole: nat)
  {
    && PREFIX <= hole < pos && (if |v| == 0 then begin == PREFIX else begin > hole)
    && (|v| > 0 ==> v[0].Local? && v[0].base == PREFIX && PREFIX + v[0].len > hole)
    && forall i :: 1 <= i < |v| && v[i].Local? ==> v[i].base > hole
  }

  lemma Extend(v: seq<Iov>, x: Iov, begin: nat, pos: nat)
    requires PREFIX <= begin <= pos <= HEADER_SIZE && Within(v, PREFIX, begin)
    requires x == Local(begin, pos - begin) || x.Foreign?
    ensures Within(v + [x], PREFIX, pos) && Within(v + [x], 0, HEADER_SIZE) && Within([x], 0, HEADER_SIZE)
    ensures x.Foreign? ==> Within(v + [x], PREFIX, begin)
  {
  }

  // ---------------------------------------------------------------- the streams requests go to

  /** `struct tnt_stream` as the encoders use it: the request counter and a gathering write that either
      takes everything or fails. */
  class Sink {
    var reqid: u64
    var wire: bytes
    var working: bool

    constructor ()
      ensures reqid == 0 && wire == [] && working
    {
      reqid, wire, working := 0, [], true;
    }

    method Writev(iov: seq<bytes>) returns (rv: int)
      modifies this
      ensures reqid == old(reqid) && working == old(working)
      ensures !working ==> rv == -1 && wire == old(wire)
      ensures working ==> rv == |Concat(iov)| && wire == old(wire) + Concat(iov)
    {
      if !working { return -1; }
      wire := wire + Concat(iov);
      return |Concat(iov)|;
    }
  }

  /** The request counter. */
  function NextReqid(sync: u64): u64
  {
    (sync + 1) % TWO64
  }

  /** The counter after k requests. */
  function ReqidAfter(start: u64, k: nat): u64
  {
    if k == 0 then start else NextReqid(ReqidAfter(start, k - 1))
  }

  /** Requests in a row carry consecutive syncs, modulo 2^64. */
  lemma {:induction false} SyncsInOrder(start: u64, k: nat)
    ensures ReqidAfter(start, k) == (start + k) % TWO64
  {
    if k > 0 {
      SyncsInOrder(start, k - 1);
      WrapsOnce(start + k - 1);
    }
  }

  lemma WrapsOnce(n: nat)
    ensures NextReqid(n % TWO64) == (n + 1) % TWO64
  {
    var q, r := n / TWO64, n % TWO64;
    assert n + 1 == if r + 1 == TWO64 then (q + 1) * TWO64 else q * TWO64 + (r + 1);
  }

  /** The pieces `writev` reads. */
  function Pieces(header: bytes, v: seq<Iov>): (r: seq<bytes>)
    requires Within(v, 0, |header|)
    ensures |r| == |v| && Concat(r) == Gather(header, v)
  {
    if |v| == 0 then []
    else [if v[0].Local? then header[v[0].base..v[0].base + v[0].len] else v[0].b] + Pieces(header, v[1..])
  }

  /** One optional field: the `if` blocks of the writer. Returns how many entries it wrote. */
  method PutOptional(c: Scatter, present: bool, key: byte, n: u64) returns (nd: nat)
    requires c.Valid() && key < 0x80 && c.pos + (if n < TWO32 then 6 else 10) <= HEADER_SIZE
    modifies c, c.header
    ensures c.Valid() && c.Emitted() == old(c.Emitted()) + PairsBytes(Optional(present, key, n))
    ensures nd == |Optional(present, key, n)| && c.begin == old(c.begin) && c.v == old(c.v)
    ensures old(c.pos) <= c.pos <= old(c.pos) + (if n < TWO32 then 6 else 10)
  {
    hide EncUint, Gather;
    nd := 0;
    ghost var e := c.Emitted();
    if present {
      c.Put(EncUint(key));
      c.Put(EncUint(n));
      nd := 1;
      assert [Pair(key, EncUint(n))][1..] == [];
      Assoc(e, EncUint(key), EncUint(n));
      assert PairsBytes([Pair(key, EncUint(n))]) == EncUint(key) + EncUint(n);
    } else {
      assert e + [] == e;
    }
  }

  /** The fields written before the key. */
  method PutNumbers(c: Scatter, r: Req) returns (nd: nat)
    requires c.Valid() && c.pos <= 40
    modifies c, c.header
    ensures c.Valid() && c.Emitted() == old(c.Emitted()) + PairsBytes(NumberPairs(r))
    ensures nd == |NumberPairs(r)| && c.begin == old(c.begin) && c.v == old(c.v)
    ensures old(c.pos) <= c.pos <= old(c.pos) + 30
  {
    hide PairsBytes, Gather, Optional;
    ghost var e := c.Emitted();
    nd := PutOptional(c, Spaced(r.tp), SPACE, r.space);
    ghost var ps := Optional(Spaced(r.tp), SPACE, r.space);
    var k := PutOptional(c, r.index != 0 && Indexed(r.tp), INDEX, r.index);
    nd, ps := nd + k, MorePairs(e, ps, Optional(r.index != 0 && Indexed(r.tp), INDEX, r.index));
    k := PutOptional(c, r.tp == OP_SELECT, LIMIT, r.limit);
    nd, ps := nd + k, MorePairs(e, ps, Optional(r.tp == OP_SELECT, LIMIT, r.limit));
    k := PutOptional(c, r.offset != 0 && r.tp == OP_SELECT, OFFSET, r.offset);
    nd, ps := nd + k, MorePairs(e, ps, Optional(r.offset != 0 && r.tp == OP_SELECT, OFFSET, r.offset));
    k := PutOptional(c, r.iter != 0 && r.tp == OP_SELECT, ITERATOR, r.iter);
    nd, ps := nd + k, MorePairs(e, ps, Optional(r.iter != 0 && r.tp == OP_SELECT, ITERATOR, r.iter));
  }

  ghost function MorePairs(e: bytes, ps: seq<Pair>, more: seq<Pair>): (r: seq<Pair>)
    ensures r == ps + more && e + PairsBytes(r) == e + PairsBytes(ps) + PairsBytes(more)
  {
    PairsAppend(ps, more);
    Assoc(e, PairsBytes(ps), PairsBytes(more));
    ps + more
  }

  /** The frame header: `{CODE: tp, SYNC: sync}`. */
  method PutHeader(c: Scatter, tp: u32, sync: u64)
    requires c.Valid() && c.pos == c.begin == PREFIX && c.v == [] && c.Emitted() == []
    modifies c, c.header
    ensures c.Valid() && c.Emitted() == HeaderBytes(tp, sync) && |HeaderBytes(tp, sync)| == c.pos - PREFIX
    ensures c.pos <= PREFIX + 17 && c.begin == PREFIX && c.v == []
  {
    hide EncHead, EncUint;
    assert |EncHead(KMap, 2)| == 1 by { SmallMap(2); }
    c.Put(EncHead(KMap, 2));
    c.Put(EncUint(CODE));
    c.Put(EncUint(tp));
    c.Put(EncUint(SYNC));
    c.Put(EncUint(sync));
    assert [] + EncHead(KMap, 2) == EncHead(KMap, 2);
    assert |c.Emitted()| == c.pos - PREFIX;
  }

  lemma SmallMap(n: nat)
    requires n < 0x10
    ensures EncHead(KMap, n) == [0x80 + n]
  {
  }

  /** The key, as far as it goes into the header buffer, and the caller's bytes. */
  method PutKey(c: Scatter, r: Req, ghost hole: nat) returns (ok: bool, nd: nat)
    requires c.Valid() && c.pos <= 100 && Holed(c.v, c.begin, c.pos, hole)
    modifies c, c.header
    ensures c.Valid() && ok == Writable(r)
    ensures ok ==> c.Emitted() == old(c.Emitted()) + PairsBytes(KeyPairs(r)) && nd == |KeyPairs(r)|
    ensures old(c.pos) <= c.pos <= old(c.pos) + 6
    ensures |c.v| <= old(|c.v|) + 2 && Holed(c.v, c.begin, c.pos, hole)
  {
    hide EncUint, EncHead, Gather;
    ghost var e := c.Emitted();
    ok, nd := true, 0;
    if r.key.Some? {
      var key := r.key.value;
      if r.tp == OP_EVAL {
        c.Put(EncUint(EXPRESSION));
        c.Put(EncHead(KStr, Wrap32(|key|)));
      } else if r.tp == OP_CALL_16 || r.tp == OP_CALL {
        c.Put(EncUint(FUNCTION));
        c.Put(EncHead(KStr, Wrap32(|key|)));
      } else if r.tp == OP_SELECT || r.tp == OP_UPDATE || r.tp == OP_DELETE {
        c.Put(EncUint(KEY));
      } else if r.tp == OP_UPSERT {
        c.Put(EncUint(OPS));
      } else {
        return false, 0;
      }
      c.Attach(key);
      nd := 1;
      OnePair(e, KeyPairs(r)[0], EncUint(KeyCode(r.tp).value), KeyHead(r.tp, |key|), key);
    } else {
      assert e + [] == e;
    }
  }

  lemma OnePair(e: bytes, p: Pair, code: bytes, hd: bytes, b: bytes)
    requires code == EncUint(p.key) && p.raw == hd + b
    ensures e + PairsBytes([p]) == e + code + hd + b == e + (code + (hd + b))
    ensures hd == [] ==> e + PairsBytes([p]) == e + code + b
  {
    hide EncUint;
    assert [p][1..] == [];
    assert PairsBytes([p]) == code + (hd + b);
  }

  method PutTuple(c: Scatter, r: Req, ghost hole: nat) returns (nd: nat)
    requires c.Valid() && c.pos <= 110 && Holed(c.v, c.begin, c.pos, hole)
    modifies c, c.header
    ensures c.Valid() && c.Emitted() == old(c.Emitted()) + PairsBytes(TuplePairs(r)) && nd == |TuplePairs(r)|
    ensures old(c.pos) <= c.pos <= old(c.pos) + 1
    ensures |c.v| <= old(|c.v|) + 2 && Holed(c.v, c.begin, c.pos, hole)
  {
    hide EncUint, EncHead, Gather;
    ghost var e := c.Emitted();
    nd := 0;
    if r.tuple.Some? {
      c.Put(EncUint(TUPLE));
      c.Attach(r.tuple.value);
      nd := 1;
      assert [] + r.tuple.value == r.tuple.value;
      OnePair(e, Pair(TUPLE, r.tuple.value), EncUint(TUPLE), [], r.tuple.value);
    } else {
      assert e + [] == e;
    }
  }

  /** Flush what is pending and fill in the map size. */
  method FillMap(c: Scatter, hole: nat, nd: nat, ghost hd: bytes, ghost body: bytes)
    requires c.Valid() && nd < 0x10 && Holed(c.v, c.begin, c.pos, hole)
    requires |hd| == hole - PREFIX && |c.Emitted()| == |hd| + 1 + |body|
    requires c.Emitted() == hd + [c.Emitted()[|hd|]] + body
    modifies c, c.header
    ensures c.Valid() && |c.v| <= |old(c.v)| + 1
    ensures Gather(c.header[..], c.v) == hd + (EncHead(KMap, nd) + body)
  {
    hide EncHead, Gather;
    ghost var e := c.Emitted();
    if c.pos != c.begin { c.Flush(); }
    SmallMap(nd);
    ghost var before := c.header[..];
    assert Gather(before, c.v) == e by { assert before[c.begin..c.pos] == []; }
    c.header[hole] := 0x80 + nd;
    GatherPatch(before, c.v, hole, 0x80 + nd);
    assert c.header[..] == before[hole := 0x80 + nd];
  }

  /** The length loop, and the length prefix in front: the frame that `writev` reads. */
  method PutPrefix(c: Scatter) returns (iov: seq<bytes>)
    requires c.Valid()
    modifies c.header
    ensures Concat(iov) == Framed(old(Gather(c.header[..], c.v))) && |iov| == |c.v| + 1
  {
    hide Gather, LongUint;
    ghost var before := c.header[..];
    var plen := TotalLength(Pieces(c.header[..], c.v));
    var hlen := LongUintSize(plen);
    forall i | 0 <= i < hlen { c.header[PREFIX - hlen + i] := LongUint(plen)[i]; }
    assert c.header[PREFIX - hlen..PREFIX] == LongUint(plen);
    GatherAbove(before, c.header[..], c.v);
    iov := [c.header[PREFIX - hlen..PREFIX]] + Pieces(c.header[..], c.v);
  }

  lemma {:induction false} GatherAbove(a: bytes, b: bytes, v: seq<Iov>)
    requires |a| == |b| >= PREFIX && a[PREFIX..] == b[PREFIX..] && Within(v, PREFIX, |a|)
    ensures Within(v, 0, |a|) && Gather(a, v) == Gather(b, v)
  {
    if |v| > 0 {
      if v[0].Local? {
        var i, j := v[0].base, v[0].base + v[0].len;
        SliceOfDrop(a, PREFIX, i, j);
        SliceOfDrop(b, PREFIX, i, j);
      }
      GatherAbove(a, b, v[1..]);
    }
  }

  // ---------------------------------------------------------------- the request object

  /** `struct tnt_request` */
  class Request {
    var sync: u64
    var tp: u32
    var space: u32
    var index: u32
    var offset: u32
    var limit: u32
    var iter: u32
    var key: Option<bytes>
    var tuple: Option<bytes>
    var indexBase: int

    /** `tnt_request_select`, `tnt_request_insert`, ... */
    constructor (kind: u32)
      ensures Fields() == Req(kind, 0, 0, 0, TWO32 - 1, 0, None, None, 0) && sync == 0
    {
      sync, tp, space, index, offset, limit, iter := 0, kind, 0, 0, 0, TWO32 - 1, 0;
      key, tuple, indexBase := None, None, 0;
    }

    function Fields(): Req
      reads this
    {
      Req(tp, space, index, offset, limit, iter, key, tuple, indexBase)
    }

    /** `tnt_request_set_key` and `tnt_request_set_tuple` */
    method SetKey(b: bytes)
      modifies this
      ensures Fields() == old(Fields()).(key := Some(b)) && sync == old(sync)
    {
      key := Some(b);
    }

    method SetTuple(b: bytes)
      modifies this
      ensures Fields() == old(Fields()).(tuple := Some(b)) && sync == old(sync)
    {
      tuple := Some(b);
    }

    /** `tnt_request_set_func`: only calls have a function name. None stands for a NULL pointer. */
    method SetFunc(name: Option<bytes>) returns (rv: int)
      modifies this
      ensures rv == if (tp == OP_CALL || tp == OP_CALL_16) && name.Some? then 0 else -1
      ensures Fields() == (if rv == 0 then old(Fields()).(key := name) else old(Fields())) && sync == old(sync)
    {
      if tp != OP_CALL && tp != OP_CALL_16 { return -1; }
      if name.None? { return -1; }
      key := name;
      return 0;
    }

    /** `tnt_request_set_expr` */
    method SetExpr(expr: Option<bytes>) returns (rv: int)
      modifies this
      ensures rv == if tp == OP_EVAL && expr.Some? then 0 else -1
      ensures Fields() == (if rv == 0 then old(Fields()).(key := expr) else old(Fields())) && sync == old(sync)
    {
      if tp != OP_EVAL { return -1; }
      if expr.None? { return -1; }
      key := expr;
      return 0;
    }

    /** `tnt_request_set_ops`: an update carries its operations as the tuple, an upsert as the key. */
    method SetOps(ops: bytes) returns (rv: int)
      modifies this
      ensures rv == if Based(tp) then 0 else -1
      ensures Fields() == if tp == OP_UPDATE then old(Fields()).(tuple := Some(ops))
                          else if tp == OP_UPSERT then old(Fields()).(key := Some(ops)) else old(Fields())
    {
      if tp == OP_UPDATE {
        tuple := Some(ops);
        return 0;
      } else if tp == OP_UPSERT {
        key := Some(ops);
        return 0;
      }
      return -1;
    }
  }

  /** `tnt_request_writeout`. `want` is the sync the caller passes in, None for a NULL pointer. A counter at
      INT64_MAX or UINT64_MAX restarts when the caller can receive the sync only as an int64_t. */
  method Writeout(s: Sink, q: Request, want: Option<u64>) returns (rv: int, sync: Option<u64>)
    requires Legit(q.Fields())
    modifies s, q
    ensures q.Fields() == old(q.Fields())
    ensures q.sync == if want == Some(INT64_MAX) && (old(s.reqid) == INT64_MAX || old(s.reqid) == TWO64 - 1) then 0
                      else old(s.reqid)
    ensures s.reqid == NextReqid(q.sync)
    ensures rv == if Writable(q.Fields()) && s.working then 0 else -1
    ensures rv == 0 ==> s.wire == old(s.wire) + Packet(q.tp, q.sync, Pairs(q.Fields()))
    ensures rv != 0 ==> s.wire == old(s.wire)
    ensures sync == if rv == 0 && want.Some? then Some(q.sync) else want
  {
    hide Packet, Pairs;
    sync := want;
    if want == Some(INT64_MAX) && s.reqid % TWO63 == INT64_MAX { s.reqid := 0; }
    q.sync := s.reqid;
    s.reqid := NextReqid(s.reqid);
    var ok, iov := Scattered(q.Fields(), q.sync);
    if !ok { return -1, sync; }
    rv := s.Writev(iov);
    if rv == -1 { return -1, sync; }
    if want.Some? { sync := Some(q.sync); }
    return 0, sync;
  }

  /** Header, the byte left for the map size, and the number fields. */
  method PutFront(c: Scatter, r: Req, sync: u64) returns (hole: nat, nd: nat, ghost x: byte)
    requires c.Valid() && c.pos == c.begin == PREFIX && c.v == [] && c.Emitted() == []
    modifies c, c.header
    ensures c.Valid() && c.pos <= 60 && c.v == [] && Holed(c.v, c.begin, c.pos, hole)
    ensures hole == PREFIX + |HeaderBytes(r.tp, sync)| && nd == |NumberPairs(r)|
    ensures c.Emitted() == HeaderBytes(r.tp, sync) + [x] + PairsBytes(NumberPairs(r))
  {
    hide EncHead, PairsBytes, HeaderBytes, NumberPairs, Gather, Optional;
    PutHeader(c, r.tp, sync);
    hole := c.Skip();
    x := c.header[hole];
    nd := PutNumbers(c, r);
  }

  /** The body of the writer: fields, key and tuple scattered over the vector, map size and length
      prefix filled in last. */
  method Scattered(r: Req, sync: u64) returns (ok: bool, iov: seq<bytes>)
    requires Legit(r)
    ensures ok == Writable(r) && |iov| <= 10
    ensures ok ==> Concat(iov) == Packet(r.tp, sync, Pairs(r))
  {
    hide EncHead, PairsBytes, HeaderBytes, Framed, NumberPairs, TuplePairs, KeyPairs, Gather, Optional, Holed;
    iov := [];
    var c := new Scatter();
    ghost var hd := HeaderBytes(r.tp, sync);
    ghost var x;
    var hole, nd, k, t, b;
    hole, nd, x := PutFront(c, r, sync);
    ok, k := PutKey(c, r, hole);
    if !ok { return; }
    t := PutTuple(c, r, hole);
    ghost var pos := c.pos;
    b := PutOptional(c, r.indexBase != 0 && Based(r.tp), INDEX_BASE, r.indexBase % TWO64);
    LaterHoled(c.v, c.begin, pos, c.pos, hole);
    JoinPairs(hd + [x], r);
    assert (hd + [x])[|hd|] == x;
    FillMap(c, hole, nd + k + t + b, hd, PairsBytes(Pairs(r)));
    iov := PutPrefix(c);
  }

  lemma LaterHoled(v: seq<Iov>, begin: nat, pos: nat, later: nat, hole: nat)
    requires Holed(v, begin, pos, hole) && pos <= later
    ensures Holed(v, begin, later, hole)
  {
  }

  lemma JoinPairs(front: bytes, r: Req)
    requires Writable(r)
    ensures front + PairsBytes(NumberPairs(r)) + PairsBytes(KeyPairs(r)) + PairsBytes(TuplePairs(r)) + PairsBytes(BasePairs(r))
            == front + PairsBytes(Pairs(r))
    ensures |Pairs(r)| == |NumberPairs(r)| + |KeyPairs(r)| + |TuplePairs(r)| + |BasePairs(r)|
  {
    hide PairsBytes, NumberPairs, KeyPairs, TuplePairs, BasePairs;
    var n, k, t, b := NumberPairs(r), KeyPairs(r), TuplePairs(r), BasePairs(r);
    PairsAppend(n + k + t, b);
    PairsAppend(n + k, t);
    PairsAppend(n, k);
    FourParts(front, PairsBytes(n), PairsBytes(k), PairsBytes(t), PairsBytes(b));
  }

  lemma FourParts(f: bytes, n: bytes, k: bytes, t: bytes, b: bytes)
    ensures f + n + k + t + b == f + (n + k + t + b)
  {
  }

  /** `tnt_request_compile` */
  method Compile(s: Sink, q: Request) returns (rv: int)
    requires Legit(q.Fields())
    modifies s, q
    ensures -TWO63 <= rv < TWO63
    ensures rv != -1 <==> Writable(q.Fields()) && s.working
    ensures q.sync == if old(s.reqid) == INT64_MAX || old(s.reqid) == TWO64 - 1 then 0 else old(s.reqid)
    ensures s.reqid == NextReqid(q.sync)
    ensures rv != -1 ==> q.sync == rv % TWO64 && s.wire == old(s.wire) + Packet(q.tp, q.sync, Pairs(q.Fields()))
    ensures rv == -1 ==> s.wire == old(s.wire)
    ensures q.Fields() == old(q.Fields())
  {
    hide Packet, Pairs;
    var r, sync := Writeout(s, q, Some(INT64_MAX));
    if r == -1 { return -1; }
    return if sync.value < TWO63 then sync.value else sync.value - TWO64;
  }
}
