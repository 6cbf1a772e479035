/** What requests mean to their reader, and that both encoders say the same. */
module RequestProofs {
  import opened MsgPack
  import opened Wrappers
  import opened Protocol
  import opened Requests
  import opened OneShot

  /** The raw value under a key; the last entry wins. */
  function RawOf(ps: seq<Pair>, k: byte): Option<bytes>
  {
    if |ps| == 0 then None
    else if RawOf(ps[1..], k).Some? then RawOf(ps[1..], k)
    else if ps[0].key == k then Some(ps[0].raw) else None
  }

  lemma {:induction false} RawAppend(a: seq<Pair>, b: seq<Pair>, k: byte)
    ensures RawOf(a + b, k) == if RawOf(b, k).Some? then RawOf(b, k) else RawOf(a, k)
  {
    if |a| == 0 {
      assert a + b == b;
    } else {
      assert (a + b)[1..] == a[1..] + b;
      RawAppend(a[1..], b, k);
    }
  }

  lemma RawOne(p: Pair, k: byte)
    ensures RawOf([p], k) == if p.key == k then Some(p.raw) else None
  {
    assert [p][1..] == [];
  }

  lemma RawOptional(present: bool, key: byte, n: u64, k: byte)
    ensures RawOf(Optional(present, key, n), k) == if present && key == k then Some(EncUint(n)) else None
  {
    if present { RawOne(Pair(key, EncUint(n)), k); }
  }

  /** What a request carries under each key, field by field. */
  function Carries(r: Req, k: byte): Option<bytes>
    requires Writable(r)
  {
    if k == SPACE then Number(r.tp <= OP_DELETE || r.tp == OP_UPSERT, r.space)
    else if k == INDEX then Number(r.index != 0 && r.tp in [OP_SELECT, OP_UPDATE, OP_DELETE], r.index)
    else if k == LIMIT then Number(r.tp == OP_SELECT, r.limit)
    else if k == OFFSET then Number(r.tp == OP_SELECT && r.offset != 0, r.offset)
    else if k == ITERATOR then Number(r.tp == OP_SELECT && r.iter != 0, r.iter)
    else if k == INDEX_BASE then Number(r.tp in [OP_UPDATE, OP_UPSERT] && r.indexBase != 0, r.indexBase % TWO64)
    else if k == TUPLE then r.tuple
    else CarriedKey(r, k)
  }

  /** The key object goes under a key of its own for every type. */
  function CarriedKey(r: Req, k: byte): Option<bytes>
  {
    if k == KEY && r.tp in [OP_SELECT, OP_UPDATE, OP_DELETE] then r.key
    else if k == OPS && r.tp == OP_UPSERT then r.key
    else if k == FUNCTION && r.tp in [OP_CALL, OP_CALL_16] then Name(r.key)
    else if k == EXPRESSION && r.tp == OP_EVAL then Name(r.key)
    else None
  }

  function Number(present: bool, n: u64): Option<bytes>
  {
    if present then Some(EncUint(n)) else None
  }

  /** A name is written as a string; its length is passed as 32 bits. */
  function Name(key: Option<bytes>): Option<bytes>
  {
    if key.None? then None else Some(EncHead(KStr, |key.value| % TWO32) + key.value)
  }

  lemma {:induction false} PairsCarry(r: Req, k: byte)
    requires Writable(r)
    ensures RawOf(Pairs(r), k) == Carries(r, k)
  {
    hide RawOf, EncUint, Optional, KeyHead;
    var a, b := Optional(Spaced(r.tp), SPACE, r.space), Optional(r.index != 0 && Indexed(r.tp), INDEX, r.index);
    var c, d := Optional(r.tp == OP_SELECT, LIMIT, r.limit), Optional(r.offset != 0 && r.tp == OP_SELECT, OFFSET, r.offset);
    var e := Optional(r.iter != 0 && r.tp == OP_SELECT, ITERATOR, r.iter);
    RawOptional(Spaced(r.tp), SPACE, r.space, k);
    RawOptional(r.index != 0 && Indexed(r.tp), INDEX, r.index, k);
    RawOptional(r.tp == OP_SELECT, LIMIT, r.limit, k);
    RawOptional(r.offset != 0 && r.tp == OP_SELECT, OFFSET, r.offset, k);
    RawOptional(r.iter != 0 && r.tp == OP_SELECT, ITERATOR, r.iter, k);
    RawOptional(r.indexBase != 0 && Based(r.tp), INDEX_BASE, r.indexBase % TWO64, k);
    RawAppend(a, b, k);
    RawAppend(a + b, c, k);
    RawAppend(a + b + c, d, k);
    RawAppend(a + b + c + d, e, k);
    RawTail(r, k);
    RawAppend(NumberPairs(r), KeyPairs(r), k);
    RawAppend(NumberPairs(r) + KeyPairs(r), TuplePairs(r), k);
    RawAppend(NumberPairs(r) + KeyPairs(r) + TuplePairs(r), BasePairs(r), k);
  }

  lemma RawTail(r: Req, k: byte)
    requires Writable(r)
    ensures RawOf(KeyPairs(r), k) == CarriedKey(r, k)
    ensures RawOf(TuplePairs(r), k) == if k == TUPLE then r.tuple else None
  {
    hide EncHead;
    if r.key.Some? {
      RawOne(KeyPairs(r)[0], k);
      assert [] + r.key.value == r.key.value;
    }
    if r.tuple.Some? { RawOne(TuplePairs(r)[0], k); }
  }

  // ---------------------------------------------------------------- reading a request back

  /** Looking a key up in the decoded map finds the value its raw entry encodes. */
  lemma {:induction false} LookupRaw(ps: seq<Pair>, vs: seq<Value>, k: byte)
    requires PairsExact(ps, vs)
    ensures RawOf(ps, k).Some? <==> Lookup(Flat(ps, vs), k).Some?
    ensures RawOf(ps, k).Some? ==> Exact(RawOf(ps, k).value, Lookup(Flat(ps, vs), k).value)
  {
    hide Parse;
    if |ps| > 0 {
      LookupRaw(ps[1..], vs[1..], k);
      assert Flat(ps, vs)[2..] == Flat(ps[1..], vs[1..]);
    }
  }

  /** The key object, unless it is a name, and the tuple are each one MessagePack value. */
  predicate Sound(r: Req)
  {
    && Legit(r) && Writable(r)
    && (r.key.Some? ==> if Named(r.tp) then |r.key.value| < TWO32 else Parse(r.key.value).Parsed? && Parse(r.key.value).len == |r.key.value|)
    && (r.tuple.Some? ==> Parse(r.tuple.value).Parsed? && Parse(r.tuple.value).len == |r.tuple.value|)
  }

  predicate RawExact(ps: seq<Pair>)
  {
    forall i :: 0 <= i < |ps| ==> Parse(ps[i].raw).Parsed? && Parse(ps[i].raw).len == |ps[i].raw|
  }

  lemma OptionalExact(present: bool, key: byte, n: u64)
    ensures RawExact(Optional(present, key, n))
    ensures |PairsBytes(Optional(present, key, n))| <= 18
  {
    hide Parse;
    EncodeExact(Packed, UInt(n));
    if present { PairsOne(Pair(key, EncUint(n))); }
  }

  lemma {:induction false} NumbersExact(r: Req)
    ensures RawExact(NumberPairs(r)) && |PairsBytes(NumberPairs(r))| <= 90
  {
    hide Parse, Optional, PairsBytes;
    var a, b := Optional(Spaced(r.tp), SPACE, r.space), Optional(r.index != 0 && Indexed(r.tp), INDEX, r.index);
    var c, d := Optional(r.tp == OP_SELECT, LIMIT, r.limit), Optional(r.offset != 0 && r.tp == OP_SELECT, OFFSET, r.offset);
    var e := Optional(r.iter != 0 && r.tp == OP_SELECT, ITERATOR, r.iter);
    OptionalExact(Spaced(r.tp), SPACE, r.space);
    OptionalExact(r.index != 0 && Indexed(r.tp), INDEX, r.index);
    OptionalExact(r.tp == OP_SELECT, LIMIT, r.limit);
    OptionalExact(r.offset != 0 && r.tp == OP_SELECT, OFFSET, r.offset);
    OptionalExact(r.iter != 0 && r.tp == OP_SELECT, ITERATOR, r.iter);
    PairsAppend(a, b);
    PairsAppend(a + b, c);
    PairsAppend(a + b + c, d);
    PairsAppend(a + b + c + d, e);
  }

  lemma {:induction false} TailExact(r: Req)
    requires Sound(r)
    ensures RawExact(KeyPairs(r)) && RawExact(TuplePairs(r))
    ensures |PairsBytes(KeyPairs(r))| <= 20 + SizeOf(r.key) && |PairsBytes(TuplePairs(r))| <= 20 + SizeOf(r.tuple)
  {
    hide Parse, EncHead;
    if r.key.Some? {
      PairsOne(KeyPairs(r)[0]);
      if Named(r.tp) { EncodeExact(Packed, Str(r.key.value)); }
      assert [] + r.key.value == r.key.value;
      OneExact(KeyPairs(r)[0]);
    }
    if r.tuple.Some? {
      PairsOne(TuplePairs(r)[0]);
      OneExact(TuplePairs(r)[0]);
    }
  }

  lemma OneExact(p: Pair)
    requires Parse(p.raw).Parsed? && Parse(p.raw).len == |p.raw|
    ensures RawExact([p])
  {
  }

  lemma {:induction false} AllExact(r: Req)
    requires Sound(r)
    ensures RawExact(Pairs(r)) && |PairsBytes(Pairs(r))| < TWO63 + 200
  {
    hide Parse, NumberPairs, KeyPairs, TuplePairs, PairsBytes;
    NumbersExact(r);
    TailExact(r);
    OptionalExact(r.indexBase != 0 && Based(r.tp), INDEX_BASE, r.indexBase % TWO64);
    PairsAppend(NumberPairs(r), KeyPairs(r));
    PairsAppend(NumberPairs(r) + KeyPairs(r), TuplePairs(r));
    PairsAppend(NumberPairs(r) + KeyPairs(r) + TuplePairs(r), BasePairs(r));
  }

  function Values(ps: seq<Pair>): (vs: seq<Value>)
    requires RawExact(ps)
    ensures PairsExact(ps, vs)
  {
    seq(|ps|, i requires 0 <= i < |ps| => Parse(ps[i].raw).v)
  }

  /** Round trip: the reader of a request finds its type, its sync, and under every key exactly the field
      the request carries there; the map has one entry a field and its count fits one byte. */
  lemma {:induction false} RequestReadsBack(r: Req, sync: u64) returns (flat: seq<Value>)
    requires Sound(r)
    ensures FrameReads(Packet(r.tp, sync, Pairs(r)), HeaderValue(r.tp, sync), Map(flat))
    ensures |flat| == 2 * |Pairs(r)| && |EncHead(KMap, |Pairs(r)|)| == 1
    ensures forall k: byte :: Carries(r, k).Some? <==> Lookup(flat, k).Some?
    ensures forall k: byte :: Carries(r, k).Some? ==> Exact(Carries(r, k).value, Lookup(flat, k).value)
  {
    hide Parse, Packet, Pairs, HeaderValue, PairsBytes, FrameReads;
    AllExact(r);
    var vs := Values(Pairs(r));
    flat := Flat(Pairs(r), vs);
    SmallMap(|Pairs(r)|);
    PacketSize(r.tp, sync, Pairs(r));
    PacketReads(r.tp, sync, Pairs(r), vs);
    forall k: byte
      ensures Carries(r, k).Some? <==> Lookup(flat, k).Some?
      ensures Carries(r, k).Some? ==> Exact(Carries(r, k).value, Lookup(flat, k).value)
    {
      PairsCarry(r, k);
      LookupRaw(Pairs(r), vs, k);
    }
  }

  lemma PacketSize(code: u32, sync: u64, ps: seq<Pair>)
    requires |ps| <= 8
    ensures |HeaderBytes(code, sync) + Body(ps)| <= 100 + |PairsBytes(ps)|
  {
    hide EncHead, EncUint;
  }

  // ---------------------------------------------------------------- both encoders agree

  /** Byte for byte: insert, replace, call, call_16, eval and ping. */
  lemma SameBytes(r: Req, sync: u64)
    requires Writable(r)
    ensures (r.tp == OP_INSERT || r.tp == OP_REPLACE) && r.key.None? && r.tuple.Some? ==>
              Packet(r.tp, sync, Pairs(r)) == Packet(r.tp, sync, StorePairs(r.space, r.tuple.value))
    ensures Named(r.tp) && r.key.Some? && r.tuple.Some? ==>
              Packet(r.tp, sync, Pairs(r)) == Packet(r.tp, sync, RpcPairs(r.tp, r.key.value, r.tuple.value))
    ensures r.tp == OP_PING && r.key.None? && r.tuple.None? ==>
              Packet(r.tp, sync, Pairs(r)) == Packet(r.tp, sync, [])
  {
    hide Packet, EncUint, EncHead;
    if (r.tp == OP_INSERT || r.tp == OP_REPLACE) && r.key.None? && r.tuple.Some? {
      assert Pairs(r) == StorePairs(r.space, r.tuple.value);
    } else if Named(r.tp) && r.key.Some? && r.tuple.Some? {
      assert Pairs(r) == RpcPairs(r.tp, r.key.value, r.tuple.value);
    }
  }

  /** The value the server uses when an optional key is absent. */
  function OrDefault(raw: Option<bytes>, k: byte): Option<bytes>
  {
    if raw.None? && (k == INDEX || k == OFFSET || k == ITERATOR) then Some(EncUint(0)) else raw
  }

  /** Field for field, after defaults: select, delete, update and upsert. */
  lemma {:induction false} SameSelect(r: Req, k: byte)
    requires r.tp == OP_SELECT && r.key.Some? && r.tuple.None? && r.iter < 0x100
    ensures OrDefault(RawOf(Pairs(r), k), k)
            == OrDefault(RawOf(SelectPairs(r.space, r.index, r.limit, r.offset, r.iter, r.key.value), k), k)
  {
    hide RawOf, EncUint, Pairs;
    PairsCarry(r, k);
    assert [] + r.key.value == r.key.value;
    var a, b, c := [Pair(SPACE, EncUint(r.space))], [Pair(INDEX, EncUint(r.index))], [Pair(LIMIT, EncUint(r.limit))];
    var d, e, f := [Pair(OFFSET, EncUint(r.offset))], [Pair(ITERATOR, EncUint(r.iter))], [Pair(KEY, r.key.value)];
    RawSnoc(a + b + c + d + e, f[0], k);
    RawSnoc(a + b + c + d, e[0], k);
    RawSnoc(a + b + c, d[0], k);
    RawSnoc(a + b, c[0], k);
    RawSnoc(a, b[0], k);
    RawOne(a[0], k);
  }

  lemma RawSnoc(a: seq<Pair>, p: Pair, k: byte)
    ensures RawOf(a + [p], k) == if p.key == k then Some(p.raw) else RawOf(a, k)
  {
    RawAppend(a, [p], k);
    RawOne(p, k);
  }

  lemma {:induction false} SameDelete(r: Req, k: byte)
    requires r.tp == OP_DELETE && r.key.Some? && r.tuple.None?
    ensures OrDefault(RawOf(Pairs(r), k), k) == OrDefault(RawOf(DeletePairs(r.space, r.index, r.key.value), k), k)
  {
    hide RawOf, EncUint, Pairs;
    PairsCarry(r, k);
    assert [] + r.key.value == r.key.value;
    var a, b := [Pair(SPACE, EncUint(r.space))], [Pair(INDEX, EncUint(r.index))];
    RawSnoc(a + b, Pair(KEY, r.key.value), k);
    RawSnoc(a, b[0], k);
    RawOne(a[0], k);
  }

  lemma {:induction false} SameUpdate(r: Req, k: byte)
    requires r.tp == OP_UPDATE && r.key.Some? && r.tuple.Some? && r.indexBase == 0
    ensures OrDefault(RawOf(Pairs(r), k), k)
            == OrDefault(RawOf(UpdatePairs(r.space, r.index, r.key.value, r.tuple.value), k), k)
  {
    hide RawOf, EncUint, Pairs;
    PairsCarry(r, k);
    assert [] + r.key.value == r.key.value;
    var a, b, c := [Pair(SPACE, EncUint(r.space))], [Pair(INDEX, EncUint(r.index))], [Pair(KEY, r.key.value)];
    RawSnoc(a + b + c, Pair(TUPLE, r.tuple.value), k);
    RawSnoc(a + b, c[0], k);
    RawSnoc(a, b[0], k);
    RawOne(a[0], k);
  }

  /** An upsert request holds its operations as the key; the two encoders order the entries differently. */
  lemma {:induction false} SameUpsert(r: Req, k: byte)
    requires r.tp == OP_UPSERT && r.key.Some? && r.tuple.Some? && r.indexBase == 0
    ensures RawOf(Pairs(r), k) == RawOf(UpsertPairs(r.space, r.tuple.value, r.key.value), k)
  {
    hide RawOf, EncUint, Pairs;
    PairsCarry(r, k);
    assert [] + r.key.value == r.key.value;
    var a, b := [Pair(SPACE, EncUint(r.space))], [Pair(TUPLE, r.tuple.value)];
    RawSnoc(a + b, Pair(OPS, r.key.value), k);
    RawSnoc(a, b[0], k);
    RawOne(a[0], k);
  }
}
