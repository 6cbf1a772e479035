/** IPROTO constants, request framing, and what a request means to its reader. */
module Protocol {
  import opened Seqs
  import opened MsgPack
  import opened Wrappers

  // `enum tnt_header_key_t`
  const CODE: byte := 0x00
  const SYNC: byte := 0x01
  const SCHEMA_ID: byte := 0x05

  // `enum tnt_body_key_t`
  const SPACE: byte := 0x10
  const INDEX: byte := 0x11
  const LIMIT: byte := 0x12
  const OFFSET: byte := 0x13
  const ITERATOR: byte := 0x14
  const INDEX_BASE: byte := 0x15
  const KEY: byte := 0x20
  const TUPLE: byte := 0x21
  const FUNCTION: byte := 0x22
  const EXPRESSION: byte := 0x27
  const OPS: byte := 0x28

  // `enum tnt_response_key_t` and `enum tnt_response_type_t`
  const DATA: byte := 0x30
  const ERROR: byte := 0x31
  const METADATA: byte := 0x32
  const SQL_INFO: byte := 0x42
  const CHUNK: nat := 0x80

  // `enum tnt_request_t`
  const OP_SELECT: u32 := 1
  const OP_INSERT: u32 := 2
  const OP_REPLACE: u32 := 3
  const OP_UPDATE: u32 := 4
  const OP_DELETE: u32 := 5
  const OP_CALL_16: u32 := 6
  const OP_EVAL: u32 := 8
  const OP_UPSERT: u32 := 9
  const OP_CALL: u32 := 10
  const OP_PING: u32 := 64

  // ---------------------------------------------------------------- frames

  /** `mp_encode_luint32`: the length prefix is 5 bytes, or 9 for huge packets. */
  function LongUint(n: nat): (s: bytes)
    ensures |s| == LongUintSize(n)
  {
    if n < TWO32 then [0xce] + BE(n, 4) else [0xcf] + BE(n, 8)
  }

  /** `mp_sizeof_luint32` */
  function LongUintSize(n: nat): nat
  {
    if n < TWO32 then 5 else 9
  }

  function Framed(payload: bytes): bytes
  {
    LongUint(|payload|) + payload
  }

  /** `encode_header` */
  function HeaderBytes(code: u32, sync: u64): bytes
  {
    EncHead(KMap, 2) + EncUint(CODE) + EncUint(code) + EncUint(SYNC) + EncUint(sync)
  }

  /** One entry of a request body: a key and the encoding of its value. */
  datatype Pair = Pair(key: byte, raw: bytes)

  function PairBytes(p: Pair): bytes
  {
    EncUint(p.key) + p.raw
  }

  function PairsBytes(ps: seq<Pair>): bytes
  {
    if |ps| == 0 then [] else PairBytes(ps[0]) + PairsBytes(ps[1..])
  }

  lemma PairsNone(hd: bytes)
    ensures PairsBytes([]) == [] && hd + PairsBytes([]) == hd
  {
  }

  lemma {:induction false} PairsAppend(a: seq<Pair>, b: seq<Pair>)
    ensures PairsBytes(a + b) == PairsBytes(a) + PairsBytes(b)
  {
    hide PairBytes;
    if |a| == 0 {
      assert a + b == b;
    } else {
      assert (a + b)[1..] == a[1..] + b;
      PairsAppend(a[1..], b);
    }
  }

  lemma PairsSnoc(a: seq<Pair>, p: Pair)
    ensures PairsBytes(a + [p]) == PairsBytes(a) + PairBytes(p)
  {
    hide PairBytes;
    PairsAppend(a, [p]);
    assert [p][1..] == [];
  }

  function Body(ps: seq<Pair>): bytes
    requires |ps| < TWO32
  {
    EncHead(KMap, |ps|) + PairsBytes(ps)
  }

  /** A whole request on the wire. */
  function Packet(code: u32, sync: u64, ps: seq<Pair>): bytes
    requires |ps| < TWO32
  {
    Framed(HeaderBytes(code, sync) + Body(ps))
  }

  // ---------------------------------------------------------------- reading frames

  /** What a reader of one frame sees: the length prefix covers exactly the rest, which is a header value
      followed by a body value and nothing else. */
  predicate FrameReads(s: bytes, header: Value, body: Value)
  {
    var h := ParseHead(s);
    && h.Head? && h.kind == KUInt && h.arg == |s| - h.len
    && Parse(s[h.len..]).Parsed? && Parse(s[h.len..]).v == header
    && Exact(s[h.len..][Parse(s[h.len..]).len..], body)
  }

  /** Pairs whose raw parts encode the given values. */
  predicate PairsExact(ps: seq<Pair>, vs: seq<Value>)
  {
    |ps| == |vs| && forall i :: 0 <= i < |ps| ==> Exact(ps[i].raw, vs[i])
  }

  function Flat(ps: seq<Pair>, vs: seq<Value>): (flat: seq<Value>)
    requires |ps| == |vs|
    ensures |flat| == 2 * |ps|
  {
    if |ps| == 0 then [] else [UInt(ps[0].key), vs[0]] + Flat(ps[1..], vs[1..])
  }

  lemma {:induction false} FlatAt(ps: seq<Pair>, vs: seq<Value>, i: nat)
    requires |ps| == |vs| && i < |ps|
    ensures Flat(ps, vs)[2 * i] == UInt(ps[i].key) && Flat(ps, vs)[2 * i + 1] == vs[i]
  {
    if i > 0 { FlatAt(ps[1..], vs[1..], i - 1); }
  }

  function Flatten(ps: seq<Pair>): (pieces: seq<bytes>)
    ensures |pieces| == 2 * |ps|
  {
    if |ps| == 0 then [] else [EncUint(ps[0].key), ps[0].raw] + Flatten(ps[1..])
  }

  lemma {:induction false} FlattenExact(ps: seq<Pair>, vs: seq<Value>)
    requires PairsExact(ps, vs)
    ensures ExactAll(Flatten(ps), Flat(ps, vs)) && Concat(Flatten(ps)) == PairsBytes(ps)
  {
    hide Parse, EncHead;
    if |ps| > 0 {
      FlattenExact(ps[1..], vs[1..]);
      EncodeExact(Packed, UInt(ps[0].key));
      var two, rest := [EncUint(ps[0].key), ps[0].raw], Flatten(ps[1..]);
      ConcatAppend(two, rest);
      assert two[1..] == [ps[0].raw] && [ps[0].raw][1..] == [];
      assert Concat([ps[0].raw]) == ps[0].raw;
    }
  }

  lemma {:induction false} ParseLongUint(n: u64, rest: bytes)
    ensures ParseHead(LongUint(n) + rest) == Head(KUInt, n, LongUintSize(n))
  {
    PowValues();
    ParseWide(if n < TWO32 then 0xce else 0xcf, n, rest);
  }

  function HeaderValue(code: u32, sync: u64): Value
  {
    Map([UInt(CODE), UInt(code), UInt(SYNC), UInt(sync)])
  }

  lemma {:induction false} HeaderExact(code: u32, sync: u64)
    ensures Exact(HeaderBytes(code, sync), HeaderValue(code, sync))
  {
    hide EncHead, Parse;
    var ps := [Pair(CODE, EncUint(code)), Pair(SYNC, EncUint(sync))];
    var vs := [UInt(code), UInt(sync)];
    EncodeExact(Packed, vs[0]);
    EncodeExact(Packed, vs[1]);
    assert ps[1..] == [ps[1]] && [ps[1]][1..] == [] && vs[1..] == [vs[1]] && [vs[1]][1..] == [];
    FlattenExact(ps, vs);
    assert Flat(ps[1..], vs[1..]) == [UInt(SYNC), vs[1]] by { assert Flat([], []) == []; }
    assert Flat(ps, vs) == [UInt(CODE), UInt(code), UInt(SYNC), UInt(sync)];
    ExactContainer(Packed, KMap, 2, Flatten(ps), Flat(ps, vs));
    assert PairsBytes(ps) == PairBytes(ps[0]) + PairBytes(ps[1]) by { PairsSnoc([ps[0]], ps[1]); PairsSnoc([], ps[0]); assert [] + [ps[0]] == [ps[0]]; }
    HeaderShape(EncHead(KMap, 2), EncUint(CODE), EncUint(code), EncUint(SYNC), EncUint(sync));
  }

  lemma HeaderShape(a: bytes, b: bytes, c: bytes, d: bytes, e: bytes)
    ensures a + b + c + d + e == a + ((b + c) + (d + e))
  {
  }

  /** Every packet reads back as its type, its sync and its body map; the length prefix is exact. */
  lemma {:induction false} PacketReads(code: u32, sync: u64, ps: seq<Pair>, vs: seq<Value>)
    requires PairsExact(ps, vs) && |ps| < TWO32 && |HeaderBytes(code, sync) + Body(ps)| < TWO64
    ensures FrameReads(Packet(code, sync, ps), HeaderValue(code, sync), Map(Flat(ps, vs)))
  {
    hide EncHead, Parse, HeaderBytes, HeaderValue;
    var hd, body := HeaderBytes(code, sync), Body(ps);
    FlattenExact(ps, vs);
    ExactContainer(Packed, KMap, |ps|, Flatten(ps), Flat(ps, vs));
    HeaderExact(code, sync);
    ExactPrefix(hd, HeaderValue(code, sync), body);
    ParseLongUint(|hd + body|, hd + body);
    var n := LongUintSize(|hd + body|);
    assert Packet(code, sync, ps)[n..] == hd + body;
    assert (hd + body)[|hd|..] == body;
  }

  // ---------------------------------------------------------------- maps

  /** The value a map holds for an unsigned key: the last one wins. Keys are read into 32 bits. */
  function Lookup(flat: seq<Value>, k: nat): Option<Value>
  {
    if |flat| < 2 then None
    else
      var later := Lookup(flat[2..], k);
      if later.Some? then later
      else if flat[0].UInt? && flat[0].n % TWO32 == k then Some(flat[1])
      else None
  }

  lemma {:induction false} LookupAppend(a: seq<Value>, b: seq<Value>, k: nat)
    requires |a| % 2 == 0
    ensures Lookup(a + b, k) == if Lookup(b, k).Some? then Lookup(b, k) else Lookup(a, k)
  {
    if |a| == 0 {
      assert a + b == b;
    } else {
      assert (a + b)[2..] == a[2..] + b;
      LookupAppend(a[2..], b, k);
    }
  }
}
