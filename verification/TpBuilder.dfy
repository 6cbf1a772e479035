/** The request builder of `include/tp.h`: requests are appended to one buffer that may move whenever it
    grows, while interior pointers to the length and sync fields of the current request stay in use. */
module TpBuilder {
  import opened Seqs
  import opened MsgPack
  import opened Protocol

  // ---------------------------------------------------------------- what the buffer holds

  datatype Req = Req(code: u32, sync: u32, body: bytes)

  /** The header up to the sync. */
  function Keys(code: u32): bytes
  {
    EncHead(KMap, 2) + EncUint(CODE) + EncUint(code) + EncUint(SYNC)
  }

  /** Where the sync field starts after the length field. */
  function SyncAt(code: u32): nat
  {
    |Keys(code)|
  }

  /** The request header: unlike `encode_header` of the newer builders, the sync always takes five bytes. */
  function Opening(code: u32, sync: u32): (s: bytes)
    ensures |s| == SyncAt(code) + 5
  {
    Keys(code) + ([0xce] + BE(sync, 4))
  }

  function Content(r: Req): bytes
  {
    Opening(r.code, r.sync) + r.body
  }

  /** A 32-bit length field and the bytes it counts. */
  function LengthField(n: nat): (s: bytes)
    ensures |s| == 5
  {
    [0xce] + BE(n % TWO32, 4)
  }

  function Frame(r: Req): bytes
  {
    LengthField(|Content(r)|) + Content(r)
  }

  function Frames(rs: seq<Req>): bytes
  {
    if |rs| == 0 then [] else Frame(rs[0]) + Frames(rs[1..])
  }

  lemma {:induction false} FramesAppend(a: seq<Req>, b: seq<Req>)
    ensures Frames(a + b) == Frames(a) + Frames(b)
  {
    hide Frame;
    if |a| == 0 {
      assert a + b == b;
    } else {
      assert (a + b)[1..] == a[1..] + b;
      FramesAppend(a[1..], b);
    }
  }

  lemma FramesSnoc(rs: seq<Req>, r: Req)
    ensures Frames(rs + [r]) == Frames(rs) + Frame(r)
  {
    hide Frame;
    FramesAppend(rs, [r]);
    assert [r][1..] == [];
  }

  /** More body for the current request. */
  function Extend(rs: seq<Req>, chunk: bytes): seq<Req>
    requires |rs| > 0
  {
    Init(rs) + [Last(rs).(body := Last(rs).body + chunk)]
  }

  /** Another sync for the current request. */
  function Number(rs: seq<Req>, sync: u32): seq<Req>
    requires |rs| > 0
  {
    Init(rs) + [Last(rs).(sync := sync)]
  }

  lemma LastFrame(rs: seq<Req>)
    requires |rs| > 0
    ensures Frames(rs) == Frames(Init(rs)) + Frame(Last(rs)) && |Frame(Last(rs))| >= 5
  {
    assert rs == Init(rs) + [Last(rs)];
    FramesSnoc(Init(rs), Last(rs));
  }

  /** What `tp_add` makes of a buffer whose length field is at `at`. */
  function Measured(u: bytes, at: nat): (m: bytes)
    requires at + 5 <= |u|
    ensures |m| == |u|
  {
    u[..at] + LengthField(|u| - at - 5) + u[at + 5..]
  }

  /** A payload written behind five unset bytes becomes a frame; earlier frames keep every byte. */
  lemma Opened(rs: seq<Req>, junk: bytes, r: Req)
    requires |junk| == 5
    ensures Measured(Frames(rs) + (junk + Content(r)), |Frames(rs)|) == Frames(rs + [r])
  {
    hide Content, LengthField;
    var u := Frames(rs) + (junk + Content(r));
    var at := |Frames(rs)|;
    assert u[..at] == Frames(rs) && u[at + 5..] == Content(r);
    FramesSnoc(rs, r);
    Assoc(Frames(rs), LengthField(|Content(r)|), Content(r));
  }

  /** Bytes written behind the buffer extend the current request only. */
  lemma Extended(rs: seq<Req>, chunk: bytes)
    requires |rs| > 0
    ensures |Frames(Init(rs))| + 5 <= |Frames(rs) + chunk|
    ensures Measured(Frames(rs) + chunk, |Frames(Init(rs))|) == Frames(Extend(rs, chunk))
  {
    hide LengthField, Opening;
    LastFrame(rs);
    var junk, last := LengthField(|Content(Last(rs))|), Last(rs).(body := Last(rs).body + chunk);
    assert Content(last) == Content(Last(rs)) + chunk by { Assoc(Opening(last.code, last.sync), Last(rs).body, chunk); }
    assert Frames(rs) + chunk == Frames(Init(rs)) + (junk + Content(last));
    Opened(Init(rs), junk, last);
  }

  /** What `tp_reqid` makes of a buffer whose sync field is at `at`. */
  function Numbered(u: bytes, at: nat, sync: u32): bytes
    requires at + 5 <= |u|
  {
    u[..at] + ([0xce] + BE(sync, 4)) + u[at + 5..]
  }

  lemma PatchMiddle(a: bytes, x: bytes, y: bytes, b: bytes)
    requires |x| == |y|
    ensures (a + x + b)[..|a|] + y + (a + x + b)[|a| + |x|..] == a + y + b
  {
    assert (a + x + b)[..|a|] == a && (a + x + b)[|a| + |x|..] == b;
  }

  lemma Unnest(f: bytes, l: bytes, h: bytes, x: bytes, b: bytes)
    ensures f + (l + (h + x + b)) == f + l + h + x + b
  {
  }

  lemma NumberedFrames(rs: seq<Req>, sync: u32)
    requires |rs| > 0
    ensures var at := |Frames(Init(rs))| + 5 + SyncAt(Last(rs).code);
            at + 5 <= |Frames(rs)| && Numbered(Frames(rs), at, sync) == Frames(Number(rs, sync))
  {
    hide LengthField, EncHead, EncUint, BE, Frames;
    LastFrame(rs);
    var r, r' := Last(rs), Last(rs).(sync := sync);
    FramesSnoc(Init(rs), r');
    var f, l := Frames(Init(rs)), LengthField(|Content(r)|);
    var h := Keys(r.code);
    Unnest(f, l, h, [0xce] + BE(r.sync, 4), r.body);
    Unnest(f, l, h, [0xce] + BE(sync, 4), r.body);
    PatchMiddle(f + l + h, [0xce] + BE(r.sync, 4), [0xce] + BE(sync, 4), r.body);
  }

  lemma NumberPoints(rs: seq<Req>, sync: u32)
    requires |rs| > 0
    ensures var rs' := Number(rs, sync); |rs'| == |rs| && Init(rs') == Init(rs) && Last(rs').code == Last(rs).code
  {
  }

  // ---------------------------------------------------------------- bodies

  function PingBody(): bytes
  {
    EncHead(KMap, 0)
  }

  /** The key is to be appended by the caller. */
  function SelectBody(space: u32, index: u32, offset: u32, iter: u32, limit: u32): bytes
  {
    EncHead(KMap, 6) + EncUint(SPACE) + EncUint(space) + EncUint(INDEX) + EncUint(index)
    + EncUint(OFFSET) + EncUint(offset) + EncUint(LIMIT) + EncUint(limit)
    + EncUint(ITERATOR) + EncUint(iter) + EncUint(KEY)
  }

  /** A body that starts with the space: of a store (2 pairs, the tuple is to be appended by the caller) or
      of an update (3 pairs; the key and, through `tp_updatebegin`, the operations are to be appended). */
  function SpaceBody(pairs: u32, space: u32, key: byte): (b: bytes)
    ensures |b| == |EncHead(KMap, pairs)| + |EncUint(SPACE)| + |EncUint(space)| + |EncUint(key)|
  {
    EncHead(KMap, pairs) + EncUint(SPACE) + EncUint(space) + EncUint(key)
  }

  function StoreBody(space: u32): bytes
  {
    SpaceBody(2, space, TUPLE)
  }

  function UpdateBody(space: u32): bytes
  {
    SpaceBody(3, space, KEY)
  }

  /** The arguments are to be appended by the caller; `key` is FUNCTION or EXPRESSION. */
  function CallBody(key: byte, name: bytes): (b: bytes)
    requires |name| < TWO32
    ensures |b| == |EncHead(KMap, 2)| + |EncUint(key)| + (|EncHead(KStr, |name|)| + |name|) + |EncUint(TUPLE)|
  {
    EncHead(KMap, 2) + EncUint(key) + (EncHead(KStr, |name|) + name) + EncUint(TUPLE)
  }

  /** An update operation; its argument is to be appended by the caller. */
  function OpBytes(op: byte, field: u32): bytes
  {
    EncHead(KArray, 3) + (EncHead(KStr, 1) + [op]) + EncUint(field)
  }

  // ---------------------------------------------------------------- room

  /** `tp_realloc`: the size of the new buffer. */
  function Grown(size: nat, required: nat): nat
  {
    if 2 * size < required then size + required else 2 * size
  }

  /** The new buffer is large enough exactly when the doubled one is or was not used; in particular always
      when at most `size` bytes are asked for. */
  lemma GrownSuffices(size: nat, used: nat, required: nat)
    requires used <= size
    ensures used + required <= Grown(size, required) <==> required > 2 * size || used + required <= 2 * size
    ensures required <= size ==> used + required <= Grown(size, required)
  {
  }

  /** Doubling can fall short: ten full bytes and a request of fifteen. */
  lemma GrownFallsShort()
    ensures Grown(10, 15) == 20 && 10 + 15 > Grown(10, 15)
  {
  }

  // ---------------------------------------------------------------- the builder

  /** `struct tp`. Pointers are addresses, 0 is NULL; `block` is the memory from `s` to `e`. `reserve` is
      either `tp_realloc` or absent. */
  class Tp {
    var block: array<byte>
    var s: nat
    var p: nat
    var e: nat
    var size: nat
    var sync: nat
    const growing: bool
    ghost var requests: seq<Req>

    predicate Placed()
      reads this
    {
      s <= p <= e && e - s == block.Length && (e > s ==> s > 0)
    }

    /** The bytes up to an address. */
    function Upto(h: nat): (u: bytes)
      requires Placed() && s <= h <= e
      reads this, block
      ensures |u| == h - s
    {
      block[..h - s]
    }

    /** `tp_used` worth of bytes. */
    function Used(): bytes
      requires Placed()
      reads this, block
    {
      Upto(p)
    }

    ghost predicate Points()
      reads this
    {
      if |requests| == 0 then size == 0 && sync == 0
      else
        && size == s + |Frames(Init(requests))|
        && sync == size + 5 + SyncAt(Last(requests).code)
    }

    /** The buffer is the frames of the requests so far, and both pointers denote their places in the last
        of them, wherever the buffer is. */
    ghost predicate Valid()
      reads this, block
    {
      Placed() && Used() == Frames(requests) && Points()
    }

    /** `n` more bytes can be asked for: they fit, or the request is refused, or the new buffer holds them. */
    predicate Safe(n: nat)
      requires Placed()
      reads this
    {
      e - p >= n || !growing || p - s + n <= Grown(e - s, n)
    }

    /** `tp_init` */
    constructor (buf: array<byte>, at: nat, growing: bool)
      requires buf.Length > 0 ==> at > 0
      ensures Valid() && requests == [] && s == at && e - s == buf.Length && this.growing == growing && block == buf
    {
      block, s, p, e := buf, at, at, at + buf.Length;
      size, sync := 0, 0;
      this.growing := growing;
      requests := [];
    }

    /** The reserve callback `tp_realloc`: a block somewhere else that starts with the old contents. */
    method Reserve(required: nat) returns (np: nat, sz: nat, moved: array<byte>)
      requires Placed()
      ensures sz == moved.Length == Grown(e - s, required) >= e - s && np > 0 && fresh(moved)
      ensures moved[..p - s] == Used()
    {
      sz := Grown(e - s, required);
      np :| np > 0;
      moved := new byte[sz](_ => 0);
      forall i | 0 <= i < block.Length { moved[i] := block[i]; }
      assert moved[..p - s] == block[..p - s];
    }

    /** Both pointers lie behind the start of a buffer that is somewhere. */
    lemma Placement()
      requires Valid()
      ensures size != 0 ==> s > 0 && size >= s && sync >= size
      ensures size == 0 <==> |requests| == 0
      ensures sync == 0 <==> |requests| == 0
    {
      hide Frames, SyncAt;
      if |requests| > 0 {
        LastFrame(requests);
        assert p > s;
      }
    }

    /** `tp_ensure`. Across a move the contents and the offsets of both pointers stay the same. */
    method Ensure(n: nat) returns (rc: int)
      requires Valid()
      modifies this
      ensures Valid() && requests == old(requests) && (block == old(block) || fresh(block))
      ensures Used() == old(Used())
      ensures rc >= -1 && (rc == -1 <==> old(e - p) < n && !growing)
      ensures rc == 0 || rc == -1 <==> block == old(block)
      ensures rc == 0 || rc == -1 ==> s == old(s) && p == old(p) && e == old(e)
      ensures rc > 0 ==> rc == e - s == Grown(old(e - s), n)
      ensures rc >= 0 ==> (e - p >= n <==> old(Safe(n)))
    {
      hide Frames, SyncAt;
      if e - p >= n { return 0; }
      if !growing { return -1; }
      ghost var was := Used();
      var np, sz, moved := Reserve(n);
      Placement();
      if size != 0 { size := np + (size - s); }
      if sync != 0 { sync := np + (sync - s); }
      p := np + (p - s);
      s, e, block := np, np + sz, moved;
      assert Used() == was;
      return sz;
    }

    /** A `mp_encode_*` call: writes at `h`, returns the address behind. `done` is what has been written so
        far behind `base`. */
    method Put(h: nat, bs: bytes, ghost base: bytes, ghost done: bytes) returns (h': nat, ghost done': bytes)
      requires Placed() && p <= h && h + |bs| <= e && Upto(h) == base + done
      modifies block
      ensures h' == h + |bs| && Placed() && Upto(h') == base + done' && done' == done + bs
    {
      var at := h - s;
      forall i | 0 <= i < |bs| { block[at + i] := bs[i]; }
      assert block[..at] == old(block[..at]);
      done' := done + bs;
      Assoc(base, done, bs);
      return h + |bs|, done';
    }

    /** `tp_add`: takes the bytes written behind `p` in and updates the length field. */
    method Add(n: nat) returns (ptr: nat)
      requires Placed() && size != 0 && s <= size && size + 5 <= p + n <= e
      modifies this`p, block
      ensures ptr == old(p) && p == old(p) + n && Placed()
      ensures Used() == Measured(old(Upto(p + n)), size - s)
    {
      ghost var u := Upto(p + n);
      ptr := p;
      p := p + n;
      var field := LengthField(p - size - 5);
      var at := size - s;
      forall i | 0 <= i < 5 { block[at + i] := field[i]; }
      assert Used() == Measured(u, at);
    }

    /** `tpi_sizeof_header` */
    static function SizeofHeader(code: u32): (n: nat)
      ensures n == 5 + |Opening(code, 0)|
    {
      5 + |EncHead(KMap, 2)| + |EncUint(CODE)| + |EncUint(code)| + |EncUint(SYNC)| + 5
    }

    method PutKeys(h: nat, code: u32) returns (h': nat, ghost b: bytes)
      requires Placed() && p <= h && h + SyncAt(code) <= e
      modifies block
      ensures b == Keys(code)
      ensures h' == h + |b| && Placed() && Upto(h') == old(Upto(h)) + b
    {
      hide EncHead, EncUint;
      ghost var base := Upto(h);
      b := [];
      h', b := Put(h, EncHead(KMap, 2), base, b);
      assert b == EncHead(KMap, 2);
      h', b := Put(h', EncUint(CODE), base, b);
      h', b := Put(h', EncUint(code), base, b);
      h', b := Put(h', EncUint(SYNC), base, b);
    }

    /** `tpi_encode_header`: the length field stays unset until `tp_add`. */
    method EncodeHeader(code: u32) returns (h: nat, ghost junk: bytes)
      requires Valid() && p + SizeofHeader(code) <= e
      modifies this`size, this`sync, block
      ensures Placed() && h == p + SizeofHeader(code) && |junk| == 5
      ensures size == p && sync == p + 5 + SyncAt(code)
      ensures Upto(h) == old(Used()) + junk + Opening(code, 0)
    {
      hide EncHead, EncUint, BE, Frames, Keys;
      ghost var base, b := Upto(p + 5), [];
      size := p;
      junk := base[p - s..];
      assert base == Used() + junk;
      h, b := PutKeys(p + 5, code);
      sync := h;
      h, b := Put(h, [0xce] + BE(0, 4), base, b);
    }

    /** What a function that starts a request does: all of it, or nothing when there is no room and no way
        to get more. */
    twostate predicate Began(ptr: nat, r: Req)
      reads this
    {
      && (ptr == 0 <==> old(e - p) < SizeofHeader(r.code) + |r.body| && !growing)
      && requests == (if ptr == 0 then old(requests) else old(requests) + [r])
      && (block == old(block) || fresh(block))
    }

    /** The end of every function that starts a request: `tp_add` made `b` the body of a new request. */
    ghost method Started(code: u32, b: bytes, junk: bytes, was: bytes, before: nat)
      requires Placed() && |junk| == 5 && was == Frames(requests)
      requires before == s + |was| && size == before && sync == before + 5 + SyncAt(code)
      requires Used() == Measured(was + junk + Opening(code, 0) + b, |was|)
      modifies this`requests
      ensures Valid() && requests == old(requests) + [Req(code, 0, b)]
    {
      hide Opening, Frames, Measured;
      var r := Req(code, 0, b);
      assert was + junk + Opening(code, 0) + b == was + (junk + Content(r));
      Opened(requests, junk, r);
      requests := requests + [r];
      assert Init(requests) == old(requests);
    }

    /** The start of every function that starts a request: `tp_ensure` for all it is going to write, then
        the header; 0 when there is no room. */
    method Open(code: u32, n: nat) returns (h: nat, ghost junk: bytes)
      requires Valid() && n >= SizeofHeader(code) && Safe(n)
      modifies this, block
      ensures h == 0 <==> old(e - p) < n && !growing
      ensures h == 0 ==> Valid()
      ensures Placed() && requests == old(requests) && (block == old(block) || fresh(block))
      ensures h != 0 ==>
                && h == p + SizeofHeader(code) && p + n <= e && size == p && sync == p + 5 + SyncAt(code)
                && |junk| == 5 && p - s == |Frames(requests)|
                && Upto(h) == Frames(requests) + junk + Opening(code, 0)
    {
      hide EncHead, EncUint, BE, Frames, Opening, SizeofHeader, Grown, SyncAt, Safe, Points;
      var rc := Ensure(n);
      if rc == -1 { return 0, []; }
      h, junk := EncodeHeader(code);
    }

    /** The end of every function that starts a request: `tp_add` over a header and a body. */
    method Close(code: u32, n: nat, ghost b: bytes, ghost junk: bytes) returns (ptr: nat)
      requires Placed() && n == SizeofHeader(code) + |b| && p + n <= e && p > 0
      requires size == p && sync == p + 5 + SyncAt(code) && |junk| == 5 && p - s == |Frames(requests)|
      requires Upto(p + n) == Frames(requests) + junk + Opening(code, 0) + b
      modifies this, block
      ensures Valid() && requests == old(requests) + [Req(code, 0, b)] && ptr == old(p) && block == old(block)
    {
      hide EncHead, EncUint, BE, Frames, Opening, Measured, SyncAt;
      ghost var was, before := Frames(requests), p;
      ptr := Add(n);
      Started(code, b, junk, was, before);
    }

    /** `tp_ping` */
    method Ping() returns (ptr: nat)
      requires Valid() && Safe(SizeofHeader(OP_PING) + |PingBody()|)
      modifies this, block
      ensures Valid() && Began(ptr, Req(OP_PING, 0, PingBody()))
    {
      hide EncHead, EncUint, BE, Frames, Opening, SizeofHeader, Grown, SyncAt, Safe, Points;
      var hsz, sz := SizeofHeader(OP_PING), |EncHead(KMap, 0)|;
      var h, junk := Open(OP_PING, sz + hsz);
      if h == 0 { return 0; }
      ghost var b := PingBody();
      h, b := Put(h, EncHead(KMap, 0), Upto(h), []);
      assert b == PingBody();
      ptr := Close(OP_PING, sz + hsz, b, junk);
    }

    method PutSelect(h: nat, space: u32, index: u32, offset: u32, iter: u32, limit: u32)
      returns (h': nat, ghost b: bytes)
      requires Placed() && p <= h && h + |SelectBody(space, index, offset, iter, limit)| <= e
      modifies block
      ensures b == SelectBody(space, index, offset, iter, limit)
      ensures h' == h + |b| && Placed() && Upto(h') == old(Upto(h)) + b
    {
      hide EncHead, EncUint;
      ghost var base := Upto(h);
      b := [];
      h', b := Put(h, EncHead(KMap, 6), base, b);
      assert b == EncHead(KMap, 6);
      h', b := Put(h', EncUint(SPACE), base, b);
      h', b := Put(h', EncUint(space), base, b);
      h', b := Put(h', EncUint(INDEX), base, b);
      h', b := Put(h', EncUint(index), base, b);
      h', b := Put(h', EncUint(OFFSET), base, b);
      h', b := Put(h', EncUint(offset), base, b);
      h', b := Put(h', EncUint(LIMIT), base, b);
      h', b := Put(h', EncUint(limit), base, b);
      h', b := Put(h', EncUint(ITERATOR), base, b);
      h', b := Put(h', EncUint(iter), base, b);
      h', b := Put(h', EncUint(KEY), base, b);
    }

    /** `tp_select` */
    method Select(space: u32, index: u32, offset: u32, iter: u32, limit: u32) returns (ptr: nat)
      requires Valid() && Safe(SizeofHeader(OP_SELECT) + |SelectBody(space, index, offset, iter, limit)|)
      modifies this, block
      ensures Valid() && Began(ptr, Req(OP_SELECT, 0, SelectBody(space, index, offset, iter, limit)))
    {
      hide EncHead, EncUint, BE, Frames, Opening, SizeofHeader, Grown, SyncAt, Safe, Points;
      var hsz := SizeofHeader(OP_SELECT);
      var sz := |EncHead(KMap, 6)| + |EncUint(SPACE)| + |EncUint(space)| + |EncUint(INDEX)| + |EncUint(index)|
                + |EncUint(OFFSET)| + |EncUint(offset)| + |EncUint(LIMIT)| + |EncUint(limit)|
                + |EncUint(ITERATOR)| + |EncUint(iter)| + |EncUint(KEY)|;
      var h, junk := Open(OP_SELECT, sz + hsz);
      if h == 0 { return 0; }
      ghost var b;
      h, b := PutSelect(h, space, index, offset, iter, limit);
      ptr := Close(OP_SELECT, sz + hsz, b, junk);
    }

    method PutSpace(h: nat, pairs: u32, space: u32, key: byte) returns (h': nat, ghost b: bytes)
      requires Placed() && p <= h && h + |SpaceBody(pairs, space, key)| <= e
      modifies block
      ensures b == SpaceBody(pairs, space, key)
      ensures h' == h + |b| && Placed() && Upto(h') == old(Upto(h)) + b
    {
      hide EncHead, EncUint;
      ghost var base := Upto(h);
      b := [];
      h', b := Put(h, EncHead(KMap, pairs), base, b);
      assert b == EncHead(KMap, pairs);
      h', b := Put(h', EncUint(SPACE), base, b);
      h', b := Put(h', EncUint(space), base, b);
      h', b := Put(h', EncUint(key), base, b);
    }

    /** `tp_insert` and `tp_replace` */
    method Store(code: u32, space: u32) returns (ptr: nat)
      requires Valid() && Safe(SizeofHeader(code) + |StoreBody(space)|)
      modifies this, block
      ensures Valid() && Began(ptr, Req(code, 0, StoreBody(space)))
    {
      hide SpaceBody, CallBody, EncHead, EncUint, BE, Frames, Opening, SizeofHeader, Grown, SyncAt, Safe, Points;
      var hsz, sz := SizeofHeader(code), |EncHead(KMap, 2)| + |EncUint(SPACE)| + |EncUint(space)| + |EncUint(TUPLE)|;
      var h, junk := Open(code, sz + hsz);
      if h == 0 { return 0; }
      ghost var b;
      h, b := PutSpace(h, 2, space, TUPLE);
      ptr := Close(code, sz + hsz, b, junk);
    }

    method PutCall(h: nat, key: byte, name: bytes) returns (h': nat, ghost b: bytes)
      requires |name| < TWO31
      requires Placed() && p <= h && h + |CallBody(key, name)| <= e
      modifies block
      ensures b == CallBody(key, name)
      ensures h' == h + |b| && Placed() && Upto(h') == old(Upto(h)) + b
    {
      hide EncHead, EncUint;
      ghost var base := Upto(h);
      b := [];
      h', b := Put(h, EncHead(KMap, 2), base, b);
      assert b == EncHead(KMap, 2);
      h', b := Put(h', EncUint(key), base, b);
      h', b := Put(h', EncHead(KStr, |name|) + name, base, b);
      h', b := Put(h', EncUint(TUPLE), base, b);
    }

    /** `tp_call` and `tp_eval`; the latter sizes the function key and writes the expression key. */
    method Call(code: u32, key: byte, name: bytes) returns (ptr: nat)
      requires (code == OP_CALL_16 && key == FUNCTION) || (code == OP_EVAL && key == EXPRESSION)
      requires |name| < TWO31
      requires Valid() && Safe(SizeofHeader(code) + |CallBody(key, name)|)
      modifies this, block
      ensures Valid() && Began(ptr, Req(code, 0, CallBody(key, name)))
    {
      hide SpaceBody, CallBody, EncHead, EncUint, BE, Frames, Opening, SizeofHeader, Grown, SyncAt, Safe, Points;
      var hsz := SizeofHeader(code);
      var sz := |EncHead(KMap, 2)| + |EncUint(FUNCTION)| + (|EncHead(KStr, |name|)| + |name|) + |EncUint(TUPLE)|;
      var h, junk := Open(code, sz + hsz);
      if h == 0 { return 0; }
      ghost var b;
      h, b := PutCall(h, key, name);
      ptr := Close(code, sz + hsz, b, junk);
    }

    /** `tp_update` */
    method Update(space: u32) returns (ptr: nat)
      requires Valid() && Safe(SizeofHeader(OP_UPDATE) + |UpdateBody(space)|)
      modifies this, block
      ensures Valid() && Began(ptr, Req(OP_UPDATE, 0, UpdateBody(space)))
    {
      hide SpaceBody, CallBody, EncHead, EncUint, BE, Frames, Opening, SizeofHeader, Grown, SyncAt, Safe, Points;
      var hsz, sz := SizeofHeader(OP_UPDATE), |EncHead(KMap, 3)| + |EncUint(SPACE)| + |EncUint(space)| + |EncUint(KEY)|;
      var h, junk := Open(OP_UPDATE, sz + hsz);
      if h == 0 { return 0; }
      ghost var b;
      h, b := PutSpace(h, 3, space, KEY);
      ptr := Close(OP_UPDATE, sz + hsz, b, junk);
    }

    /** What a function that adds to the current request does: all of it or nothing. */
    twostate predicate Appended(ptr: nat, chunk: bytes)
      requires old(|requests|) > 0
      reads this
    {
      && (ptr == 0 <==> old(e - p) < |chunk| && !growing)
      && requests == (if ptr == 0 then old(requests) else Extend(old(requests), chunk))
      && (block == old(block) || fresh(block))
    }

    /** The end of every function that adds to the current request: `tp_add` over `b`. */
    method CloseValue(n: nat, ghost b: bytes) returns (ptr: nat)
      requires Placed() && |requests| > 0 && Points() && n == |b| && p + n <= e && p > 0
      requires p - s == |Frames(requests)| && Upto(p + n) == Frames(requests) + b
      modifies this, block
      ensures Valid() && requests == Extend(old(requests), b) && ptr == old(p) && block == old(block)
    {
      hide EncHead, EncUint, BE, Frames, Opening, Measured, SyncAt;
      Extended(requests, b);
      ptr := Add(n);
      requests := Extend(requests, b);
      assert Init(requests) == old(Init(requests));
    }

    /** `tp_encode_nil`, `_uint`, `_int`, `_str`, `_bin`, `_array`, `_map`, `_bool`, `_float`, `_double`,
        `tp_sz`, `tp_key` and `tp_tuple`: one MessagePack header, for strings and binaries with its bytes. */
    method Value(kind: Kind, arg: int, payload: bytes) returns (ptr: nat)
      requires HeadArg(kind, arg) && |payload| == (if kind == KStr || kind == KBin then arg else 0) && |payload| < TWO31
      requires Valid() && |requests| > 0 && Safe(|EncHead(kind, arg)| + |payload|)
      modifies this, block
      ensures Valid() && Appended(ptr, EncHead(kind, arg) + payload)
    {
      hide EncHead, EncUint, BE, Frames, Opening, Grown, SyncAt;
      var sz := |EncHead(kind, arg)| + |payload|;
      var rc := Ensure(sz);
      if rc == -1 { return 0; }
      var h; ghost var b;
      h, b := Put(p, EncHead(kind, arg) + payload, Upto(p), []);
      assert b == EncHead(kind, arg) + payload;
      ptr := CloseValue(sz, b);
    }

    /** `tp_updatebegin` */
    method UpdateBegin(count: u32) returns (ptr: nat)
      requires Valid() && |requests| > 0 && Safe(|EncUint(TUPLE) + EncHead(KArray, count)|)
      modifies this, block
      ensures Valid() && Appended(ptr, EncUint(TUPLE) + EncHead(KArray, count))
    {
      hide EncHead, EncUint, BE, Frames, Opening, Grown, SyncAt;
      var sz := |EncUint(TUPLE)| + |EncHead(KArray, count)|;
      var rc := Ensure(sz);
      if rc == -1 { return 0; }
      var h; ghost var base, b := Upto(p), [];
      h, b := Put(p, EncUint(TUPLE), base, b);
      h, b := Put(h, EncHead(KArray, count), base, b);
      assert b == EncUint(TUPLE) + EncHead(KArray, count);
      ptr := CloseValue(sz, b);
    }

    method PutOp(h: nat, op: byte, field: u32) returns (h': nat, ghost b: bytes)
      requires Placed() && p <= h && h + |OpBytes(op, field)| <= e
      modifies block
      ensures b == OpBytes(op, field)
      ensures h' == h + |b| && Placed() && Upto(h') == old(Upto(h)) + b
    {
      hide EncHead, EncUint;
      ghost var base := Upto(h);
      b := [];
      h', b := Put(h, EncHead(KArray, 3), base, b);
      assert b == EncHead(KArray, 3);
      h', b := Put(h', EncHead(KStr, 1) + [op], base, b);
      h', b := Put(h', EncUint(field), base, b);
    }

    /** `tp_op` */
    method Op(op: byte, field: u32) returns (ptr: nat)
      requires Valid() && |requests| > 0 && Safe(|OpBytes(op, field)|)
      modifies this, block
      ensures Valid() && Appended(ptr, OpBytes(op, field))
    {
      hide EncHead, EncUint, BE, Frames, Opening, Grown, SyncAt;
      var sz := |EncHead(KArray, 3)| + (|EncHead(KStr, 1)| + 1) + |EncUint(field)|;
      var rc := Ensure(sz);
      if rc == -1 { return 0; }
      var h; ghost var b;
      h, b := PutOp(p, op, field);
      ptr := CloseValue(sz, b);
    }

    /** `tp_reqid` */
    method Reqid(id: u32)
      requires Valid() && |requests| > 0
      modifies this`requests, block
      ensures Valid() && requests == Number(old(requests), id)
    {
      hide EncHead, EncUint, BE, Frames, Opening, SyncAt, Number;
      NumberedFrames(requests, id);
      ghost var u := Used();
      var field := [0xce] + BE(id, 4);
      var at := sync - s;
      forall i | 0 <= i < 5 { block[at + i] := field[i]; }
      assert Used() == Numbered(u, at, id);
      requests := Number(requests, id);
      NumberPoints(old(requests), id);
    }
  }
}
