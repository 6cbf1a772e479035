/** What a reader finds in a buffer built with `include/tp.h`. */
module TpFrames {
  import opened Seqs
  import opened MsgPack
  import opened Protocol
  import opened Wrappers
  import T = TpBuilder

  // ---------------------------------------------------------------- the frames, in order

  /** Cutting a buffer at its length prefixes, as the server does. */
  function ReadFrames(s: bytes): Option<seq<bytes>>
    decreases |s|
  {
    if |s| == 0 then Some([])
    else
      var h := ParseHead(s);
      if !h.Head? || h.kind != KUInt || h.len == 0 || h.len + h.arg > |s| then None
      else
        match ReadFrames(s[h.len + h.arg..])
        case None => None
        case Some(rest) => Some([s[h.len..h.len + h.arg]] + rest)
  }

  function Contents(rs: seq<T.Req>): (cs: seq<bytes>)
    ensures |cs| == |rs|
  {
    if |rs| == 0 then [] else [T.Content(rs[0])] + Contents(rs[1..])
  }

  predicate Sizable(rs: seq<T.Req>)
  {
    forall r <- rs :: |T.Content(r)| < TWO32
  }

  lemma {:induction false} LengthReads(n: nat, rest: bytes)
    requires n < TWO32
    ensures ParseHead(T.LengthField(n) + rest) == Head(KUInt, n, 5)
  {
    hide ParseHead, BE;
    ParseLongUint(n, rest);
  }

  /** Reading the buffer gives back exactly the requests, in the order they were started. */
  lemma {:induction false} BufferReadsBack(rs: seq<T.Req>)
    requires Sizable(rs)
    ensures ReadFrames(T.Frames(rs)) == Some(Contents(rs))
  {
    hide ParseHead, T.Content, T.LengthField;
    if |rs| > 0 {
      var c, rest := T.Content(rs[0]), T.Frames(rs[1..]);
      var s := T.Frames(rs);
      assert Sizable(rs[1..]);
      BufferReadsBack(rs[1..]);
      assert rs[0] in rs;
      assert s == T.LengthField(|c|) + (c + rest);
      LengthReads(|c|, c + rest);
      assert s[5..5 + |c|] == c && s[5 + |c|..] == rest;
    }
  }

  lemma {:induction false} ContentsSnoc(rs: seq<T.Req>, r: T.Req)
    ensures Contents(rs + [r]) == Contents(rs) + [T.Content(r)]
  {
    hide T.Content;
    if |rs| == 0 {
      assert rs + [r] == [r] && [r][1..] == [];
    } else {
      assert (rs + [r])[0] == rs[0] && (rs + [r])[1..] == rs[1..] + [r];
      ContentsSnoc(rs[1..], r);
      Assoc([T.Content(rs[0])], Contents(rs[1..]), [T.Content(r)]);
    }
  }

  /** After a value function the reader finds the same requests, the last one longer by the bytes added. */
  lemma {:induction false} MoreReadsBack(rs: seq<T.Req>, chunk: bytes)
    requires |rs| > 0 && Sizable(T.Extend(rs, chunk))
    ensures ReadFrames(T.Frames(T.Extend(rs, chunk))) == Some(Contents(Init(rs)) + [T.Content(Last(rs)) + chunk])
  {
    hide T.Frames, T.Opening, ReadFrames;
    BufferReadsBack(T.Extend(rs, chunk));
    var r := Last(rs).(body := Last(rs).body + chunk);
    ContentsSnoc(Init(rs), r);
    Assoc(T.Opening(r.code, r.sync), Last(rs).body, chunk);
  }

  /** After `tp_reqid` it finds the same requests, the last one under the new sync. */
  lemma {:induction false} NumberReadsBack(rs: seq<T.Req>, sync: u32)
    requires |rs| > 0 && Sizable(T.Number(rs, sync))
    ensures ReadFrames(T.Frames(T.Number(rs, sync)))
            == Some(Contents(Init(rs)) + [T.Opening(Last(rs).code, sync) + Last(rs).body])
  {
    hide T.Frames, T.Opening, ReadFrames;
    BufferReadsBack(T.Number(rs, sync));
    ContentsSnoc(Init(rs), Last(rs).(sync := sync));
  }

  // ---------------------------------------------------------------- runs of calls

  /** What a successful call does to the requests: `tp_ping`, `tp_select`, ... begin one, the value
      functions extend the current one, `tp_reqid` renumbers it. */
  datatype Change = Begin(code: u32, body: bytes) | More(chunk: bytes) | Renumber(sync: u32)

  function Effect(rs: seq<T.Req>, c: Change): (rs': seq<T.Req>)
    requires c.Begin? || |rs| > 0
    ensures |rs'| == |rs| + if c.Begin? then 1 else 0
  {
    match c
    case Begin(code, body) => rs + [T.Req(code, 0, body)]
    case More(chunk) => T.Extend(rs, chunk)
    case Renumber(sync) => T.Number(rs, sync)
  }

  function Effects(rs: seq<T.Req>, cs: seq<Change>): (rs': seq<T.Req>)
    requires |rs| > 0
    ensures |rs'| >= |rs|
    decreases |cs|
  {
    if |cs| == 0 then rs else Effects(Effect(rs, cs[0]), cs[1..])
  }

  /** Whatever is called later, all frames before the current one stay where they are, byte for byte. */
  lemma {:induction false} EarlierFramesStay(rs: seq<T.Req>, cs: seq<Change>)
    requires |rs| > 0
    ensures T.Frames(Init(rs)) <= T.Frames(Effects(rs, cs)) && Init(rs) <= Effects(rs, cs)
    decreases |cs|
  {
    hide T.Frames;
    if |cs| > 0 {
      var rs' := Effect(rs, cs[0]);
      EarlierFramesStay(rs', cs[1..]);
      assert Init(rs) <= Init(rs');
      assert Init(rs') == Init(rs) + Init(rs')[|rs| - 1..];
      T.FramesAppend(Init(rs), Init(rs')[|rs| - 1..]);
    } else {
      T.LastFrame(rs);
    }
  }

  // ---------------------------------------------------------------- what the requests mean

  lemma {:induction false} OpeningExact(code: u32, sync: u32)
    ensures Exact(T.Opening(code, sync), HeaderValue(code, sync))
  {
    hide EncHead, Parse;
    var raw := [0xce] + BE(sync, 4);
    var ps := [Pair(CODE, EncUint(code)), Pair(SYNC, raw)];
    var vs := [UInt(code), UInt(sync)];
    EncodeExact(Packed, vs[0]);
    WideExact(sync);
    assert ps[1..] == [ps[1]] && [ps[1]][1..] == [] && vs[1..] == [vs[1]] && [vs[1]][1..] == [];
    FlattenExact(ps, vs);
    assert Flat(ps[1..], vs[1..]) == [UInt(SYNC), vs[1]] by { assert Flat([], []) == []; }
    assert Flat(ps, vs) == [UInt(CODE), UInt(code), UInt(SYNC), UInt(sync)];
    ExactContainer(Packed, KMap, 2, Flatten(ps), Flat(ps, vs));
    assert PairsBytes(ps) == PairBytes(ps[0]) + PairBytes(ps[1]) by {
      PairsSnoc([ps[0]], ps[1]);
      PairsSnoc([], ps[0]);
      assert [] + [ps[0]] == [ps[0]];
    }
    HeaderShape(EncHead(KMap, 2), EncUint(CODE), EncUint(code), EncUint(SYNC), raw);
  }

  lemma {:induction false} WideExact(n: u32)
    ensures Exact([0xce] + BE(n, 4), UInt(n))
  {
    hide BE, ParseHead, FromBE;
    ParseLongUint(n, []);
    assert LongUint(n) + [] == LongUint(n);
  }

  /** A request whose body is a map of the given pairs reads back as its code, its sync and that map, just
      as a packet of the newer builders does. */
  lemma {:induction false} FrameMeans(code: u32, sync: u32, ps: seq<Pair>, vs: seq<Value>)
    requires PairsExact(ps, vs) && |ps| < TWO32
    requires |T.Content(T.Req(code, sync, Body(ps)))| < TWO32
    ensures FrameReads(T.Frame(T.Req(code, sync, Body(ps))), HeaderValue(code, sync), Map(Flat(ps, vs)))
  {
    hide EncHead, Parse, T.Opening, T.LengthField, HeaderValue;
    var hd, body := T.Opening(code, sync), Body(ps);
    FlattenExact(ps, vs);
    ExactContainer(Packed, KMap, |ps|, Flatten(ps), Flat(ps, vs));
    OpeningExact(code, sync);
    ExactPrefix(hd, HeaderValue(code, sync), body);
    LengthReads(|hd + body|, hd + body);
    assert T.Frame(T.Req(code, sync, body))[5..] == hd + body;
    assert (hd + body)[|hd|..] == body;
  }

  function SelectFields(space: u32, index: u32, offset: u32, iter: u32, limit: u32, key: bytes): seq<Pair>
  {
    [Pair(SPACE, EncUint(space)), Pair(INDEX, EncUint(index)), Pair(OFFSET, EncUint(offset)),
     Pair(LIMIT, EncUint(limit)), Pair(ITERATOR, EncUint(iter)), Pair(KEY, key)]
  }

  /** `tp_select` and then the bytes of a key: the body is the map of the six fields. */
  lemma SelectIsMap(space: u32, index: u32, offset: u32, iter: u32, limit: u32, key: bytes)
    ensures T.SelectBody(space, index, offset, iter, limit) + key
            == Body(SelectFields(space, index, offset, iter, limit, key))
  {
    hide EncHead, EncUint, PairsBytes;
    SixPairs(EncHead(KMap, 6), SelectFields(space, index, offset, iter, limit, key));
  }

  lemma SixPairs(hd: bytes, ps: seq<Pair>)
    requires |ps| == 6
    ensures hd + PairsBytes(ps)
            == hd + EncUint(ps[0].key) + ps[0].raw + EncUint(ps[1].key) + ps[1].raw + EncUint(ps[2].key) + ps[2].raw
               + EncUint(ps[3].key) + ps[3].raw + EncUint(ps[4].key) + ps[4].raw + EncUint(ps[5].key) + ps[5].raw
  {
    hide EncUint, PairsBytes;
    assert ps[..6] == ps;
    assert ps[..0] == [];
    PairsNone(hd);
    OnePairMore(hd, ps, 0);
    OnePairMore(hd, ps, 1);
    OnePairMore(hd, ps, 2);
    OnePairMore(hd, ps, 3);
    OnePairMore(hd, ps, 4);
    OnePairMore(hd, ps, 5);
  }

  lemma OnePairMore(hd: bytes, ps: seq<Pair>, k: nat)
    requires k < |ps|
    ensures hd + PairsBytes(ps[..k + 1]) == hd + PairsBytes(ps[..k]) + EncUint(ps[k].key) + ps[k].raw
  {
    hide EncUint, PairsBytes;
    assert ps[..k + 1] == ps[..k] + [ps[k]];
    PairsSnoc(ps[..k], ps[k]);
    Assoc(hd, PairsBytes(ps[..k]), PairBytes(ps[k]));
    Assoc(hd + PairsBytes(ps[..k]), EncUint(ps[k].key), ps[k].raw);
  }

  /** `tp_insert`, `tp_replace` and then the bytes of a tuple. */
  lemma StoreIsMap(space: u32, tuple: bytes)
    ensures T.StoreBody(space) + tuple == Body([Pair(SPACE, EncUint(space)), Pair(TUPLE, tuple)])
  {
    hide EncHead, EncUint;
    var ps := [Pair(SPACE, EncUint(space)), Pair(TUPLE, tuple)];
    assert ps[1..] == [ps[1]] && ps[1..][1..] == [];
    assert PairsBytes(ps[1..]) == PairBytes(ps[1]);
  }

  /** `tp_call`, `tp_eval` and then the bytes of the arguments. */
  lemma CallIsMap(key: byte, name: bytes, args: bytes)
    requires |name| < TWO32
    ensures T.CallBody(key, name) + args == Body([Pair(key, EncHead(KStr, |name|) + name), Pair(TUPLE, args)])
  {
    hide EncHead, EncUint;
    var ps := [Pair(key, EncHead(KStr, |name|) + name), Pair(TUPLE, args)];
    assert ps[1..] == [ps[1]] && ps[1..][1..] == [];
    assert PairsBytes(ps[1..]) == PairBytes(ps[1]);
  }

  /** `tp_update`, the bytes of a key, `tp_updatebegin` and the bytes of the operations. */
  lemma UpdateIsMap(space: u32, key: bytes, count: u32, ops: bytes)
    ensures T.UpdateBody(space) + key + (EncUint(TUPLE) + EncHead(KArray, count)) + ops
            == Body([Pair(SPACE, EncUint(space)), Pair(KEY, key), Pair(TUPLE, EncHead(KArray, count) + ops)])
  {
    hide EncHead, EncUint;
    var ps := [Pair(SPACE, EncUint(space)), Pair(KEY, key), Pair(TUPLE, EncHead(KArray, count) + ops)];
    assert ps[1..][1..] == [ps[2]] && [ps[2]][1..] == [];
    assert PairsBytes([ps[2]]) == PairBytes(ps[2]);
    assert PairsBytes(ps[1..]) == PairBytes(ps[1]) + PairBytes(ps[2]);
  }

  /** `tp_op` and then the bytes of its argument: one operation of three elements. */
  lemma OpIsArray(op: byte, field: u32, raw: bytes, v: Value)
    requires Exact(raw, v)
    ensures Exact(T.OpBytes(op, field) + raw, Array([Str([op]), UInt(field), v]))
  {
    hide EncHead, Parse;
    var a, b := EncHead(KStr, 1) + [op], EncUint(field);
    EncodeExact(Packed, Str([op]));
    EncodeExact(Packed, UInt(field));
    ThreePieces(a, b, raw);
    ExactContainer(Packed, KArray, 3, [a, b, raw], [Str([op]), UInt(field), v]);
    assert T.OpBytes(op, field) + raw == EncHead(KArray, 3) + (a + (b + raw));
  }

  /** `tp_ping`: the body is the empty map. */
  lemma PingIsMap(sync: u32)
    ensures T.PingBody() == Body([])
    ensures FrameReads(T.Frame(T.Req(OP_PING, sync, T.PingBody())), HeaderValue(OP_PING, sync), Map([]))
  {
    hide EncHead, EncUint, FrameReads, HeaderValue, T.Frame, BE;
    PairsNone(EncHead(KMap, 0));
    SmallFrame(sync);
    assert Flat([], []) == [];
    FrameMeans(OP_PING, sync, [], []);
  }

  lemma SmallFrame(sync: u32)
    ensures |T.Content(T.Req(OP_PING, sync, Body([])))| < TWO32
  {
    hide BE;
  }
}
