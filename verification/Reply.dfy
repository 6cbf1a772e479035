/** Replies: incremental framing, the header and body loops, and the copying and zero-copy parsers. */
module Reply {
  import opened Seqs
  import opened MsgPack
  import opened Wrappers
  import opened Protocol

  /** `TNT_REPLY_IPROTO_HDR_SIZE` */
  const PREFIX: nat := 5

  // ---------------------------------------------------------------- the entries of a map

  /** A map entry: whether its key is an unsigned number, the key as the decoders keep it (32 bits), the
      value, and where the value lies in the buffer. */
  datatype Entry = Entry(plain: bool, key: nat, v: Value, lo: nat, hi: nat)

  function KeyOf(v: Value): nat
  {
    if v.UInt? then v.n % TWO32 else 0
  }

  /** The n entries that start at p. */
  function Entries(buf: bytes, p: nat, n: nat): seq<Entry>
    requires p <= |buf|
    decreases n
  {
    var k := Parse(buf[p..]);
    if n == 0 || k.NoParse? then []
    else
      var lo := p + k.len;
      var v := Parse(buf[lo..]);
      if v.NoParse? then [] else [Entry(k.v.UInt?, KeyOf(k.v), v.v, lo, lo + v.len)] + Entries(buf, lo + v.len, n - 1)
  }

  /** A run of values that begins with a key and its value. */
  lemma {:induction false} PairAt(buf: bytes, p: nat, n: nat)
    requires p <= |buf| && n > 0 && ParseMany(buf[p..], 2 * n).ParsedMany?
    ensures Parse(buf[p..]).Parsed?
    ensures var lo := p + Parse(buf[p..]).len;
            && lo <= |buf| && Parse(buf[lo..]).Parsed?
            && var hi := lo + Parse(buf[lo..]).len;
               && hi <= |buf| && ParseMany(buf[hi..], 2 * (n - 1)).ParsedMany?
               && ParseMany(buf[p..], 2 * n).vs
                  == [Parse(buf[p..]).v, Parse(buf[lo..]).v] + ParseMany(buf[hi..], 2 * (n - 1)).vs
               && p + ParseMany(buf[p..], 2 * n).len == hi + ParseMany(buf[hi..], 2 * (n - 1)).len
  {
    hide Parse, ParseMany;
    var lo := NextAt(buf, p, 2 * n);
    var hi := NextAt(buf, lo, 2 * n - 1);
  }

  /** The last entry for a key. */
  function LastEntry(es: seq<Entry>, k: nat): Option<Entry>
  {
    if |es| == 0 then None
    else if LastEntry(es[1..], k).Some? then LastEntry(es[1..], k)
    else if es[0].plain && es[0].key == k then Some(es[0]) else None
  }

  /** The last entry for a key holds the value the decoded map has under it, at the reported place. */
  lemma {:induction false} EntriesMeaning(buf: bytes, p: nat, n: nat, k: nat)
    requires p <= |buf| && ParseMany(buf[p..], 2 * n).ParsedMany?
    ensures var e, v := LastEntry(Entries(buf, p, n), k), Lookup(ParseMany(buf[p..], 2 * n).vs, k);
            && (e.Some? <==> v.Some?)
            && (e.Some? ==> e.value.v == v.value && p < e.value.lo < e.value.hi <= |buf|
                            && Exact(buf[e.value.lo..e.value.hi], v.value))
    decreases n
  {
    hide Parse, ParseMany;
    if n == 0 {
      ParseManyNil(buf[p..]);
    } else {
      PairAt(buf, p, n);
      var lo := p + Parse(buf[p..]).len;
      var hi := lo + Parse(buf[lo..]).len;
      EntriesMeaning(buf, hi, n - 1, k);
      ValueAt(buf, lo);
      var all, rest := ParseMany(buf[p..], 2 * n).vs, ParseMany(buf[hi..], 2 * (n - 1)).vs;
      assert all[2..] == rest;
      assert Entries(buf, p, n)[1..] == Entries(buf, hi, n - 1);
    }
  }

  lemma ValueAt(buf: bytes, lo: nat)
    requires lo <= |buf| && Parse(buf[lo..]).Parsed?
    ensures var hi := lo + Parse(buf[lo..]).len; hi <= |buf| && Exact(buf[lo..hi], Parse(buf[lo..]).v)
  {
    var hi := lo + Parse(buf[lo..]).len;
    assert buf[lo..hi] == buf[lo..][..hi - lo];
    ParseLocal(buf[lo..], buf[lo..hi]);
  }

  // ---------------------------------------------------------------- what a reply says

  datatype Span = Span(lo: nat, hi: nat)

  /** The fields of `struct tnt_reply`; spans are positions in the payload. */
  datatype Fields = Fields(
    sync: nat, code: nat, schemaId: nat,
    error: Option<Span>, data: Option<Span>, metadata: Option<Span>, sqlinfo: Option<Span>)

  const BLANK: Fields := Fields(0, 0, 0, None, None, None, None)

  predicate HeaderEntry(e: Entry)
  {
    e.plain && e.v.UInt? && (e.key == SYNC || e.key == CODE || e.key == SCHEMA_ID)
  }

  predicate AllHeader(es: seq<Entry>)
  {
    |es| == 0 || (HeaderEntry(es[0]) && AllHeader(es[1..]))
  }

  function UintOr0(e: Option<Entry>): nat
  {
    if e.Some? && e.value.v.UInt? then e.value.v.n else 0
  }

  /** The top-level map of a buffer. */
  predicate IsMap(buf: bytes)
  {
    Parse(buf).Parsed? && Parse(buf).v.Map?
  }

  function MapEntries(buf: bytes): seq<Entry>
    requires IsMap(buf)
  {
    ContainerAt(buf, KMap);
    Entries(buf, ParseHead(buf).len, ParseHead(buf).arg)
  }

  /** What the header loop must produce: None for a rejected buffer. */
  function SpecHeader(buf: bytes): Option<Fields>
  {
    if !IsMap(buf) then None
    else
      var es := MapEntries(buf);
      if AllHeader(es)
      then Some(BLANK.(sync := UintOr0(LastEntry(es, SYNC)), code := UintOr0(LastEntry(es, CODE)) % 0x8000,
                       schemaId := UintOr0(LastEntry(es, SCHEMA_ID))))
      else None
  }

  predicate BodyEntry(e: Entry)
  {
    && (e.key == ERROR ==> e.v.Str?) && (e.key == DATA ==> e.v.Array?)
    && (e.key == METADATA ==> e.v.Array?) && (e.key == SQL_INFO ==> e.v.Map?)
  }

  predicate AllBody(es: seq<Entry>)
  {
    |es| == 0 || (BodyEntry(es[0]) && AllBody(es[1..]))
  }

  function Whole(e: Option<Entry>, base: nat): Option<Span>
  {
    if e.None? then None else Some(Span(base + e.value.lo, base + e.value.hi))
  }

  /** The characters of a string, without its header. */
  function Chars(e: Option<Entry>, base: nat): Option<Span>
  {
    if e.None? || !e.value.v.Str? || e.value.hi < |e.value.v.str| then None
    else Some(Span(base + e.value.hi - |e.value.v.str|, base + e.value.hi))
  }

  /** The decoder of the body reads keys without looking at their type. */
  predicate BodyReadable(buf: bytes)
  {
    IsMap(buf) ==> AllPlain(MapEntries(buf))
  }

  predicate AllPlain(es: seq<Entry>)
  {
    |es| == 0 || (es[0].plain && AllPlain(es[1..]))
  }

  /** What the body loop must add to the fields. */
  function SpecBody(buf: bytes, base: nat, f: Fields): Option<Fields>
  {
    if !IsMap(buf) then None
    else
      var es := MapEntries(buf);
      if AllBody(es)
      then Some(f.(error := Chars(LastEntry(es, ERROR), base), data := Whole(LastEntry(es, DATA), base),
                   metadata := Whole(LastEntry(es, METADATA), base), sqlinfo := Whole(LastEntry(es, SQL_INFO), base)))
      else None
  }

  // ---------------------------------------------------------------- the loops

  lemma LoopStart(buf: bytes)
    requires IsMap(buf)
    ensures var h := ParseHead(buf);
            && h.Head? && h.kind == KMap && h.arg >= 0 && h.len <= |buf|
            && ParseMany(buf[h.len..], 2 * h.arg).ParsedMany?
            && h.len + ParseMany(buf[h.len..], 2 * h.arg).len == Parse(buf).len
            && MapEntries(buf) == Entries(buf, h.len, h.arg)
  {
    hide ParseMany, ParseHead, Parse;
    ContainerAt(buf, KMap);
  }

  /** One step of a loop: the entry at p, and what is left. */
  lemma LoopStep(buf: bytes, p: nat, n: nat)
    requires p <= |buf| && n > 0 && ParseMany(buf[p..], 2 * n).ParsedMany?
    ensures Parse(buf[p..]).Parsed?
    ensures var lo := p + Parse(buf[p..]).len;
            && lo <= |buf| && Parse(buf[lo..]).Parsed?
            && var hi := lo + Parse(buf[lo..]).len;
               && hi <= |buf| && ParseMany(buf[hi..], 2 * (n - 1)).ParsedMany?
               && p + ParseMany(buf[p..], 2 * n).len == hi + ParseMany(buf[hi..], 2 * (n - 1)).len
               && Entries(buf, p, n)
                  == [Entry(Parse(buf[p..]).v.UInt?, KeyOf(Parse(buf[p..]).v), Parse(buf[lo..]).v, lo, hi)]
                     + Entries(buf, hi, n - 1)
  {
    hide ParseMany, Parse;
    PairAt(buf, p, n);
  }

  /** What a loop variable that now holds `now` must end with when the entries `es` are still to come. */
  function Eventually(now: Option<Entry>, es: seq<Entry>, k: nat): Option<Entry>
  {
    if LastEntry(es, k).Some? then LastEntry(es, k) else now
  }

  lemma EventuallyCons(now: Option<Entry>, e: Entry, es: seq<Entry>, k: nat)
    ensures Eventually(now, [e] + es, k) == Eventually(if e.plain && e.key == k then Some(e) else now, es, k)
  {
    assert ([e] + es)[1..] == es;
  }

  lemma AllCons(e: Entry, es: seq<Entry>)
    ensures AllHeader([e] + es) == (HeaderEntry(e) && AllHeader(es))
    ensures AllBody([e] + es) == (BodyEntry(e) && AllBody(es))
    ensures AllPlain([e] + es) == (e.plain && AllPlain(es))
  {
    assert ([e] + es)[1..] == es;
  }

  /** `tnt_reply_hdr0` */
  method DecodeHeader(buf: bytes) returns (rc: int, f: Fields, off: nat)
    ensures rc == if SpecHeader(buf).Some? then 0 else -1
    ensures rc == 0 ==> f == SpecHeader(buf).value && off == Parse(buf).len <= |buf|
  {
    hide Parse, ParseMany, ParseHead, IsType, Entries;
    f, off := BLANK, 0;
    if Parse(buf).NoParse? { return -1, f, off; }
    ParseType(buf);
    if !IsType(buf, KMap) {
      TypesDiffer(buf, KMap);
      return -1, f, off;
    }
    TypeIs(buf, KMap);
    LoopStart(buf);
    var p := ParseHead(buf).len;
    var n := ParseHead(buf).arg;
    var sync, code, schemaId := 0, 0, 0;
    ghost var all, es := Entries(buf, p, n), Entries(buf, p, n);
    ghost var s, c, i: Option<Entry> := None, None, None;
    while n > 0
      invariant n >= 0 && 0 <= p <= |buf| && ParseMany(buf[p..], 2 * n).ParsedMany?
      invariant p + ParseMany(buf[p..], 2 * n).len == Parse(buf).len && es == Entries(buf, p, n)
      invariant AllHeader(all) == AllHeader(es)
      invariant LastEntry(all, SYNC) == Eventually(s, es, SYNC) && sync == UintOr0(s)
      invariant LastEntry(all, CODE) == Eventually(c, es, CODE) && code == UintOr0(c)
      invariant LastEntry(all, SCHEMA_ID) == Eventually(i, es, SCHEMA_ID) && schemaId == UintOr0(i)
      decreases n
    {
      LoopStep(buf, p, n);
      KindIs(buf[p..]);
      if Parse(buf[p..]).v.UInt? { UintAt(buf[p..]); }
      ghost var lo := p + Parse(buf[p..]).len;
      ghost var e := Entry(Parse(buf[p..]).v.UInt?, KeyOf(Parse(buf[p..]).v), Parse(buf[lo..]).v, lo, lo + Parse(buf[lo..]).len);
      ghost var rest := Entries(buf, e.hi, n - 1);
      AllCons(e, rest);
      EventuallyCons(s, e, rest, SYNC);
      EventuallyCons(c, e, rest, CODE);
      EventuallyCons(i, e, rest, SCHEMA_ID);
      n := n - 1;
      if !IsType(buf[p..], KUInt) { return -1, f, off; }
      var key := ParseHead(buf[p..]).arg % TWO32;
      p := p + ParseHead(buf[p..]).len;
      KindIs(buf[p..]);
      if Parse(buf[p..]).v.UInt? { UintAt(buf[p..]); }
      if !IsType(buf[p..], KUInt) { return -1, f, off; }
      var value := ParseHead(buf[p..]).arg;
      p := p + ParseHead(buf[p..]).len;
      if key == SYNC {
        sync := value;
        s := Some(e);
      } else if key == CODE {
        code := value;
        c := Some(e);
      } else if key == SCHEMA_ID {
        schemaId := value;
        i := Some(e);
      } else {
        return -1, f, off;
      }
      es := rest;
    }
    ParseManyNil(buf[p..]);
    assert es == [] by { EntriesNil(buf, p); }
    f := BLANK.(sync := sync, code := code % 0x8000, schemaId := schemaId);
    return 0, f, p;
  }

  lemma EntriesNil(buf: bytes, p: nat)
    requires p <= |buf|
    ensures Entries(buf, p, 0) == []
  {
  }

  lemma TypesDiffer(s: bytes, k: Kind)
    requires Parse(s).Parsed? && !IsType(s, k)
    ensures KindOf(Parse(s).v) != k
  {
    hide Parse;
    ParseType(s);
  }

  lemma TypeIs(s: bytes, k: Kind)
    requires Parse(s).Parsed? && IsType(s, k)
    ensures KindOf(Parse(s).v) == k
  {
    hide Parse;
    ParseType(s);
  }

  /** `tnt_reply_body0`; positions are reported relative to `base`. */
  method DecodeBody(buf: bytes, base: nat, f: Fields) returns (rc: int, g: Fields, off: nat)
    requires BodyReadable(buf)
    ensures rc == if SpecBody(buf, base, f).Some? then 0 else -1
    ensures rc == 0 ==> g == SpecBody(buf, base, f).value && off == Parse(buf).len <= |buf|
    ensures rc != 0 ==> g == f
  {
    hide Parse, ParseMany, ParseHead, IsType, Entries, Chars, Whole;
    g, off := f, 0;
    if Parse(buf).NoParse? { return -1, g, 0; }
    ParseType(buf);
    if !IsType(buf, KMap) {
      TypesDiffer(buf, KMap);
      return -1, g, 0;
    }
    TypeIs(buf, KMap);
    LoopStart(buf);
    var p := ParseHead(buf).len;
    var n := ParseHead(buf).arg;
    var error: Option<Span>, data: Option<Span>, metadata: Option<Span>, sqlinfo: Option<Span> := None, None, None, None;
    ghost var all, es := Entries(buf, p, n), Entries(buf, p, n);
    ghost var e1: Option<Entry>, e2: Option<Entry>, e3: Option<Entry>, e4: Option<Entry> := None, None, None, None;
    assert Chars(None, base) == None && Whole(None, base) == None by { SpanNone(base); }
    while n > 0
      invariant n >= 0 && 0 <= p <= |buf| && ParseMany(buf[p..], 2 * n).ParsedMany?
      invariant p + ParseMany(buf[p..], 2 * n).len == Parse(buf).len
      invariant es == Entries(buf, p, n) && AllPlain(es) && AllBody(all) == AllBody(es)
      invariant LastEntry(all, ERROR) == Eventually(e1, es, ERROR) && error == Chars(e1, base)
      invariant LastEntry(all, DATA) == Eventually(e2, es, DATA) && data == Whole(e2, base)
      invariant LastEntry(all, METADATA) == Eventually(e3, es, METADATA) && metadata == Whole(e3, base)
      invariant LastEntry(all, SQL_INFO) == Eventually(e4, es, SQL_INFO) && sqlinfo == Whole(e4, base)
      decreases n
    {
      LoopStep(buf, p, n);
      KindIs(buf[p..]);
      if Parse(buf[p..]).v.UInt? { UintAt(buf[p..]); }
      ghost var lo := p + Parse(buf[p..]).len;
      ghost var e := Entry(Parse(buf[p..]).v.UInt?, KeyOf(Parse(buf[p..]).v), Parse(buf[lo..]).v, lo, lo + Parse(buf[lo..]).len);
      ghost var rest := Entries(buf, e.hi, n - 1);
      AllCons(e, rest);
      EventuallyCons(e1, e, rest, ERROR);
      EventuallyCons(e2, e, rest, DATA);
      EventuallyCons(e3, e, rest, METADATA);
      EventuallyCons(e4, e, rest, SQL_INFO);
      n := n - 1;
      var key := ParseHead(buf[p..]).arg % TWO32;
      p := p + ParseHead(buf[p..]).len;
      var next := p + Parse(buf[p..]).len;
      KindIs(buf[p..]);
      SpanOf(e, base);
      if key == ERROR {
        if !IsType(buf[p..], KStr) { return -1, g, 0; }
        var h := ParseHead(buf[p..]);
        StrShape(buf[p..]);
        error := Some(Span(base + p + h.len, base + p + h.len + h.arg));
        e1 := Some(e);
      } else if key == DATA {
        if !IsType(buf[p..], KArray) { return -1, g, 0; }
        data := Some(Span(base + p, base + next));
        e2 := Some(e);
      } else if key == METADATA {
        if !IsType(buf[p..], KArray) { return -1, g, 0; }
        metadata := Some(Span(base + p, base + next));
        e3 := Some(e);
      } else if key == SQL_INFO {
        if !IsType(buf[p..], KMap) { return -1, g, 0; }
        sqlinfo := Some(Span(base + p, base + next));
        e4 := Some(e);
      }
      p := next;
      es := rest;
    }
    assert es == [] by { EntriesNil(buf, p); }
    ParseManyNil(buf[p..]);
    g := f.(error := error, data := data, metadata := metadata, sqlinfo := sqlinfo);
    return 0, g, p;
  }

  lemma SpanNone(base: nat)
    ensures Chars(None, base) == None && Whole(None, base) == None
  {
  }

  lemma SpanOf(e: Entry, base: nat)
    ensures Whole(Some(e), base) == Some(Span(base + e.lo, base + e.hi))
    ensures e.v.Str? && |e.v.str| <= e.hi ==> Chars(Some(e), base) == Some(Span(base + e.hi - |e.v.str|, base + e.hi))
  {
  }

  /** A reported span of a payload whose body starts at n: there is one exactly if the body has the key, and
      it is, byte for byte, the last value under the key. */
  predicate SpanIs(payload: bytes, n: nat, s: Option<Span>, v: Option<Value>)
  {
    && (s.Some? <==> v.Some?)
    && (s.Some? ==> n < s.value.lo <= s.value.hi <= |payload| && Exact(payload[s.value.lo..s.value.hi], v.value))
  }

  /** The error span covers the characters of the string. */
  predicate TextIs(payload: bytes, n: nat, s: Option<Span>, v: Option<Value>)
  {
    && (s.Some? <==> v.Some?)
    && (s.Some? ==> n < s.value.lo <= s.value.hi <= |payload| && v.value == Str(payload[s.value.lo..s.value.hi]))
  }

  /** What the fields of an accepted body say. */
  predicate BodySays(payload: bytes, n: nat, f: Fields)
    requires n <= |payload| && IsMap(payload[n..])
  {
    var flat := Parse(payload[n..]).v.flat;
    && SpanIs(payload, n, f.data, Lookup(flat, DATA)) && SpanIs(payload, n, f.metadata, Lookup(flat, METADATA))
    && SpanIs(payload, n, f.sqlinfo, Lookup(flat, SQL_INFO)) && TextIs(payload, n, f.error, Lookup(flat, ERROR))
  }

  lemma {:induction false} BodyMeaning(payload: bytes, n: nat, f: Fields)
    requires n <= |payload| && SpecBody(payload[n..], n, f).Some?
    ensures IsMap(payload[n..]) && BodySays(payload, n, SpecBody(payload[n..], n, f).value)
  {
    hide Parse, ParseMany, ParseHead, Entries, SpanIs, TextIs;
    var buf := payload[n..];
    ContainerAt(buf, KMap);
    WholeMeans(payload, n, DATA);
    WholeMeans(payload, n, METADATA);
    WholeMeans(payload, n, SQL_INFO);
    CharsMean(payload, n);
  }

  lemma {:induction false} WholeMeans(payload: bytes, n: nat, k: nat)
    requires n <= |payload| && IsMap(payload[n..])
    ensures SpanIs(payload, n, Whole(LastEntry(MapEntries(payload[n..]), k), n), Lookup(Parse(payload[n..]).v.flat, k))
  {
    hide Parse, ParseMany, ParseHead, Entries, Exact;
    var buf := payload[n..];
    ContainerAt(buf, KMap);
    EntriesMeaning(buf, ParseHead(buf).len, ParseHead(buf).arg, k);
    var e := LastEntry(MapEntries(buf), k);
    if e.Some? { SliceOfDrop(payload, n, n + e.value.lo, n + e.value.hi); }
  }

  lemma {:induction false} CharsMean(payload: bytes, n: nat)
    requires n <= |payload| && IsMap(payload[n..]) && AllBody(MapEntries(payload[n..]))
    ensures TextIs(payload, n, Chars(LastEntry(MapEntries(payload[n..]), ERROR), n), Lookup(Parse(payload[n..]).v.flat, ERROR))
  {
    hide Parse, ParseMany, ParseHead, Entries;
    var buf := payload[n..];
    ContainerAt(buf, KMap);
    EntriesMeaning(buf, ParseHead(buf).len, ParseHead(buf).arg, ERROR);
    var e := LastEntry(MapEntries(buf), ERROR);
    if e.Some? {
      LastIsBody(MapEntries(buf), ERROR);
      var sub := buf[e.value.lo..e.value.hi];
      StrShape(sub);
      var from := e.value.lo + ParseHead(sub).len;
      assert sub[ParseHead(sub).len..|sub|] == buf[from..e.value.hi];
      SliceOfDrop(payload, n, n + from, n + e.value.hi);
    }
  }

  lemma {:induction false} LastIsBody(es: seq<Entry>, k: nat)
    requires AllBody(es) && LastEntry(es, k).Some?
    ensures BodyEntry(LastEntry(es, k).value) && LastEntry(es, k).value.key == k
  {
    if LastEntry(es[1..], k).Some? { LastIsBody(es[1..], k); }
  }

  /** The entries are the decoded map, two values at a time. */
  lemma {:induction false} EntriesAreFlat(buf: bytes, p: nat, n: nat, i: nat)
    requires p <= |buf| && ParseMany(buf[p..], 2 * n).ParsedMany? && i < n
    ensures |Entries(buf, p, n)| == n
    ensures var e, flat := Entries(buf, p, n)[i], ParseMany(buf[p..], 2 * n).vs;
            e.v == flat[2 * i + 1] && e.plain == flat[2 * i].UInt? && e.key == KeyOf(flat[2 * i])
    decreases n
  {
    hide Parse, ParseMany, Entries;
    PairAt(buf, p, n);
    LoopStep(buf, p, n);
    var hi := p + Parse(buf[p..]).len + Parse(buf[p + Parse(buf[p..]).len..]).len;
    if n == 1 {
      EntriesNil(buf, hi);
    } else {
      EntriesAreFlat(buf, hi, n - 1, if i == 0 then 0 else i - 1);
    }
  }

  /** The maps the header loop accepts: every key is a known one and every value a number. */
  predicate HeaderMap(flat: seq<Value>)
  {
    forall i :: 0 <= i < |flat| / 2 ==> HeaderPair(flat[2 * i], flat[2 * i + 1])
  }

  predicate HeaderPair(k: Value, v: Value)
  {
    k.UInt? && v.UInt? && k.n % TWO32 in [SYNC, CODE, SCHEMA_ID]
  }

  /** The maps the body loop accepts: the values under the known keys are of the right types. */
  predicate BodyMap(flat: seq<Value>)
  {
    forall i :: 0 <= i < |flat| / 2 ==> BodyPair(flat[2 * i], flat[2 * i + 1])
  }

  predicate BodyPair(k: Value, v: Value)
  {
    k.UInt? ==>
      && (k.n % TWO32 == ERROR ==> v.Str?) && (k.n % TWO32 in [DATA, METADATA] ==> v.Array?)
      && (k.n % TWO32 == SQL_INFO ==> v.Map?)
  }

  lemma {:induction false} AllExactly(es: seq<Entry>)
    ensures AllHeader(es) <==> forall i :: 0 <= i < |es| ==> HeaderEntry(es[i])
    ensures AllBody(es) <==> forall i :: 0 <= i < |es| ==> BodyEntry(es[i])
  {
    hide HeaderEntry, BodyEntry;
    if |es| > 0 {
      AllExactly(es[1..]);
      assert forall i :: 0 < i < |es| ==> es[i] == es[1..][i - 1];
    }
  }

  lemma {:induction false} EntriesCount(buf: bytes, p: nat, n: nat)
    requires p <= |buf| && ParseMany(buf[p..], 2 * n).ParsedMany?
    ensures |Entries(buf, p, n)| == n
  {
    hide Parse, ParseMany, Entries;
    if n == 0 { EntriesNil(buf, p); } else { EntriesAreFlat(buf, p, n, 0); }
  }

  /** The loops accept a map by its decoded content alone. */
  lemma {:induction false} MapsAccepted(buf: bytes)
    requires IsMap(buf)
    ensures AllHeader(MapEntries(buf)) <==> HeaderMap(Parse(buf).v.flat)
    ensures AllBody(MapEntries(buf)) <==> BodyMap(Parse(buf).v.flat)
  {
    hide Parse, ParseMany, ParseHead, Entries, HeaderPair, BodyPair, HeaderEntry, BodyEntry, AllHeader, AllBody;
    ContainerAt(buf, KMap);
    var p, n, flat, es := ParseHead(buf).len, ParseHead(buf).arg, Parse(buf).v.flat, MapEntries(buf);
    AllExactly(es);
    EntriesCount(buf, p, n);
    forall i | 0 <= i < n
      ensures HeaderEntry(es[i]) <==> HeaderPair(flat[2 * i], flat[2 * i + 1])
      ensures BodyEntry(es[i]) <==> BodyPair(flat[2 * i], flat[2 * i + 1])
    {
      EntriesAreFlat(buf, p, n, i);
      PairKinds(es[i], flat[2 * i], flat[2 * i + 1]);
    }
  }

  lemma PairKinds(e: Entry, k: Value, v: Value)
    requires e.v == v && e.plain == k.UInt? && e.key == KeyOf(k)
    ensures HeaderEntry(e) <==> HeaderPair(k, v)
    ensures BodyEntry(e) <==> BodyPair(k, v)
  {
  }

  /** The header loop accepts exactly the maps of numbers under known keys, and the reported fields are the
      last values under those keys, zero if there is none. */
  lemma {:induction false} HeaderMeaning(buf: bytes)
    ensures SpecHeader(buf).Some? <==> IsMap(buf) && HeaderMap(Parse(buf).v.flat)
    ensures SpecHeader(buf).Some? ==>
              var f, flat := SpecHeader(buf).value, Parse(buf).v.flat;
              && f.sync == NumberAt(flat, SYNC) && f.code == NumberAt(flat, CODE) % 0x8000
              && f.schemaId == NumberAt(flat, SCHEMA_ID)
              && f.error == None && f.data == None && f.metadata == None && f.sqlinfo == None
  {
    hide Parse, ParseMany, ParseHead, Entries, HeaderMap;
    if IsMap(buf) {
      MapsAccepted(buf);
      ContainerAt(buf, KMap);
      var p, n := ParseHead(buf).len, ParseHead(buf).arg;
      EntriesMeaning(buf, p, n, SYNC);
      EntriesMeaning(buf, p, n, CODE);
      EntriesMeaning(buf, p, n, SCHEMA_ID);
    }
  }

  function NumberAt(flat: seq<Value>, k: nat): nat
  {
    var v := Lookup(flat, k);
    if v.Some? && v.value.UInt? then v.value.n else 0
  }

  // ---------------------------------------------------------------- framing

  datatype Framing = Wants(n: nat) | Broken | Complete(total: nat)

  /** The length prefix fits the five bytes reserved for it. */
  predicate ShortPrefix(buf: bytes)
  {
    |buf| >= PREFIX ==> buf[0] != 0xcf
  }

  /** `tnt_reply_len`: what a buffer that starts with a frame still needs. */
  function FrameOf(buf: bytes): Framing
    requires ShortPrefix(buf)
  {
    if |buf| < PREFIX then Wants(PREFIX - |buf|)
    else if !IsType(buf, KUInt) then Broken
    else
      PrefixHead(buf);
      var total := ParseHead(buf).arg + PREFIX;
      if |buf| < total then Wants(total - |buf|) else Complete(total)
  }

  lemma PrefixHead(buf: bytes)
    requires |buf| >= PREFIX && buf[0] != 0xcf && IsType(buf, KUInt)
    ensures ParseHead(buf).Head? && ParseHead(buf).len <= PREFIX && ParseHead(buf).arg >= 0
  {
  }

  method ReplyLen(buf: bytes) returns (rc: int, len: nat)
    requires ShortPrefix(buf)
    ensures match FrameOf(buf)
            case Wants(n) => rc == 1 && len == n
            case Broken => rc == -1
            case Complete(total) => rc == 0 && len == total
    ensures rc == -1 <==> |buf| >= 5 && (0x80 <= buf[0] < 0xcc || buf[0] > 0xcf)
    ensures rc != -1 && |buf| < 5 ==> rc == 1 && |buf| + len == 5
    ensures rc == 0 ==> len <= |buf|
  {
    if |buf| < PREFIX { return 1, PREFIX - |buf|; }
    if !IsType(buf, KUInt) { return -1, 0; }
    PrefixHead(buf);
    var length := ParseHead(buf).arg;
    if |buf| < length + PREFIX { return 1, length + PREFIX - |buf|; }
    return 0, length + PREFIX;
  }

  /** Feeding a frame: any proper prefix asks for more, never past the end of the frame, and reading just
      what is asked for completes the frame in one round, or in two when the length was not there yet. */
  lemma {:induction false} PrefixAsks(frame: bytes, k: nat)
    requires ShortPrefix(frame) && FrameOf(frame) == Complete(|frame|) && k < |frame|
    ensures ShortPrefix(frame[..k]) && FrameOf(frame[..k]).Wants?
    ensures var n := FrameOf(frame[..k]).n;
            && n > 0 && k + n <= |frame|
            && (k + n < |frame| ==>
                  k < PREFIX && k + n == PREFIX && ShortPrefix(frame[..k + n]) && FrameOf(frame[..k + n]) == Wants(|frame| - PREFIX))
  {
    hide ParseHead;
    PrefixHead(frame);
    if k >= PREFIX { HeadLocal(frame, frame[..k], PREFIX); }
    if |frame| > PREFIX { HeadLocal(frame, frame[..PREFIX], PREFIX); }
  }

  /** Bytes after a frame do not matter. */
  lemma {:induction false} TrailingIgnored(frame: bytes, more: bytes)
    requires ShortPrefix(frame) && FrameOf(frame) == Complete(|frame|)
    ensures ShortPrefix(frame + more) && FrameOf(frame + more) == Complete(|frame|)
    ensures (frame + more)[PREFIX..|frame|] == frame[PREFIX..]
  {
    hide ParseHead;
    PrefixHead(frame);
    HeadLocal(frame, frame + more, PREFIX);
  }

  /** What is written as a frame is read as one. */
  lemma {:induction false} FramedComplete(payload: bytes, more: bytes)
    requires |payload| < TWO32
    ensures var s := Framed(payload) + more;
            && ShortPrefix(s) && FrameOf(s) == Complete(PREFIX + |payload|)
            && s[PREFIX..PREFIX + |payload|] == payload && s[PREFIX + |payload|..] == more
  {
    hide BE, ParseHead;
    ParseLongUint(|payload|, payload + more);
    assert Framed(payload) + more == LongUint(|payload|) + (payload + more);
  }

  // ---------------------------------------------------------------- the parsers

  /** The fields of a complete payload; None if it is malformed. */
  function SpecPayload(payload: bytes): Option<Fields>
  {
    var h := SpecHeader(payload);
    if h.None? then None
    else
      var len := Parse(payload).len;
      if len == |payload| then h else SpecBody(payload[len..], len, h.value)
  }

  /** The payloads that are replies: a header, and behind it nothing or a body. */
  predicate WellFormed(payload: bytes)
  {
    && IsMap(payload) && HeaderMap(Parse(payload).v.flat)
    && var n := Parse(payload).len;
       n < |payload| ==> IsMap(payload[n..]) && BodyMap(Parse(payload[n..]).v.flat)
  }

  /** What the fields of a reply say: the numbers of its header, and where the values of its body lie. */
  predicate Says(payload: bytes, f: Fields)
    requires WellFormed(payload)
  {
    HeaderSays(payload, f)
    && if HasBody(payload) then BodySays(payload, Parse(payload).len, f)
       else f.error == None && f.data == None && f.metadata == None && f.sqlinfo == None
  }

  predicate HeaderSays(payload: bytes, f: Fields)
    requires IsMap(payload)
  {
    var flat := Parse(payload).v.flat;
    && f.sync == NumberAt(flat, SYNC) && f.code == NumberAt(flat, CODE) % 0x8000
    && f.schemaId == NumberAt(flat, SCHEMA_ID)
  }

  predicate HasBody(payload: bytes)
  {
    Parse(payload).Parsed? && Parse(payload).len < |payload|
  }

  /** A payload is accepted exactly if it is a reply, and the fields say what is in it. */
  lemma {:induction false} PayloadMeaning(payload: bytes)
    ensures SpecPayload(payload).Some? <==> WellFormed(payload)
    ensures SpecPayload(payload).Some? ==> Says(payload, SpecPayload(payload).value)
  {
    hide Parse, SpecHeader, SpecBody, HeaderMap, BodyMap, NumberAt, BodySays;
    HeaderMeaning(payload);
    if SpecHeader(payload).Some? && Parse(payload).len < |payload| {
      var n := Parse(payload).len;
      BodyAccepted(payload[n..], n, SpecHeader(payload).value);
      if SpecPayload(payload).Some? {
        BodyMeaning(payload, n, SpecHeader(payload).value);
      }
    }
  }

  lemma BodyAccepted(buf: bytes, base: nat, f: Fields)
    ensures SpecBody(buf, base, f).Some? <==> IsMap(buf) && BodyMap(Parse(buf).v.flat)
    ensures SpecBody(buf, base, f).Some? ==>
              var g := SpecBody(buf, base, f).value; g.sync == f.sync && g.code == f.code && g.schemaId == f.schemaId
  {
    hide Parse, AllBody, BodyMap, MapEntries, Chars, Whole;
    if IsMap(buf) { MapsAccepted(buf); }
  }

  /** The two loops, one after the other. */
  lemma PayloadParts(payload: bytes)
    ensures SpecHeader(payload).Some? ==> Parse(payload).Parsed? && Parse(payload).len <= |payload|
    ensures SpecHeader(payload).None? ==> SpecPayload(payload).None?
    ensures SpecHeader(payload).Some? ==>
              var h, n := SpecHeader(payload), Parse(payload).len;
              SpecPayload(payload) == if n == |payload| then h else SpecBody(payload[n..], n, h.value)
    ensures SpecHeader(payload).Some? ==>
              var h := SpecHeader(payload).value;
              h == BLANK.(sync := h.sync, code := h.code, schemaId := h.schemaId)
  {
    hide Parse, SpecBody;
  }

  /** The data of an accepted reply lies in its payload. */
  lemma DataInside(payload: bytes)
    ensures SpecPayload(payload).Some? && SpecPayload(payload).value.data.Some? ==>
              var d := SpecPayload(payload).value.data.value; d.lo <= d.hi <= |payload|
  {
    hide SpecPayload, WellFormed, Exact;
    PayloadMeaning(payload);
  }

  predicate PayloadReadable(payload: bytes)
  {
    SpecHeader(payload).Some? ==> BodyReadable(payload[Parse(payload).len..])
  }

  /** `struct tnt_reply` */
  class Reply {
    var buf: Option<bytes>
    var f: Fields

    constructor ()
      ensures buf == None && f == BLANK
    {
      buf, f := None, BLANK;
    }

    /** The second half of `tnt_reply_from`: the payload has been received into `buf`. On failure everything
        is cleared. */
    method Digest(payload: bytes) returns (rc: int)
      requires PayloadReadable(payload)
      modifies this
      ensures if SpecPayload(payload).Some? then rc == 0 && f == SpecPayload(payload).value && buf == Some(payload)
              else rc == -1 && f == BLANK && buf == None
      ensures rc == 0 <==> WellFormed(payload)
      ensures rc == 0 ==> Says(payload, f)
    {
      hide SpecPayload, WellFormed, Says, Parse;
      PayloadMeaning(payload);
      PayloadParts(payload);
      buf, f := Some(payload), BLANK;
      var ok, h, len := DecodeHeader(payload);
      if ok != 0 {
        buf, f := None, BLANK;
        return -1;
      }
      f := h;
      if len == |payload| { return 0; }
      var g, end;
      ok, g, end := DecodeBody(payload[len..], len, f);
      if ok != 0 {
        buf, f := None, BLANK;
        return -1;
      }
      f := g;
      return 0;
    }
  }

  /** What both parsers are asked to read. */
  predicate Readable(buf: bytes)
  {
    ShortPrefix(buf) && (FrameOf(buf).Complete? ==> PayloadReadable(buf[PREFIX..FrameOf(buf).total]))
  }

  lemma CompleteFits(buf: bytes)
    requires ShortPrefix(buf) && FrameOf(buf).Complete?
    ensures PREFIX <= FrameOf(buf).total <= |buf|
  {
  }

  /** `tnt_reply`: the frame is copied out of the buffer. `off` is None where the original leaves it
      alone. */
  method Copying(r: Reply?, buf: bytes) returns (rc: int, off: Option<nat>)
    requires Readable(buf)
    modifies r
    ensures match FrameOf(buf)
            case Wants(n) => rc == 1 && off == Some(n) && (r != null ==> unchanged(r))
            case Broken => rc == -1 && off == None && (r != null ==> unchanged(r))
            case Complete(total) =>
              off == Some(total) &&
              if r == null then rc == 0
              else if SpecPayload(buf[PREFIX..total]).Some?
              then rc == 0 && r.f == SpecPayload(buf[PREFIX..total]).value && r.buf == Some(buf[PREFIX..total])
              else rc == -1 && r.f == BLANK && r.buf == None
    ensures FrameOf(buf).Complete? && r != null ==>
              var payload := buf[PREFIX..FrameOf(buf).total];
              (rc == 0 <==> WellFormed(payload)) && (rc == 0 ==> Says(payload, r.f))
  {
    hide SpecPayload, WellFormed, Says, PayloadReadable;
    var st, length := ReplyLen(buf);
    if st == 1 { return 1, Some(length); }
    if st != 0 { return -1, None; }
    if r == null { return 0, Some(length); }
    CompleteFits(buf);
    var payload, offv := Receive(buf);
    rc := r.Digest(payload);
    off := Some(offv);
  }

  /** `tnt_reply_from` over `tnt_reply_cb`: take five bytes, then as many as they announce. */
  method Receive(buf: bytes) returns (payload: bytes, offv: nat)
    requires ShortPrefix(buf) && FrameOf(buf).Complete?
    ensures offv == FrameOf(buf).total && PREFIX <= offv <= |buf| && payload == buf[PREFIX..offv]
  {
    hide ParseHead;
    CompleteFits(buf);
    PrefixHead(buf);
    offv := 0;
    var prefix := buf[offv..offv + PREFIX];
    offv := offv + PREFIX;
    HeadLocal(buf, prefix, PREFIX);
    var size := ParseHead(prefix).arg;
    payload := buf[offv..offv + size];
    offv := offv + size;
  }

  /** `tnt_reply0`: the fields point into the caller's buffer. */
  method ZeroCopy(r: Reply?, buf: bytes) returns (rc: int, off: Option<nat>)
    requires Readable(buf)
    modifies r
    ensures r != null ==> r.buf == old(r.buf)
    ensures match FrameOf(buf)
            case Wants(n) => rc == 1 && off == Some(n) && (r != null ==> unchanged(r))
            case Broken => rc == -1 && off == None && (r != null ==> unchanged(r))
            case Complete(total) =>
              if r == null then rc == 0 && off == Some(total)
              else if SpecPayload(buf[PREFIX..total]).Some?
              then rc == 0 && off == Some(total)
                   && (old(r.f) == BLANK ==> r.f == SpecPayload(buf[PREFIX..total]).value)
              else rc == -1 && off == None
    ensures FrameOf(buf).Complete? && r != null ==>
              (rc == 0 <==> WellFormed(buf[PREFIX..FrameOf(buf).total]))
              && (rc == 0 ==> Updated(buf[PREFIX..FrameOf(buf).total], old(r.f), r.f))
  {
    hide SpecPayload, WellFormed, Updated, PayloadReadable;
    var st, length := ReplyLen(buf);
    if st == 1 { return 1, Some(length); }
    if st != 0 { return -1, None; }
    if r == null { return 0, Some(length); }
    CompleteFits(buf);
    rc := DecodeInPlace(r, buf[PREFIX..length]);
    off := if rc == 0 then Some(length) else None;
  }

  /** Both loops over a payload that stays where it is: they assign the header fields, and the spans only if
      there is a body. */
  method DecodeInPlace(r: Reply, data: bytes) returns (rc: int)
    requires PayloadReadable(data)
    modifies r
    ensures rc == if SpecPayload(data).Some? then 0 else -1
    ensures r.buf == old(r.buf)
    ensures rc == 0 && old(r.f) == BLANK ==> r.f == SpecPayload(data).value
    ensures rc == 0 <==> WellFormed(data)
    ensures rc == 0 ==> Updated(data, old(r.f), r.f)
  {
    hide SpecPayload, WellFormed, Updated, Parse, SpecBody, SpecHeader;
    PayloadParts(data);
    PayloadMeaning(data);
    var ok, h, len := DecodeHeader(data);
    if ok != 0 { return -1; }
    // hdr0 assigns only the header fields
    r.f := r.f.(sync := h.sync, code := h.code, schemaId := h.schemaId);
    if |data| != len {
      var g, end;
      BodyKeepsHeader(data[len..], len, h, r.f);
      ok, g, end := DecodeBody(data[len..], len, r.f);
      if ok != 0 { return -1; }
      r.f := g;
    }
    UpdatedBy(data, old(r.f), r.f);
    return 0;
  }

  /** What decoding in place makes of the fields of a reply. */
  predicate Updated(payload: bytes, was: Fields, f: Fields)
  {
    && WellFormed(payload) && (HasBody(payload) || was == BLANK ==> Says(payload, f))
    && (!HasBody(payload) ==>
          HeaderSays(payload, f) && f == was.(sync := f.sync, code := f.code, schemaId := f.schemaId))
  }

  lemma UpdatedBy(payload: bytes, was: Fields, f: Fields)
    requires SpecPayload(payload).Some?
    requires var h := SpecPayload(payload).value;
             f == if HasBody(payload) then h else was.(sync := h.sync, code := h.code, schemaId := h.schemaId)
    ensures Updated(payload, was, f)
  {
    hide SpecPayload, WellFormed, Parse, NumberAt, BodySays;
    PayloadMeaning(payload);
  }

  /** The body fields do not depend on the reply they are stored in. */
  lemma BodyKeepsHeader(buf: bytes, base: nat, h: Fields, f: Fields)
    requires f.sync == h.sync && f.code == h.code && f.schemaId == h.schemaId
    ensures SpecBody(buf, base, f) == SpecBody(buf, base, h)
  {
  }

  /** On a fresh reply the two parsers agree: same status, same fields, same consumed length. */
  method Agree(buf: bytes)
    returns (rc: int, rc': int, f: Fields, f': Fields, off: Option<nat>, off': Option<nat>)
    requires Readable(buf)
    ensures rc == rc' && (rc == 0 ==> f == f') && (rc >= 0 ==> off == off' && off.Some?)
    ensures rc == 0 ==> FrameOf(buf) == Complete(off.value) && SpecPayload(buf[PREFIX..off.value]) == Some(f)
    ensures rc == 0 ==> WellFormed(buf[PREFIX..off.value]) && Says(buf[PREFIX..off.value], f)
    ensures rc == 1 <==> FrameOf(buf).Wants?
    ensures rc == 1 ==> FrameOf(buf) == Wants(off.value)
  {
    hide SpecPayload, WellFormed, Says, Updated, PayloadReadable;
    var a := new Reply();
    var b := new Reply();
    rc, off := Copying(a, buf);
    rc', off' := ZeroCopy(b, buf);
    f, f' := a.f, b.f;
  }
}
