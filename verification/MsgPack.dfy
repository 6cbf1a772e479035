/** MessagePack as the client uses it: the value tree, the encoders of msgpuck (`mp_encode_*`,
    `mp_sizeof_*`), and a decoder that stands for `mp_typeof`, `mp_decode_*`, `mp_check` and
    `mp_next`. msgpuck itself is not part of this model; the byte formats are those of the
    MessagePack specification, section "Formats". */
module MsgPack {
  import opened Seqs

  type byte = x: int | 0 <= x < 0x100
  type bytes = seq<byte>
  type u32 = x: int | 0 <= x < 0x1_0000_0000
  type u64 = x: int | 0 <= x < 0x1_0000_0000_0000_0000

  const TWO31: int := 0x8000_0000
  const TWO32: int := 0x1_0000_0000
  const TWO63: int := 0x8000_0000_0000_0000
  const TWO64: int := 0x1_0000_0000_0000_0000

  // ---------------------------------------------------------------- big-endian numbers

  function Pow256(k: nat): (p: nat)
    ensures p > 0
  {
    if k == 0 then 1 else 256 * Pow256(k - 1)
  }

  /** `mp_store_u8/u16/u32/u64`: the low k bytes of n, most significant first. */
  function BE(n: nat, k: nat): (s: bytes)
    ensures |s| == k
  {
    if k == 0 then [] else BE(n / 256, k - 1) + [n % 256]
  }

  function FromBE(s: bytes): nat
  {
    if |s| == 0 then 0 else 256 * FromBE(s[..|s| - 1]) + s[|s| - 1]
  }

  lemma {:induction false} PowValues()
    ensures Pow256(1) == 0x100 && Pow256(2) == 0x1_0000 && Pow256(4) == TWO32 && Pow256(8) == TWO64
  {
    assert Pow256(0) == 1;
    assert Pow256(3) == 0x100_0000 by { assert Pow256(2) == 0x1_0000; }
    assert Pow256(5) == 0x100_0000_0000;
    assert Pow256(7) == 0x100_0000_0000_0000 by { assert Pow256(6) == 0x1_0000_0000_0000; }
  }

  lemma {:induction false} BEInverse(n: nat, k: nat)
    requires n < Pow256(k)
    ensures FromBE(BE(n, k)) == n
  {
    if k > 0 {
      BEInverse(n / 256, k - 1);
      assert BE(n, k)[..k - 1] == BE(n / 256, k - 1);
    }
  }

  /** The bytes of a number, most significant first. */
  lemma {:induction false} BEDigits(n: nat)
    ensures BE(n, 1) == [n % 256] && BE(n, 2) == [n / 0x100 % 256, n % 256]
    ensures BE(n, 4) == [n / 0x100_0000 % 256, n / 0x1_0000 % 256, n / 0x100 % 256, n % 256]
    ensures BE(n, 8) == BE(n / TWO32, 4) + BE(n, 4)
  {
    hide BE;
    BEOnly(n / 0x100);
    BEMore(n, 0);
    BEOnly(n / 0x100 / 0x100);
    BEMore(n / 0x100, 0);
    BEMore(n, 1);
    BEOnly(n / 0x100 / 0x100 / 0x100 / 0x100);
    BEFour(n, 0);
    BEHigh(n);
  }

  lemma BEMore(n: nat, k: nat)
    ensures BE(n, k + 1) == BE(n / 256, k) + [n % 256]
  {
  }

  lemma BEHigh(n: nat)
    ensures BE(n, 8) == BE(n / TWO32, 4) + BE(n, 4)
  {
    hide BE;
    var x := n / 0x100;
    var y := x / 0x100;
    var z := y / 0x100;
    var top := z / 0x100;
    assert top == n / TWO32;
    BEFour(n, 4);
    BEFour(n, 0);
    BEOnly(top);
    assert BE(top, 4) + [z % 256] + [y % 256] + [x % 256] + [n % 256]
        == BE(top, 4) + ([] + [z % 256] + [y % 256] + [x % 256] + [n % 256]);
  }

  lemma BEFour(n: nat, k: nat)
    ensures var x := n / 0x100;
            var y := x / 0x100;
            var z := y / 0x100;
            BE(n, k + 4) == BE(z / 0x100, k) + [z % 256] + [y % 256] + [x % 256] + [n % 256]
  {
    hide BE;
    BEMore(n, k + 3);
    BEMore(n / 0x100, k + 2);
    BEMore(n / 0x100 / 0x100, k + 1);
    BEMore(n / 0x100 / 0x100 / 0x100, k);
  }

  lemma BEOnly(n: nat)
    ensures BE(n, 0) == []
  {
  }

  lemma {:induction false} FromBEBound(s: bytes)
    ensures FromBE(s) < Pow256(|s|)
  {
    if |s| > 0 { FromBEBound(s[..|s| - 1]); }
  }

  // ---------------------------------------------------------------- values

  /** The `enum mp_type` of msgpuck. */
  datatype Kind = KNil | KUInt | KInt | KStr | KBin | KArray | KMap | KBool | KFloat | KDouble | KExt

  /** A decoded MessagePack value. Floats and doubles are carried as their bit patterns; a map
      holds its keys and values alternately, so its length is even; `Ext` holds the type byte
      followed by the data. */
  datatype Value =
    | Nil
    | UInt(n: nat)
    | Int(i: int)
    | Str(str: bytes)
    | Bin(bin: bytes)
    | Array(items: seq<Value>)
    | Map(flat: seq<Value>)
    | Bool(b: bool)
    | Float(bits32: nat)
    | Double(bits64: nat)
    | Ext(payload: bytes)

  function KindOf(v: Value): Kind
  {
    match v
    case Nil => KNil
    case UInt(_) => KUInt
    case Int(_) => KInt
    case Str(_) => KStr
    case Bin(_) => KBin
    case Array(_) => KArray
    case Map(_) => KMap
    case Bool(_) => KBool
    case Float(_) => KFloat
    case Double(_) => KDouble
    case Ext(_) => KExt
  }

  /** The values the encoders of msgpuck can write: widths fit, `Int` is negative. */
  predicate Wf(v: Value)
  {
    match v
    case Nil => true
    case UInt(n) => n < TWO64
    case Int(i) => -TWO63 <= i < 0
    case Str(s) => |s| < TWO32
    case Bin(s) => |s| < TWO32
    case Array(vs) => |vs| < TWO32 && forall i :: 0 <= i < |vs| ==> Wf(vs[i])
    case Map(vs) => |vs| < 2 * TWO32 && |vs| % 2 == 0 && forall i :: 0 <= i < |vs| ==> Wf(vs[i])
    case Bool(_) => true
    case Float(n) => n < TWO32
    case Double(n) => n < TWO64
    case Ext(_) => false
  }

  predicate WfAll(vs: seq<Value>)
  {
    forall i :: 0 <= i < |vs| ==> Wf(vs[i])
  }

  // ---------------------------------------------------------------- headers

  /** What the first byte says: the type, how many argument bytes follow it, and, when none do,
      the argument packed into the byte itself. */
  datatype Lead = Bad | Lead(kind: Kind, width: nat, imm: int)

  function LeadOf(c: byte): Lead
  {
    if c < 0x80 then Lead(KUInt, 0, c)
    else if c < 0x90 then Lead(KMap, 0, c - 0x80)
    else if c < 0xa0 then Lead(KArray, 0, c - 0x90)
    else if c < 0xc0 then Lead(KStr, 0, c - 0xa0)
    else if c == 0xc0 then Lead(KNil, 0, 0)
    else if c == 0xc1 then Bad
    else if c < 0xc4 then Lead(KBool, 0, c - 0xc2)
    else if c < 0xc7 then Lead(KBin, Width(c - 0xc4), 0)
    else if c < 0xca then Lead(KExt, Width(c - 0xc7), 0)
    else if c == 0xca then Lead(KFloat, 4, 0)
    else if c == 0xcb then Lead(KDouble, 8, 0)
    else if c < 0xd0 then Lead(KUInt, Width(c - 0xcc), 0)
    else if c < 0xd4 then Lead(KInt, Width(c - 0xd0), 0)
    else if c < 0xd9 then Lead(KExt, 0, FixExt(c - 0xd4))
    else if c < 0xdc then Lead(KStr, Width(c - 0xd9), 0)
    else if c < 0xde then Lead(KArray, Width(c - 0xdb), 0)
    else if c < 0xe0 then Lead(KMap, Width(c - 0xdd), 0)
    else Lead(KInt, 0, c - 0x100)
  }

  /** The four widths of a family are 1, 2, 4 and 8 bytes. */
  function Width(i: nat): nat
  {
    if i == 0 then 1 else if i == 1 then 2 else if i == 2 then 4 else 8
  }

  function FixExt(i: nat): nat
  {
    if i == 4 then 16 else Width(i)
  }

  /** `mp_typeof`: the type is fixed by the first byte. */
  predicate IsType(s: bytes, k: Kind)
  {
    |s| > 0 && LeadOf(s[0]).Lead? && LeadOf(s[0]).kind == k
  }

  /** Two's complement reading of a width-byte argument. */
  function Signed(n: nat, width: nat): int
  {
    if 2 * n < Pow256(width) then n else n - Pow256(width)
  }

  datatype Head = NoHead | Head(kind: Kind, arg: int, len: nat)

  /** `mp_decode_uint`, `mp_decode_array`, `mp_decode_strl`, ...: the header at the start of s. */
  function ParseHead(s: bytes): (h: Head)
    ensures h.Head? ==> 1 <= h.len <= |s| && (h.kind != KInt ==> h.arg >= 0)
  {
    if |s| == 0 then NoHead else
    match LeadOf(s[0])
    case Bad => NoHead
    case Lead(kind, width, imm) =>
      if |s| < 1 + width then NoHead
      else if width == 0 then Head(kind, imm, 1)
      else
        var n := FromBE(s[1..1 + width]);
        Head(kind, if kind == KInt then Signed(n, width) else n, 1 + width)
  }

  /** The shortest header of a type with a given argument (`mp_encode_uint`, `mp_encode_int`,
      `mp_encode_strl`, `mp_encode_binl`, `mp_encode_array`, `mp_encode_map`, ...). */
  function EncHead(kind: Kind, arg: int): (s: bytes)
    requires HeadArg(kind, arg)
    ensures 1 <= |s| <= 9
    ensures kind in {KStr, KBin, KArray, KMap} ==> |s| <= 5
  {
    match kind
    case KNil => [0xc0]
    case KBool => [0xc2 + arg]
    case KUInt => if arg < 0x80 then [arg] else Sized(0xcc, arg)
    case KInt =>
      if -0x20 <= arg then [0x100 + arg]
      else if -0x80 <= arg then [0xd0] + BE(arg + 0x100, 1)
      else if -0x8000 <= arg then [0xd1] + BE(arg + 0x1_0000, 2)
      else if -TWO31 <= arg then [0xd2] + BE(arg + TWO32, 4)
      else [0xd3] + BE(arg + TWO64, 8)
    case KStr => if arg < 0x20 then [0xa0 + arg] else Sized(0xd9, arg)
    case KBin => Sized(0xc4, arg)
    case KArray =>
      if arg < 0x10 then [0x90 + arg] else if arg < 0x1_0000 then [0xdc] + BE(arg, 2) else [0xdd] + BE(arg, 4)
    case KMap =>
      if arg < 0x10 then [0x80 + arg] else if arg < 0x1_0000 then [0xde] + BE(arg, 2) else [0xdf] + BE(arg, 4)
    case KFloat => [0xca] + BE(arg, 4)
    case KDouble => [0xcb] + BE(arg, 8)
  }

  /** The 1, 2, 4 or 8 byte form of a family whose first code is base. */
  function Sized(base: byte, n: nat): (s: bytes)
    requires base <= 0xd9 && n < TWO64
    ensures 2 <= |s| <= 9 && (n < TWO32 ==> |s| <= 5)
  {
    if n < 0x100 then [base] + BE(n, 1)
    else if n < 0x1_0000 then [base + 1] + BE(n, 2)
    else if n < TWO32 then [base + 2] + BE(n, 4)
    else [base + 3] + BE(n, 8)
  }

  predicate HeadArg(kind: Kind, arg: int)
  {
    match kind
    case KNil => arg == 0
    case KBool => 0 <= arg <= 1
    case KUInt => 0 <= arg < TWO64
    case KInt => -TWO63 <= arg < 0
    case KFloat => 0 <= arg < TWO32
    case KDouble => 0 <= arg < TWO64
    case KExt => false
    case _ => 0 <= arg < TWO32
  }

  /** `mp_encode_array32` and `mp_encode_map32`: the header that is always five bytes. */
  function EncHead32(kind: Kind, arg: nat): (s: bytes)
    requires kind == KArray || kind == KMap
    ensures |s| == 5
  {
    [if kind == KMap then 0xdf else 0xdd] + BE(arg, 4)
  }

  function EncUint(n: nat): (s: bytes)
    requires n < TWO64
    ensures 1 <= |s| <= 9 && (n < TWO32 ==> |s| <= 5) && (n < 0x80 ==> |s| == 1)
  {
    EncHead(KUInt, n)
  }

  /** The formats of the specification, each at the first argument that needs it: numbers, ... */
  lemma NumberFormats()
    ensures EncHead(KUInt, 0) == [0x00] && EncHead(KUInt, 0x80) == [0xcc, 0x80] && EncHead(KUInt, 0x100) == [0xcd, 1, 0]
    ensures EncHead(KUInt, 0x1_0000) == [0xce, 0, 1, 0, 0] && EncHead(KUInt, TWO32) == [0xcf, 0, 0, 0, 1, 0, 0, 0, 0]
    ensures EncHead(KFloat, 1) == [0xca, 0, 0, 0, 1] && EncHead(KDouble, 1) == [0xcb, 0, 0, 0, 0, 0, 0, 0, 1]
  {
    hide BE;
    BEDigits(0);
    BEDigits(1);
    BEDigits(0x80);
    BEDigits(0x100);
    BEDigits(0x1_0000);
    BEDigits(TWO32);
  }

  /** ... negative numbers, ... */
  lemma NegativeFormats()
    ensures EncHead(KInt, -1) == [0xff] && EncHead(KInt, -0x21) == [0xd0, 0xdf]
    ensures EncHead(KInt, -0x81) == [0xd1, 0xff, 0x7f]
    ensures EncHead(KInt, -0x8001) == [0xd2, 0xff, 0xff, 0x7f, 0xff]
    ensures EncHead(KInt, -TWO31 - 1) == [0xd3, 0xff, 0xff, 0xff, 0xff, 0x7f, 0xff, 0xff, 0xff]
  {
    hide BE;
    BEDigits(0xdf);
    BEDigits(0xff7f);
    BEDigits(0xffff_7fff);
    LongDigits();
  }

  lemma LongDigits()
    ensures BE(TWO64 - TWO31 - 1, 8) == [0xff, 0xff, 0xff, 0xff, 0x7f, 0xff, 0xff, 0xff]
  {
    hide BE;
    BEDigits(0xffff_ffff);
    BEDigits(0xffff_ffff_7fff_ffff);
  }

  /** ... strings and binaries, ... */
  lemma BlobFormats()
    ensures EncHead(KStr, 0) == [0xa0] && EncHead(KStr, 0x20) == [0xd9, 0x20] && EncHead(KStr, 0x100) == [0xda, 1, 0]
    ensures EncHead(KStr, 0x1_0000) == [0xdb, 0, 1, 0, 0]
    ensures EncHead(KBin, 0) == [0xc4, 0] && EncHead(KBin, 0x100) == [0xc5, 1, 0]
    ensures EncHead(KBin, 0x1_0000) == [0xc6, 0, 1, 0, 0]
  {
    hide BE;
    BEDigits(0);
    BEDigits(0x20);
    BEDigits(0x100);
    BEDigits(0x1_0000);
  }

  /** ... nil, booleans and containers. */
  lemma OtherFormats()
    ensures EncHead(KNil, 0) == [0xc0] && EncHead(KBool, 0) == [0xc2] && EncHead(KBool, 1) == [0xc3]
    ensures EncHead(KArray, 0) == [0x90] && EncHead(KArray, 0x10) == [0xdc, 0, 0x10]
    ensures EncHead(KArray, 0x1_0000) == [0xdd, 0, 1, 0, 0]
    ensures EncHead(KMap, 0) == [0x80] && EncHead(KMap, 0x10) == [0xde, 0, 0x10]
    ensures EncHead(KMap, 0x1_0000) == [0xdf, 0, 1, 0, 0]
  {
    hide BE;
    BEDigits(0x10);
    BEDigits(0x1_0000);
  }

  lemma {:induction false} ParseWide(c: byte, n: nat, rest: bytes)
    requires LeadOf(c).Lead? && LeadOf(c).width > 0
    requires n < Pow256(LeadOf(c).width)
    ensures var l := LeadOf(c);
            ParseHead([c] + BE(n, l.width) + rest)
            == Head(l.kind, if l.kind == KInt then Signed(n, l.width) else n, 1 + l.width)
  {
    var w := LeadOf(c).width;
    var s := [c] + BE(n, w) + rest;
    assert s[1..1 + w] == BE(n, w);
    BEInverse(n, w);
  }

  lemma {:induction false} ParseSized(base: byte, kind: Kind, n: nat, rest: bytes)
    requires (base == 0xcc && kind == KUInt && n < TWO64)
             || (base == 0xc4 && kind == KBin && n < TWO32) || (base == 0xd9 && kind == KStr && n < TWO32)
    ensures ParseHead(Sized(base, n) + rest) == Head(kind, n, |Sized(base, n)|)
  {
    PowValues();
    ParseWide(if n < 0x100 then base else if n < 0x1_0000 then base + 1 else if n < TWO32 then base + 2 else base + 3,
              n, rest);
  }

  lemma ParseFixNegative(i: int, rest: bytes)
    requires -0x20 <= i < 0
    ensures ParseHead(EncHead(KInt, i) + rest) == Head(KInt, i, |EncHead(KInt, i)|)
  {
    assert EncHead(KInt, i) == [0x100 + i];
  }

  /** The first byte of a negative number that takes more than one. */
  function NegativeCode(i: int): byte
  {
    if -0x80 <= i then 0xd0 else if -0x8000 <= i then 0xd1 else if -TWO31 <= i then 0xd2 else 0xd3
  }

  lemma NegativeForm(i: int)
    requires -TWO63 <= i < -0x20
    ensures var c := NegativeCode(i);
            var w := LeadOf(c).width;
            i < 0 <= 2 * i + Pow256(w) && EncHead(KInt, i) == [c] + BE(i + Pow256(w), w)
  {
    hide BE, Pow256;
    PowValues();
  }

  lemma {:induction false} ParseNegative(i: int, rest: bytes)
    requires -TWO63 <= i < 0
    ensures ParseHead(EncHead(KInt, i) + rest) == Head(KInt, i, |EncHead(KInt, i)|)
  {
    if -0x20 <= i {
      ParseFixNegative(i, rest);
    } else {
      hide BE, ParseHead, EncHead, Pow256, LeadOf;
      NegativeForm(i);
      ParseTwos(NegativeCode(i), i, rest);
    }
  }

  /** One two's-complement form of a negative number. */
  lemma {:induction false} ParseTwos(c: byte, i: int, rest: bytes)
    requires 0xd0 <= c <= 0xd3
    requires var p := Pow256(LeadOf(c).width); i < 0 <= 2 * i + p
    ensures var w := LeadOf(c).width;
            ParseHead([c] + BE(i + Pow256(w), w) + rest) == Head(KInt, i, 1 + w)
  {
    ParseWide(c, i + Pow256(LeadOf(c).width), rest);
  }

  /** Decoding a header undoes encoding it, whatever follows. */
  lemma {:induction false} ParseEncHead(kind: Kind, arg: int, rest: bytes)
    requires HeadArg(kind, arg)
    ensures ParseHead(EncHead(kind, arg) + rest) == Head(kind, arg, |EncHead(kind, arg)|)
  {
    PowValues();
    match kind
    case KUInt => if arg >= 0x80 { ParseSized(0xcc, KUInt, arg, rest); }
    case KInt => ParseNegative(arg, rest);
    case KStr => if arg >= 0x20 { ParseSized(0xd9, KStr, arg, rest); }
    case KBin => ParseSized(0xc4, KBin, arg, rest);
    case KArray => if arg >= 0x10 { ParseWide(if arg < 0x1_0000 then 0xdc else 0xdd, arg, rest); }
    case KMap => if arg >= 0x10 { ParseWide(if arg < 0x1_0000 then 0xde else 0xdf, arg, rest); }
    case KFloat => ParseWide(0xca, arg, rest);
    case KDouble => ParseWide(0xcb, arg, rest);
    case _ =>
  }

  lemma {:induction false} ParseEncHead32(kind: Kind, arg: nat, rest: bytes)
    requires kind == KArray || kind == KMap
    requires arg < TWO32
    ensures ParseHead(EncHead32(kind, arg) + rest) == Head(kind, arg, 5)
  {
    PowValues();
    ParseWide(if kind == KMap then 0xdf else 0xdd, arg, rest);
  }

  /** No header of a type with a given argument is shorter than the one the encoder picks. */
  lemma {:induction false} EncHeadShortest(s: bytes)
    requires ParseHead(s).Head?
    requires HeadArg(ParseHead(s).kind, ParseHead(s).arg)
    ensures |EncHead(ParseHead(s).kind, ParseHead(s).arg)| <= ParseHead(s).len
  {
    PowValues();
    var w := LeadOf(s[0]).width;
    FromBEBound(s[1..1 + w]);
  }

  // ---------------------------------------------------------------- decoding values

  datatype Parsed = NoParse | Parsed(v: Value, len: nat)
  datatype ParsedMany = NoParses | ParsedMany(vs: seq<Value>, len: nat)

  /** How many values follow the header of a container. */
  function Children(h: Head): nat
    requires h.Head? && h.kind != KInt && h.arg >= 0
  {
    if h.kind == KMap then 2 * h.arg else h.arg
  }

  /** How many payload bytes follow the header of a scalar. */
  function Payload(h: Head): nat
    requires h.Head? && (h.kind != KInt ==> h.arg >= 0)
  {
    match h.kind
    case KStr => h.arg
    case KBin => h.arg
    case KExt => h.arg + 1
    case _ => 0
  }

  function Scalar(h: Head, payload: bytes): Value
    requires h.Head? && (h.kind != KInt ==> h.arg >= 0)
  {
    match h.kind
    case KUInt => UInt(h.arg)
    case KInt => Int(h.arg)
    case KStr => Str(payload)
    case KBin => Bin(payload)
    case KBool => Bool(h.arg == 1)
    case KFloat => Float(h.arg)
    case KDouble => Double(h.arg)
    case KExt => Ext(payload)
    case _ => Nil
  }

  predicate IsContainer(k: Kind) { k == KArray || k == KMap }

  /** The value at the start of s and its length. `mp_check` succeeds exactly when there is one;
      `mp_next` advances by the length. */
  function Parse(s: bytes): (r: Parsed)
    ensures r.Parsed? ==> 1 <= r.len <= |s|
    decreases |s|, 0
  {
    var h := ParseHead(s);
    if h.NoHead? then NoParse
    else if IsContainer(h.kind) then
      match ParseMany(s[h.len..], Children(h))
      case NoParses => NoParse
      case ParsedMany(vs, len) => Parsed(if h.kind == KMap then Map(vs) else Array(vs), h.len + len)
    else if |s| < h.len + Payload(h) then NoParse
    else Parsed(Scalar(h, s[h.len..h.len + Payload(h)]), h.len + Payload(h))
  }

  /** The first n values of s. */
  function ParseMany(s: bytes, n: nat): (r: ParsedMany)
    ensures r.ParsedMany? ==> r.len <= |s| && |r.vs| == n
    decreases |s|, 1
  {
    if n == 0 then ParsedMany([], 0) else
    match Parse(s)
    case NoParse => NoParses
    case Parsed(v, len) =>
      match ParseMany(s[len..], n - 1)
      case NoParses => NoParses
      case ParsedMany(vs, more) => ParsedMany([v] + vs, len + more)
  }

  // ---------------------------------------------------------------- encoding values

  /** `enum tnt_sbo_type`: how a container header is written. */
  datatype Mode = Simple | Sparse | Packed

  function ContainerHead(mode: Mode, kind: Kind, n: nat): (s: bytes)
    requires IsContainer(kind) && n < TWO32
    ensures 1 <= |s| <= 5
  {
    if mode == Sparse then EncHead32(kind, n) else EncHead(kind, n)
  }

  function Encode(mode: Mode, v: Value): (s: bytes)
    requires Wf(v)
    ensures |s| >= 1
    decreases v, 1
  {
    match v
    case Nil => EncHead(KNil, 0)
    case UInt(n) => EncHead(KUInt, n)
    case Int(i) => EncHead(KInt, i)
    case Str(s) => EncHead(KStr, |s|) + s
    case Bin(s) => EncHead(KBin, |s|) + s
    case Array(vs) => ContainerHead(mode, KArray, |vs|) + EncodeAll(mode, vs)
    case Map(vs) => ContainerHead(mode, KMap, |vs| / 2) + EncodeAll(mode, vs)
    case Bool(b) => EncHead(KBool, if b then 1 else 0)
    case Float(n) => EncHead(KFloat, n)
    case Double(n) => EncHead(KDouble, n)
  }

  function EncodeAll(mode: Mode, vs: seq<Value>): bytes
    requires WfAll(vs)
    decreases vs, 0
  {
    if |vs| == 0 then [] else Encode(mode, vs[0]) + EncodeAll(mode, vs[1..])
  }

  lemma {:induction false} EncodeAllAppend(mode: Mode, a: seq<Value>, b: seq<Value>)
    requires WfAll(a) && WfAll(b)
    ensures WfAll(a + b)
    ensures EncodeAll(mode, a + b) == EncodeAll(mode, a) + EncodeAll(mode, b)
  {
    hide Encode, Wf;
    if |a| == 0 {
      assert a + b == b;
    } else {
      EncodeAllAppend(mode, a[1..], b);
      assert (a + b)[0] == a[0] && (a + b)[1..] == a[1..] + b;
      Assoc(Encode(mode, a[0]), EncodeAll(mode, a[1..]), EncodeAll(mode, b));
    }
  }

  lemma EncodeOne(mode: Mode, v: Value)
    requires Wf(v)
    ensures EncodeAll(mode, [v]) == Encode(mode, v)
  {
    assert [v][1..] == [];
  }

  /** Round trip: decoding undoes encoding, in every mode, whatever bytes follow. */
  lemma {:induction false} ParseEncode(mode: Mode, v: Value, rest: bytes)
    requires Wf(v)
    ensures Parse(Encode(mode, v) + rest) == Parsed(v, |Encode(mode, v)|)
    decreases v, 1
  {
    hide Parse, ParseMany, ParseHead, EncHead, ContainerHead, EncodeAll;
    match v
    case Array(vs) =>
      ParseEncodeAll(mode, vs, rest);
      ParseContainer(mode, KArray, |vs|, vs, EncodeAll(mode, vs), rest);
    case Map(vs) =>
      ParseEncodeAll(mode, vs, rest);
      ParseContainer(mode, KMap, |vs| / 2, vs, EncodeAll(mode, vs), rest);
    case Str(b) => ParseBlob(KStr, b, rest);
    case Bin(b) => ParseBlob(KBin, b, rest);
    case Nil => ParseScalar(KNil, 0, rest);
    case UInt(n) => ParseScalar(KUInt, n, rest);
    case Int(i) => ParseScalar(KInt, i, rest);
    case Bool(b) => ParseScalar(KBool, if b then 1 else 0, rest);
    case Float(n) => ParseScalar(KFloat, n, rest);
    case Double(n) => ParseScalar(KDouble, n, rest);
  }

  lemma {:induction false} ParseScalar(kind: Kind, arg: int, rest: bytes)
    requires HeadArg(kind, arg) && !IsContainer(kind) && kind != KStr && kind != KBin
    ensures var hd := EncHead(kind, arg); Parse(hd + rest) == Parsed(Scalar(Head(kind, arg, |hd|), []), |hd|)
  {
    var hd := EncHead(kind, arg);
    ParseEncHead(kind, arg, rest);
    assert (hd + rest)[|hd|..|hd|] == [];
  }

  lemma {:induction false} ParseBlob(kind: Kind, b: bytes, rest: bytes)
    requires (kind == KStr || kind == KBin) && |b| < TWO32
    ensures Parse(EncHead(kind, |b|) + b + rest)
            == Parsed(if kind == KStr then Str(b) else Bin(b), |EncHead(kind, |b|)| + |b|)
  {
    ParseEncHead(kind, |b|, b + rest);
    ParsePayload(EncHead(kind, |b|), kind, b, rest);
  }

  lemma {:induction false} ParsePayload(hd: bytes, kind: Kind, b: bytes, rest: bytes)
    requires kind == KStr || kind == KBin
    requires ParseHead(hd + (b + rest)) == Head(kind, |b|, |hd|)
    ensures Parse(hd + b + rest) == Parsed(if kind == KStr then Str(b) else Bin(b), |hd| + |b|)
  {
    assert hd + b + rest == hd + (b + rest);
    assert (hd + b + rest)[|hd|..|hd| + |b|] == b;
  }

  /** Extensions of 1, 2, 4, 8 or 16 bytes behind their type byte. */
  lemma FixExtFormats(code: byte, tp: byte, data: bytes, rest: bytes)
    requires 0xd4 <= code <= 0xd8 && |data| == [1, 2, 4, 8, 16][code - 0xd4]
    ensures Parse([code, tp] + data + rest) == Parsed(Ext([tp] + data), 2 + |data|)
  {
    hide FromBE;
    var s := [code, tp] + data + rest;
    assert s[1..2 + |data|] == [tp] + data;
  }

  /** Extensions with a length of 1, 2 or 4 bytes in front. */
  lemma {:induction false} ExtFormats(code: byte, tp: byte, data: bytes, rest: bytes)
    requires 0xc7 <= code <= 0xc9
    requires var w := [1, 2, 4][code - 0xc7]; |data| < Pow256(w)
    ensures var w := [1, 2, 4][code - 0xc7];
            Parse([code] + BE(|data|, w) + ([tp] + data + rest)) == Parsed(Ext([tp] + data), 2 + w + |data|)
  {
    hide BE, ParseHead;
    var w := [1, 2, 4][code - 0xc7];
    var s := [code] + BE(|data|, w) + ([tp] + data + rest);
    ParseWide(code, |data|, [tp] + data + rest);
    AfterHead([code] + BE(|data|, w), [tp] + data, rest);
  }

  lemma AfterHead(hd: bytes, b: bytes, rest: bytes)
    ensures (hd + (b + rest))[|hd|..|hd| + |b|] == b
  {
  }

  lemma {:induction false} ParseContainer(mode: Mode, kind: Kind, n: nat, vs: seq<Value>, tl: bytes, rest: bytes)
    requires IsContainer(kind) && n < TWO32
    requires |vs| == if kind == KMap then 2 * n else n
    requires ParseMany(tl + rest, |vs|) == ParsedMany(vs, |tl|)
    ensures Parse(ContainerHead(mode, kind, n) + tl + rest)
            == Parsed(if kind == KMap then Map(vs) else Array(vs), |ContainerHead(mode, kind, n)| + |tl|)
  {
    hide ContainerHead, ParseHead, ParseMany;
    var hd := ContainerHead(mode, kind, n);
    ParseContainerHead(mode, kind, n, tl + rest);
    Assoc(hd, tl, rest);
    assert (hd + tl + rest)[|hd|..] == tl + rest;
  }

  lemma {:induction false} ParseContainerHead(mode: Mode, kind: Kind, n: nat, rest: bytes)
    requires IsContainer(kind) && n < TWO32
    ensures ParseHead(ContainerHead(mode, kind, n) + rest) == Head(kind, n, |ContainerHead(mode, kind, n)|)
  {
    if mode == Sparse { ParseEncHead32(kind, n, rest); } else { ParseEncHead(kind, n, rest); }
  }

  lemma {:induction false} ParseEncodeAll(mode: Mode, vs: seq<Value>, rest: bytes)
    requires WfAll(vs)
    ensures ParseMany(EncodeAll(mode, vs) + rest, |vs|) == ParsedMany(vs, |EncodeAll(mode, vs)|)
    decreases vs, 0
  {
    hide Parse, ParseMany, Encode;
    if |vs| == 0 {
      ParseManyNil(EncodeAll(mode, vs) + rest);
    } else {
      var hd, tl := Encode(mode, vs[0]), EncodeAll(mode, vs[1..]);
      var s := EncodeAll(mode, vs) + rest;
      assert s == hd + (tl + rest);
      ParseEncode(mode, vs[0], tl + rest);
      ParseEncodeAll(mode, vs[1..], rest);
      assert s[|hd|..] == tl + rest;
      ParseManyCons(s, |vs|, vs[1..], |tl|);
      assert vs == [vs[0]] + vs[1..];
    }
  }

  /** Decoding looks at no byte after the value it finds. */
  lemma {:induction false} ParseLocal(s: bytes, t: bytes)
    requires Parse(s).Parsed?
    requires Parse(s).len <= |t| && t[..Parse(s).len] == s[..Parse(s).len]
    ensures Parse(t) == Parse(s)
    decreases |s|, 0
  {
    hide ParseHead, ParseMany, Scalar, Payload;
    var h, k := ParseHead(s), Parse(s).len;
    HeadLocal(s, t, k);
    SameSlice(s, t, h.len, k);
    if IsContainer(h.kind) {
      ParseManyLocal(s[h.len..], t[h.len..], Children(h));
    }
  }

  lemma SameSlice(s: bytes, t: bytes, i: nat, k: nat)
    requires i <= k <= |s| && k <= |t| && s[..k] == t[..k]
    ensures s[i..k] == t[i..k] && s[i..][..k - i] == t[i..][..k - i]
  {
    SliceOfPrefix(s, k, i, k);
    SliceOfPrefix(t, k, i, k);
    SliceOfDrop(s, i, i, k);
    SliceOfDrop(t, i, i, k);
  }

  lemma {:induction false} HeadLocal(s: bytes, t: bytes, k: nat)
    requires ParseHead(s).Head?
    requires ParseHead(s).len <= k <= |s| && k <= |t| && t[..k] == s[..k]
    ensures ParseHead(t) == ParseHead(s)
  {
    assert s[0] == s[..k][0] == t[..k][0] == t[0];
    var w := LeadOf(s[0]).width;
    assert 1 + w == ParseHead(s).len;
    SliceOfPrefix(s, k, 1, 1 + w);
    SliceOfPrefix(t, k, 1, 1 + w);
  }

  lemma {:induction false} ParseManyLocal(s: bytes, t: bytes, n: nat)
    requires ParseMany(s, n).ParsedMany?
    requires ParseMany(s, n).len <= |t| && t[..ParseMany(s, n).len] == s[..ParseMany(s, n).len]
    ensures ParseMany(t, n) == ParseMany(s, n)
    decreases |s|, 1
  {
    hide Parse, ParseMany;
    if n == 0 {
      ParseManyNil(s);
      ParseManyNil(t);
    } else {
      var k := ParseMany(s, n).len;
      var rest := ParseManyUncons(s, n);
      var j := Parse(s).len;
      assert s[..j] == s[..k][..j] && t[..j] == t[..k][..j];
      ParseLocal(s, t);
      assert s[j..][..k - j] == s[..k][j..] && t[j..][..k - j] == t[..k][j..];
      ParseManyLocal(s[j..], t[j..], n - 1);
      ParseManyCons(t, n, rest.vs, rest.len);
    }
  }

  /** Every encoding of a tree is at least as long as the Packed one. */
  lemma {:induction false} PackedShortest(s: bytes)
    requires Parse(s).Parsed? && Wf(Parse(s).v)
    ensures |Encode(Packed, Parse(s).v)| <= Parse(s).len
    decreases |s|, 0
  {
    if IsContainer(KindOf(Parse(s).v)) {
      hide Parse, ParseMany, ParseHead, EncHead;
      ContainerAt(s, KindOf(Parse(s).v));
      EncHeadShortest(s);
      PackedShortestAll(s[ParseHead(s).len..], Children(ParseHead(s)));
    } else {
      PackedScalar(s);
    }
  }

  lemma PackedScalar(s: bytes)
    requires Parse(s).Parsed? && Wf(Parse(s).v) && !IsContainer(KindOf(Parse(s).v))
    ensures |Encode(Packed, Parse(s).v)| <= Parse(s).len
  {
    hide ParseMany, EncHead, ParseHead;
    if ParseHead(s).kind != KInt { ScalarArg(s); }
    EncHeadShortest(s);
  }

  lemma ScalarArg(s: bytes)
    requires ParseHead(s).Head? && !IsContainer(ParseHead(s).kind) && ParseHead(s).kind != KExt && ParseHead(s).kind != KInt
    ensures HeadArg(ParseHead(s).kind, ParseHead(s).arg)
  {
    FromBEBound(s[1..ParseHead(s).len]);
    PowValues();
  }

  lemma {:induction false} PackedShortestAll(s: bytes, n: nat)
    requires ParseMany(s, n).ParsedMany? && WfAll(ParseMany(s, n).vs)
    ensures |EncodeAll(Packed, ParseMany(s, n).vs)| <= ParseMany(s, n).len
    decreases |s|, 1
  {
    hide Parse, ParseMany, Encode, Wf;
    if n == 0 {
      ParseManyNil(s);
    } else {
      var rest := ParseManyUncons(s, n);
      var vs := ParseMany(s, n).vs;
      assert vs[0] == Parse(s).v && vs[1..] == rest.vs;
      PackedShortest(s);
      PackedShortestAll(s[Parse(s).len..], n - 1);
    }
  }

  /** Values parse one after another: n values, then m more. */
  lemma {:induction false} ParseManySplit(s: bytes, n: nat, m: nat, a: ParsedMany, b: ParsedMany)
    requires ParseMany(s, n) == a && a.ParsedMany?
    requires ParseMany(s[a.len..], m) == b && b.ParsedMany?
    ensures ParseMany(s, n + m) == ParsedMany(a.vs + b.vs, a.len + b.len)
    decreases n
  {
    hide Parse, ParseMany;
    if n == 0 {
      ParseManyNil(s);
      assert s[0..] == s && [] + b.vs == b.vs;
    } else {
      var a' := ParseManyUncons(s, n);
      var v, j := Parse(s).v, Parse(s).len;
      assert s[j..][a'.len..] == s[a.len..];
      ParseManySplit(s[j..], n - 1, m, a', b);
      ParseManyCons(s, n + m, a'.vs + b.vs, a'.len + b.len);
      assert a.vs + b.vs == [v] + (a'.vs + b.vs);
    }
  }

  lemma ParseManyNil(s: bytes)
    ensures ParseMany(s, 0) == ParsedMany([], 0)
  {
  }

  lemma ParseManyUncons(s: bytes, n: nat) returns (rest: ParsedMany)
    requires n > 0 && ParseMany(s, n).ParsedMany?
    ensures Parse(s).Parsed? && rest == ParseMany(s[Parse(s).len..], n - 1) && rest.ParsedMany?
    ensures ParseMany(s, n) == ParsedMany([Parse(s).v] + rest.vs, Parse(s).len + rest.len)
  {
    rest := ParseMany(s[Parse(s).len..], n - 1);
  }

  lemma ParseManyCons(s: bytes, n: nat, vs: seq<Value>, len: nat)
    requires n > 0 && Parse(s).Parsed?
    requires ParseMany(s[Parse(s).len..], n - 1) == ParsedMany(vs, len)
    ensures ParseMany(s, n) == ParsedMany([Parse(s).v] + vs, Parse(s).len + len)
  {
  }

  /** The position after the first of n values. */
  lemma NextAt(s: bytes, p: nat, n: nat) returns (q: nat)
    requires p <= |s| && n > 0 && ParseMany(s[p..], n).ParsedMany?
    ensures Parse(s[p..]).Parsed? && q == p + Parse(s[p..]).len <= |s| && ParseMany(s[q..], n - 1).ParsedMany?
    ensures ParseMany(s[p..], n).vs == [Parse(s[p..]).v] + ParseMany(s[q..], n - 1).vs
    ensures p + ParseMany(s[p..], n).len == q + ParseMany(s[q..], n - 1).len
  {
    hide Parse, ParseMany;
    var r := ParseManyUncons(s[p..], n);
    q := p + Parse(s[p..]).len;
    assert s[p..][Parse(s[p..]).len..] == s[q..];
  }

  /** A string is its header and then its characters. */
  lemma StrShape(s: bytes)
    requires Parse(s).Parsed? && Parse(s).v.Str?
    ensures ParseHead(s).Head? && ParseHead(s).arg == |Parse(s).v.str|
    ensures ParseHead(s).len + ParseHead(s).arg == Parse(s).len <= |s|
    ensures s[ParseHead(s).len..Parse(s).len] == Parse(s).v.str
  {
    hide ParseMany, ParseHead;
  }

  // ---------------------------------------------------------------- raw encodings

  /** s is one complete encoding of v, whichever header forms it uses. */
  predicate Exact(s: bytes, v: Value)
  {
    Parse(s) == Parsed(v, |s|)
  }

  lemma ExactPrefix(s: bytes, v: Value, rest: bytes)
    requires Exact(s, v)
    ensures Parse(s + rest) == Parsed(v, |s|)
  {
    assert s[..|s|] == (s + rest)[..|s|];
    ParseLocal(s, s + rest);
  }

  lemma EncodeExact(mode: Mode, v: Value)
    requires Wf(v)
    ensures Exact(Encode(mode, v), v)
  {
    ParseEncode(mode, v, []);
    assert Encode(mode, v) + [] == Encode(mode, v);
  }

  predicate ExactAll(pieces: seq<bytes>, vs: seq<Value>)
  {
    |pieces| == |vs| && forall i :: 0 <= i < |vs| ==> Exact(pieces[i], vs[i])
  }

  /** Pieces that are one value each parse, one after another, to those values. */
  lemma {:induction false} ParsePieces(pieces: seq<bytes>, vs: seq<Value>, rest: bytes)
    requires ExactAll(pieces, vs)
    ensures ParseMany(Concat(pieces) + rest, |vs|) == ParsedMany(vs, |Concat(pieces)|)
  {
    hide Parse, ParseMany;
    if |vs| == 0 {
      ParseManyNil(Concat(pieces) + rest);
    } else {
      var p, tl := pieces[0], Concat(pieces[1..]);
      assert Exact(p, vs[0]);
      ExactPrefix(p, vs[0], tl + rest);
      assert Concat(pieces) + rest == p + (tl + rest);
      assert (p + (tl + rest))[|p|..] == tl + rest;
      ParsePieces(pieces[1..], vs[1..], rest);
      ParseManyCons(p + (tl + rest), |vs|, vs[1..], |tl|);
      assert vs == [vs[0]] + vs[1..];
    }
  }

  /** A container header in front of such pieces makes one value of them. */
  lemma {:induction false} ExactContainer(mode: Mode, kind: Kind, n: nat, pieces: seq<bytes>, vs: seq<Value>)
    requires IsContainer(kind) && n < TWO32 && |vs| == (if kind == KMap then 2 * n else n)
    requires ExactAll(pieces, vs)
    ensures Exact(ContainerHead(mode, kind, n) + Concat(pieces), if kind == KMap then Map(vs) else Array(vs))
  {
    hide Parse, ParseMany, ContainerHead;
    var s := ContainerHead(mode, kind, n) + Concat(pieces);
    ParsePieces(pieces, vs, []);
    ParseContainer(mode, kind, n, vs, Concat(pieces), []);
    assert s + [] == s;
  }

  /** The type of the decoded value is the type the first byte announces. */
  lemma ParseType(s: bytes)
    requires Parse(s).Parsed?
    ensures IsType(s, KindOf(Parse(s).v))
  {
    assert ParseHead(s).kind == LeadOf(s[0]).kind;
  }

  /** The first byte decides which constructor was decoded. */
  lemma KindIs(s: bytes)
    requires Parse(s).Parsed?
    ensures IsType(s, KUInt) <==> Parse(s).v.UInt?
    ensures IsType(s, KStr) <==> Parse(s).v.Str?
    ensures IsType(s, KArray) <==> Parse(s).v.Array?
    ensures IsType(s, KMap) <==> Parse(s).v.Map?
  {
    hide Parse;
    ParseType(s);
  }

  /** An unsigned number is its header. */
  lemma UintAt(s: bytes)
    requires Parse(s).Parsed? && Parse(s).v.UInt?
    ensures ParseHead(s).Head? && Parse(s) == Parsed(UInt(ParseHead(s).arg), ParseHead(s).len)
  {
  }

  lemma ArgFits(s: bytes, kind: Kind)
    requires IsContainer(kind) && ParseHead(s).Head? && ParseHead(s).kind == kind
    ensures 0 <= ParseHead(s).arg < TWO32
  {
    PowValues();
    var w := LeadOf(s[0]).width;
    if w > 0 { FromBEBound(s[1..1 + w]); }
  }

  /** A decoded container is its header and the values behind it. */
  lemma ContainerAt(s: bytes, kind: Kind)
    requires IsContainer(kind) && Parse(s).Parsed? && KindOf(Parse(s).v) == kind
    ensures IsType(s, kind)
    ensures var h := ParseHead(s);
            && h.Head? && h.kind == kind && 0 <= h.arg < TWO32 && h.len <= |s|
            && ParseMany(s[h.len..], Children(h))
               == ParsedMany(if kind == KMap then Parse(s).v.flat else Parse(s).v.items, Parse(s).len - h.len)
  {
    hide FromBE, ParseMany;
    ParseType(s);
    ArgFits(s, kind);
  }
}
