/** The object builder as a pure machine: the bytes written so far and the stack of open
    containers, one function a call. `ObjectStream` implements it on mutable buffers;
    `BuilderProofs` shows what a run of it leaves behind. */
module Builder {
  import opened MsgPack
  import opened Wrappers

  /** `struct tnt_sbo_stack`: where an open container's header is and how many children it has. */
  datatype Frame = Frame(offset: nat, size: u32, kind: Kind)

  /** `struct tnt_stream_buf` with its `struct tnt_sbuf_object`. `copied` and `moved` count the bytes
      that reallocations and header shifts have moved. */
  datatype Obj = Obj(
    mode: Mode, data: bytes, alloc: nat, wrcnt: u32, stack: seq<Frame>, stackAlloc: nat, copied: nat, moved: nat)

  const INITIAL_STACK: nat := 8
  const MAX_STACK: nat := 128

  function Fresh(mode: Mode): Obj
  {
    Obj(mode, [], 0, 0, [], INITIAL_STACK, 0, 0)
  }

  function Wrap32(n: nat): u32
  {
    n % TWO32
  }

  /** `tnt_sbuf_object_resize`. */
  function Reserve(o: Obj, extra: nat): (r: Obj)
    ensures r == o.(alloc := r.alloc, copied := r.copied) && r.alloc >= |o.data| + extra
  {
    if |o.data| + extra > o.alloc then
      o.(alloc := if 2 * o.alloc < |o.data| + extra then |o.data| + extra else 2 * o.alloc,
         copied := o.copied + o.alloc)
    else o
  }

  /** `tnt_buf_write` and `tnt_buf_writev`. */
  function Write(o: Obj, s: bytes): (r: Obj)
    ensures r.mode == o.mode && r.stack == o.stack && r.stackAlloc == o.stackAlloc
  {
    var o' := Reserve(o, |s|);
    o'.(data := o'.data + s, wrcnt := Wrap32(o'.wrcnt + 1))
  }

  /** Every add call first counts one more child in the innermost open container. */
  function Bump(stack: seq<Frame>): (r: seq<Frame>)
    ensures |r| == |stack|
  {
    if |stack| == 0 then stack
    else stack[|stack| - 1 := stack[|stack| - 1].(size := Wrap32(stack[|stack| - 1].size + 1))]
  }

  predicate IsScalar(v: Value)
  {
    Wf(v) && !IsContainer(KindOf(v))
  }

  /** `tnt_object_add_nil`, `_uint`, `_int`, `_str`, `_bin`, `_bool`, `_float`, `_double`. */
  function AddScalar(o: Obj, v: Value): Obj
    requires IsScalar(v)
  {
    Write(o.(stack := Bump(o.stack)), Encode(o.mode, v))
  }

  /** The header written when a container is opened. */
  function Hole(mode: Mode, kind: Kind, declared: u32): (s: bytes)
    requires IsContainer(kind)
    ensures |s| >= 1 && (mode == Sparse ==> |s| == 5) && (mode == Packed ==> |s| == 1)
  {
    match mode
    case Simple => EncHead(kind, declared)
    case Sparse => EncHead32(kind, 0)
    case Packed => EncHead(kind, 0)
  }

  /** The stack doubles from 8 entries to 128. */
  predicate Sane(o: Obj, junk: seq<Frame>)
  {
    o.stackAlloc in {8, 16, 32, 64, 128} && |o.stack| <= o.stackAlloc && |junk| >= MAX_STACK
  }

  /** `tnt_object_add_array` and `tnt_object_add_map`; None is the return value -1. Growing the
      stack replaces it by a fresh allocation, and the entries of the containers already open are
      then whatever that memory (`junk`) happens to hold. */
  function AddContainer(o: Obj, kind: Kind, declared: u32, junk: seq<Frame>): Option<Obj>
    requires IsContainer(kind) && Sane(o, junk)
  {
    if |o.stack| == o.stackAlloc && o.stackAlloc == MAX_STACK then None
    else
      var grow := |o.stack| == o.stackAlloc;
      var base := if grow then junk[..|o.stack|] else Bump(o.stack);
      var o' := o.(stack := base + [Frame(|o.data|, 0, kind)],
                   stackAlloc := if grow then 2 * o.stackAlloc else o.stackAlloc);
      Some(Write(o', Hole(o.mode, kind, declared)))
  }

  /** The count in the final header: pairs for a map. */
  function FinalCount(kind: Kind, size: u32): u32
  {
    if kind == KMap then size / 2 else size
  }

  function FinalHead(mode: Mode, kind: Kind, size: u32): (s: bytes)
    ensures 1 <= |s| <= 5 && (mode == Sparse ==> |s| == 5)
  {
    ContainerHead(mode, if kind == KMap then KMap else KArray, FinalCount(kind, size))
  }

  /** Closing the innermost open container writes inside the buffer. */
  predicate CanClose(o: Obj)
  {
    |o.stack| > 0 ==>
      Inside(o, o.stack[|o.stack| - 1])
  }

  /** The header position lies inside the buffer; SIMPLE mode does not go back to it. */
  predicate Inside(o: Obj, f: Frame)
  {
    o.mode == Simple || f.offset + (if o.mode == Sparse then 5 else 1) <= |o.data|
  }

  /** What closing does to the bytes, once the entry is popped: nothing, patch the header in place, or
      widen it and shift the tail. */
  function Closed(o: Obj, f: Frame): (r: Obj)
    requires Inside(o, f)
    ensures r.mode == o.mode && r.stack == o.stack && r.stackAlloc == o.stackAlloc
  {
    match o.mode
    case Simple => o
    case Sparse =>
      o.(data := o.data[..f.offset] + FinalHead(Sparse, f.kind, f.size) + o.data[f.offset + 5..])
    case Packed =>
      var hd := FinalHead(Packed, f.kind, f.size);
      var tail := o.data[f.offset + 1..];
      var room := if |hd| > 1 then Reserve(o, |hd| - 1) else o;
      room.(data := o.data[..f.offset] + hd + tail, moved := room.moved + if |hd| > 1 then |tail| else 0)
  }

  /** `tnt_object_container_close`; None is the return value -1. */
  function Close(o: Obj): (r: Option<Obj>)
    requires CanClose(o)
  {
    if |o.stack| == 0 then None
    else
      var f := o.stack[|o.stack| - 1];
      if f.kind == KMap && f.size % 2 == 1 then None else Some(Closed(o.(stack := o.stack[..|o.stack| - 1]), f))
  }

  /** `tnt_object_verify`: the buffer is exactly one value, of the given type if one is given. */
  function Verify(data: bytes, kind: Option<Kind>): int
    requires kind.Some? ==> |data| > 0
  {
    if kind.Some? && !IsType(data, kind.value) then -1
    else match Parse(data)
         case NoParse => -1
         case Parsed(_, len) => if len < |data| then -1 else 0
  }

  /** The buffer is one complete value. */
  predicate Whole(data: bytes)
  {
    Parse(data).Parsed? && Parse(data).len == |data|
  }

  /** The buffer is one complete array: what the encoders demand of a tuple, a key, arguments, operations. */
  predicate WholeArray(data: bytes)
  {
    Whole(data) && Parse(data).v.Array?
  }

  /** The check accepts exactly the buffers that are one whole value, of the given type if one is given. */
  lemma VerifyExactly(data: bytes, kind: Option<Kind>)
    requires kind.Some? ==> |data| > 0
    ensures Verify(data, kind) == 0 <==> Whole(data) && (kind.Some? ==> KindOf(Parse(data).v) == kind.value)
    ensures Verify(data, kind) == 0 || Verify(data, kind) == -1
  {
    hide Parse;
    if Parse(data).Parsed? { ParseType(data); }
  }

  // ---------------------------------------------------------------- runs of calls

  datatype Call = Scalar(v: Value) | Open(kind: Kind, declared: u32) | Shut

  predicate Legal(c: Call)
  {
    match c
    case Scalar(v) => IsScalar(v)
    case Open(k, _) => IsContainer(k)
    case Shut => true
  }

  predicate AllLegal(calls: seq<Call>)
  {
    forall i :: 0 <= i < |calls| ==> Legal(calls[i])
  }

  /** One call; None when it returns -1 or would write outside the buffer. */
  function Step(o: Obj, c: Call, junk: seq<Frame>): (r: Option<Obj>)
    requires Legal(c) && Sane(o, junk)
    ensures r.Some? ==> Sane(r.value, junk)
  {
    match c
    case Scalar(v) => Some(AddScalar(o, v))
    case Open(kind, n) => AddContainer(o, kind, n, junk)
    case Shut => if CanClose(o) then Close(o) else None
  }

  /** A run of calls; None as soon as one fails. */
  function Run(o: Obj, calls: seq<Call>, junk: seq<Frame>): Option<Obj>
    requires AllLegal(calls) && Sane(o, junk)
    decreases |calls|
  {
    if |calls| == 0 then Some(o)
    else match Step(o, calls[0], junk)
         case None => None
         case Some(o') => Run(o', calls[1..], junk)
  }
}
