/** `tnt_object`: the builder on its real storage, a growing byte buffer and an array of stack
    entries. Every method is proved against its function in `Builder`. */
module ObjectStream {
  import opened Seqs
  import opened MsgPack
  import opened Builder

  /** The value `tnt_object_add_int` writes: non-negative numbers take the unsigned format. */
  function IntValue(i: int): Value
  {
    if i < 0 then Int(i) else UInt(i)
  }

  /** The length loop over an iovec. */
  method TotalLength(iov: seq<bytes>) returns (total: nat)
    ensures total == |Concat(iov)|
  {
    total := 0;
    for i := 0 to |iov|
      invariant total == |Concat(iov[..i])|
    {
      ConcatTake(iov, i);
      total := total + |iov[i]|;
    }
    assert iov[..|iov|] == iov;
  }

  /** `memcpy` */
  method CopyIn(dst: array<byte>, at: nat, src: bytes)
    requires at + |src| <= dst.Length
    modifies dst
    ensures dst[..at + |src|] == old(dst[..at]) + src
  {
    forall k | 0 <= k < |src| { dst[at + k] := src[k]; }
  }

  /** The copy loop over an iovec. */
  method CopyPieces(dst: array<byte>, at: nat, iov: seq<bytes>)
    requires at + |Concat(iov)| <= dst.Length
    modifies dst
    ensures dst[..at + |Concat(iov)|] == old(dst[..at]) + Concat(iov)
  {
    var p := at;
    for i := 0 to |iov|
      invariant p == at + |Concat(iov[..i])| <= at + |Concat(iov)|
      invariant dst[..p] == old(dst[..at]) + Concat(iov[..i])
    {
      ConcatTake(iov, i);
      ConcatPrefix(iov, i + 1);
      CopyIn(dst, p, iov[i]);
      p := p + |iov[i]|;
    }
    assert iov[..|iov|] == iov;
  }

  class Stream {
    var data: array<byte>
    var size: nat
    var wrcnt: u32
    var mode: Mode
    var stack: array<Frame>
    var stackSize: nat
    ghost var copied: nat
    ghost var moved: nat

    ghost predicate Valid()
      reads this, data, stack
    {
      size <= data.Length && stackSize <= stack.Length && stack.Length in {8, 16, 32, 64, 128}
    }

    ghost function State(): Obj
      requires Valid()
      reads this, data, stack
    {
      Obj(mode, data[..size], data.Length, wrcnt, stack[..stackSize], stack.Length, copied, moved)
    }

    /** `tnt_object` */
    constructor ()
      ensures Valid() && State() == Fresh(Simple) && fresh(data) && fresh(stack)
    {
      data := new byte[0];
      size, wrcnt, mode, stackSize := 0, 0, Simple, 0;
      stack := new Frame[INITIAL_STACK];
      copied, moved := 0, 0;
    }

    /** `tnt_object_type` */
    method SetType(m: Mode) returns (rv: int)
      requires Valid()
      modifies this
      ensures Valid() && data == old(data) && stack == old(stack)
      ensures wrcnt > 0 ==> rv == -1 && State() == old(State())
      ensures wrcnt == 0 ==> rv == 0 && State() == old(State()).(mode := m)
    {
      if wrcnt > 0 { return -1; }
      mode := m;
      return 0;
    }

    /** `tnt_sbuf_object_resize` */
    method Resize(extra: nat)
      requires Valid()
      modifies this
      ensures Valid() && State() == Reserve(old(State()), extra)
      ensures size + extra <= data.Length && stack == old(stack) && (data == old(data) || fresh(data))
    {
      if size + extra > data.Length {
        var newSize := 2 * data.Length;
        if newSize < size + extra { newSize := size + extra; }
        var nd := new byte[newSize];
        forall i | 0 <= i < data.Length { nd[i] := data[i]; }
        copied := copied + data.Length;
        ghost var kept := data[..size];
        assert nd[..size] == kept;
        data := nd;
        assert data[..size] == kept;
      }
    }

    /** `tnt_buf_write` */
    method Write(buf: bytes) returns (rv: int)
      requires Valid()
      modifies this, data
      ensures Valid() && State() == Builder.Write(old(State()), buf) && rv == |buf| && mode == old(mode)
      ensures stack == old(stack) && (data == old(data) || fresh(data))
    {
      Resize(|buf|);
      CopyIn(data, size, buf);
      size := size + |buf|;
      wrcnt := Wrap32(wrcnt + 1);
      return |buf|;
    }

    /** `tnt_buf_writev` */
    method Writev(iov: seq<bytes>) returns (rv: int)
      requires Valid()
      modifies this, data
      ensures Valid() && State() == Builder.Write(old(State()), Concat(iov)) && rv == |Concat(iov)| && mode == old(mode)
      ensures stack == old(stack) && (data == old(data) || fresh(data))
    {
      var total := TotalLength(iov);
      Resize(total);
      CopyPieces(data, size, iov);
      size := size + total;
      wrcnt := Wrap32(wrcnt + 1);
      return total;
    }

    // ---------------------------------------------------------------- scalars

    /** Every add call first counts a child in the innermost open container. */
    method CountChild()
      requires Valid()
      modifies stack
      ensures Valid() && State() == old(State()).(stack := Bump(old(State()).stack))
    {
      if stackSize > 0 {
        stack[stackSize - 1] := stack[stackSize - 1].(size := Wrap32(stack[stackSize - 1].size + 1));
      }
    }

    method AddNil() returns (rv: int)
      requires Valid()
      modifies this, data, stack
      ensures Valid() && State() == AddScalar(old(State()), Nil) && rv == |Encode(mode, Nil)|
      ensures stack == old(stack) && (data == old(data) || fresh(data))
    {
      CountChild();
      rv := Write(EncHead(KNil, 0));
    }

    method AddUint(value: u64) returns (rv: int)
      requires Valid()
      modifies this, data, stack
      ensures Valid() && State() == AddScalar(old(State()), UInt(value)) && rv == |Encode(mode, UInt(value))|
      ensures stack == old(stack) && (data == old(data) || fresh(data))
    {
      CountChild();
      rv := Write(EncHead(KUInt, value));
    }

    method AddInt(value: int) returns (rv: int)
      requires Valid() && -TWO63 <= value < TWO63
      modifies this, data, stack
      ensures Valid() && State() == AddScalar(old(State()), IntValue(value)) && rv == |Encode(mode, IntValue(value))|
      ensures stack == old(stack) && (data == old(data) || fresh(data))
    {
      CountChild();
      if value < 0 {
        rv := Write(EncHead(KInt, value));
      } else {
        rv := Write(EncHead(KUInt, value));
      }
    }

    method AddStr(str: bytes) returns (rv: int)
      requires Valid() && |str| < TWO32
      modifies this, data, stack
      ensures Valid() && State() == AddScalar(old(State()), Str(str)) && rv == |Encode(mode, Str(str))|
      ensures stack == old(stack) && (data == old(data) || fresh(data))
    {
      CountChild();
      TwoPieces(EncHead(KStr, |str|), str);
      rv := Writev([EncHead(KStr, |str|), str]);
    }

    method AddBin(bin: bytes) returns (rv: int)
      requires Valid() && |bin| < TWO32
      modifies this, data, stack
      ensures Valid() && State() == AddScalar(old(State()), Bin(bin)) && rv == |Encode(mode, Bin(bin))|
      ensures stack == old(stack) && (data == old(data) || fresh(data))
    {
      CountChild();
      TwoPieces(EncHead(KBin, |bin|), bin);
      rv := Writev([EncHead(KBin, |bin|), bin]);
    }

    method AddBool(value: int) returns (rv: int)
      requires Valid()
      modifies this, data, stack
      ensures Valid() && State() == AddScalar(old(State()), Bool(value != 0)) && rv == |Encode(mode, Bool(value != 0))|
      ensures stack == old(stack) && (data == old(data) || fresh(data))
    {
      CountChild();
      rv := Write(EncHead(KBool, if value != 0 then 1 else 0));
    }

    method AddFloat(bits: u32) returns (rv: int)
      requires Valid()
      modifies this, data, stack
      ensures Valid() && State() == AddScalar(old(State()), Float(bits)) && rv == |Encode(mode, Float(bits))|
      ensures stack == old(stack) && (data == old(data) || fresh(data))
    {
      CountChild();
      rv := Write(EncHead(KFloat, bits));
    }

    method AddDouble(bits: u64) returns (rv: int)
      requires Valid()
      modifies this, data, stack
      ensures Valid() && State() == AddScalar(old(State()), Double(bits)) && rv == |Encode(mode, Double(bits))|
      ensures stack == old(stack) && (data == old(data) || fresh(data))
    {
      CountChild();
      rv := Write(EncHead(KDouble, bits));
    }

    // ---------------------------------------------------------------- containers

    /** `tnt_sbuf_object_grow_stack`. `junk` is what the new block holds. */
    method GrowStack() returns (rv: int, ghost junk: seq<Frame>)
      requires Valid() && stackSize == stack.Length
      modifies this
      ensures Valid() && data == old(data)
      ensures old(stack.Length) == MAX_STACK ==> rv == -1 && State() == old(State()) && stack == old(stack)
      ensures |junk| >= MAX_STACK && stackSize == old(stackSize)
      ensures old(stack.Length) < MAX_STACK ==>
                rv == 0 && fresh(stack) && stack.Length == 2 * old(stack.Length)
                && State() == old(State()).(stack := junk[..old(stackSize)], stackAlloc := 2 * old(stack.Length))
    {
      junk := seq(MAX_STACK, _ => Frame(0, 0, KNil));
      if stack.Length == MAX_STACK { return -1, junk; }
      var grown := new Frame[2 * stack.Length];
      stack := grown;
      junk := stack[..stackSize] + junk;
      return 0, junk;
    }

    /** `tnt_object_add_array` and `tnt_object_add_map` */
    method AddContainer(kind: Kind, declared: u32) returns (rv: int, ghost junk: seq<Frame>)
      requires Valid() && IsContainer(kind)
      modifies this, data, stack
      ensures Valid() && |junk| >= MAX_STACK
      ensures (data == old(data) || fresh(data)) && (stack == old(stack) || fresh(stack))
      ensures var r := Builder.AddContainer(old(State()), kind, declared, junk);
              if r.None? then rv == -1 && State() == old(State()).(stack := Bump(old(State()).stack))
              else rv == |Hole(mode, kind, declared)| && State() == r.value
    {
      hide EncHead, EncHead32, Builder.Write, Bump;
      CountChild();
      junk := seq(MAX_STACK, _ => Frame(0, 0, KNil));
      if stackSize == stack.Length {
        rv, junk := GrowStack();
        if rv == -1 { return; }
      }
      Push(Frame(size, 0, kind));
      rv := WriteHole(kind, declared);
    }

    method Push(f: Frame)
      requires Valid() && stackSize < stack.Length
      modifies this, stack
      ensures Valid() && data == old(data) && stack == old(stack)
      ensures State() == old(State()).(stack := old(State()).stack + [f])
    {
      stack[stackSize] := f;
      stackSize := stackSize + 1;
    }

    method Pop()
      requires Valid() && stackSize > 0
      modifies this
      ensures Valid() && data == old(data) && stack == old(stack)
      ensures State() == old(State()).(stack := old(State()).stack[..old(stackSize) - 1])
    {
      stackSize := stackSize - 1;
    }

    /** The header of a container that has just been opened. */
    method WriteHole(kind: Kind, declared: u32) returns (rv: int)
      requires Valid() && IsContainer(kind)
      modifies this, data
      ensures Valid() && State() == Builder.Write(old(State()), Hole(mode, kind, declared)) && mode == old(mode)
      ensures rv == |Hole(mode, kind, declared)|
      ensures stack == old(stack) && (data == old(data) || fresh(data))
    {
      hide EncHead, EncHead32, Builder.Write;
      match mode {
        case Simple => rv := Write(EncHead(kind, declared));
        case Sparse => rv := Write(EncHead32(kind, 0));
        case Packed => rv := Write(EncHead(kind, 0));
      }
    }

    /** Overwrite bytes in place (`mp_encode_array32(lenp, n)` and the like). */
    method Store(at: nat, s: bytes)
      requires Valid() && at + |s| <= data.Length
      modifies data
      ensures data[..] == old(data[..at]) + s + old(data[at + |s|..])
    {
      forall i | 0 <= i < |s| { data[at + i] := s[i]; }
    }

    /** `memmove(lenp + sz, lenp + 1, size - offset - 1)` */
    method ShiftTail(offset: nat, sz: nat)
      requires Valid() && offset < size && 1 <= sz && size + sz - 1 <= data.Length
      modifies data
      ensures data[..offset] == old(data[..offset])
      ensures data[offset + sz..size + sz - 1] == old(data[offset + 1..size])
    {
      ghost var was := data[..];
      forall j | offset + sz <= j < size + sz - 1 { data[j] := data[j - (sz - 1)]; }
      assert data[..offset] == was[..offset];
      assert data[offset + sz..size + sz - 1] == was[offset + 1..size];
    }

    /** Room for a header of sz bytes in place of the one-byte placeholder. */
    method MakeRoom(offset: nat, sz: nat)
      requires Valid() && offset < size && sz >= 1
      modifies this, data
      ensures Valid() && stack == old(stack) && (data == old(data) || fresh(data))
      ensures size == old(size) && size + sz - 1 <= data.Length
      ensures data[..offset] == old(data[..offset]) && data[offset + sz..size + sz - 1] == old(data[offset + 1..size])
      ensures unchanged(`wrcnt) && unchanged(`mode) && unchanged(`stackSize) && unchanged(`stack)
      ensures var o := old(State());
              var room := if sz > 1 then Reserve(o, sz - 1) else o;
              && data.Length == room.alloc && copied == room.copied
              && moved == room.moved + if sz > 1 then |o.data| - offset - 1 else 0
    {
      if sz > 1 {
        ghost var was := data[..];
        Resize(sz - 1);
        assert data[..][..size] == was[..size];
        SliceOfPrefix(data[..], size, 0, offset);
        SliceOfPrefix(data[..], size, offset + 1, size);
        SliceOfPrefix(was, size, 0, offset);
        SliceOfPrefix(was, size, offset + 1, size);
        ghost var mid := data[..];
        moved := moved + (size - offset - 1);
        ShiftTail(offset, sz);
        assert data[..offset] == mid[..offset] == was[..offset] == old(data[..offset]);
        assert data[offset + sz..size + sz - 1] == mid[offset + 1..size] == was[offset + 1..size] == old(data[offset + 1..size]);
      }
    }

    /** The PACKED branch of the close: make room, shift the tail, write the header. */
    method Widen(offset: nat, hd: bytes)
      requires Valid() && offset < size && |hd| >= 1
      modifies this, data
      ensures Valid() && stack == old(stack) && (data == old(data) || fresh(data))
      ensures var o := old(State());
              var room := if |hd| > 1 then Reserve(o, |hd| - 1) else o;
              State() == room.(data := o.data[..offset] + hd + o.data[offset + 1..],
                               moved := room.moved + if |hd| > 1 then |o.data| - offset - 1 else 0)
    {
      hide Reserve;
      ghost var o := State();
      MakeRoom(offset, |hd|);
      ghost var shifted := data[..];
      Store(offset, hd);
      size := size + (|hd| - 1);
      PatchPrefix(shifted, offset, hd, size);
      assert shifted[..offset] == o.data[..offset] && shifted[offset + |hd|..size] == o.data[offset + 1..];
    }

    /** The SPARSE branch of the close: the header is already as long as it will be. */
    method Patch(offset: nat, hd: bytes)
      requires Valid() && offset + |hd| <= size
      modifies data
      ensures Valid()
      ensures var o := old(State()); State() == o.(data := o.data[..offset] + hd + o.data[offset + |hd|..])
    {
      ghost var o, before := State(), data[..];
      Store(offset, hd);
      PatchPrefix(before, offset, hd, size);
      assert before[..offset] == o.data[..offset] && before[offset + |hd|..size] == o.data[offset + |hd|..];
    }

    /** `tnt_object_container_close` */
    method ContainerClose() returns (rv: int)
      requires Valid() && CanClose(State())
      modifies this, data
      ensures Valid() && stack == old(stack) && (data == old(data) || fresh(data))
      ensures var r := Close(old(State()));
              if r.None? then rv == -1 && State() == old(State()) else rv == 0 && State() == r.value
    {
      hide Closed;
      if stackSize == 0 { return -1; }
      var f := stack[stackSize - 1];
      if f.kind == KMap && f.size % 2 == 1 { return -1; }
      Pop();
      WriteFinalHead(f);
      return 0;
    }

    /** The three ways to close. */
    method WriteFinalHead(f: Frame)
      requires Valid() && Inside(State(), f)
      modifies this, data
      ensures Valid() && stack == old(stack) && (data == old(data) || fresh(data))
      ensures State() == Closed(old(State()), f)
    {
      hide EncHead, EncHead32, Reserve, FinalHead;
      match mode {
        case Simple =>
        case Sparse => Patch(f.offset, FinalHead(Sparse, f.kind, f.size));
        case Packed => Widen(f.offset, FinalHead(Packed, f.kind, f.size));
      }
    }

    /** `tnt_object_reset` */
    method Reset()
      requires Valid()
      modifies this
      ensures Valid() && data == old(data) && stack == old(stack)
      ensures State() == old(State()).(mode := Simple, data := [], wrcnt := 0, stack := [])
    {
      wrcnt := 0;
      size := 0;
      stackSize := 0;
      mode := Simple;
    }
  }
}
