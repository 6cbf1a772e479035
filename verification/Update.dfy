/** The list of update operations: a SPARSE array whose elements are written straight into the
    stream, so that its length is known only from the number of writes. */
module Update {
  import opened Seqs
  import opened MsgPack
  import opened Wrappers
  import opened Builder
  import opened ObjectStream

  /** One call of a `tnt_update_*` operation encoder. `raw` is the buffer of the caller's object. */
  datatype Op =
    | Bit(field: u32, op: byte, bits: u64)
    | ArithInt(field: u32, op: byte, i: int)
    | ArithFloat(field: u32, op: byte, b32: u32)
    | ArithDouble(field: u32, op: byte, b64: u64)
    | Delete(field: u32, count: u32)
    | Insert(field: u32, raw: bytes)
    | Assign(field: u32, raw: bytes)
    | Splice(field: u32, position: u32, offset: u32, text: bytes)

  const ADD: byte := '+' as int
  const SUB: byte := '-' as int
  const AND: byte := '&' as int
  const XOR: byte := '^' as int
  const OR: byte := '|' as int
  const DEL: byte := '#' as int
  const INS: byte := '!' as int
  const SET: byte := '=' as int
  const CUT: byte := ':' as int

  predicate InRange(u: Op)
  {
    match u
    case ArithInt(_, _, i) => -TWO63 <= i < TWO63
    case Splice(_, _, _, text) => |text| < TWO32
    case _ => true
  }

  /** The checks the encoders make before they write. */
  predicate Accepted(u: Op)
  {
    match u
    case Bit(_, op, _) => op == AND || op == XOR || op == OR
    case ArithInt(_, op, _) => op == ADD || op == SUB
    case ArithFloat(_, op, _) => op == ADD || op == SUB
    case ArithDouble(_, op, _) => op == ADD || op == SUB
    case Insert(_, raw) => Whole(raw)
    case Assign(_, raw) => Whole(raw)
    case _ => true
  }

  function Code(u: Op): (c: byte)
    ensures Accepted(u) ==> OpLen(c) == if u.Splice? then 5 else 3
  {
    match u
    case Delete(_, _) => DEL
    case Insert(_, _) => INS
    case Assign(_, _) => SET
    case Splice(_, _, _, _) => CUT
    case Bit(_, op, _) => op
    case ArithInt(_, op, _) => op
    case ArithFloat(_, op, _) => op
    case ArithDouble(_, op, _) => op
  }

  /** The arguments of an operation, as values. */
  function Operands(u: Op): seq<Value>
  {
    match u
    case Bit(_, _, n) => [UInt(n)]
    case ArithInt(_, _, i) => [IntValue(i)]
    case ArithFloat(_, _, n) => [Float(n)]
    case ArithDouble(_, _, n) => [Double(n)]
    case Delete(_, n) => [UInt(n)]
    case Insert(_, raw) => if Parse(raw).Parsed? then [Parse(raw).v] else []
    case Assign(_, raw) => if Parse(raw).Parsed? then [Parse(raw).v] else []
    case Splice(_, p, o, text) => [UInt(p), UInt(o), Str(text)]
  }

  /** What the server should read: the string of the operation, the field number, the operands. */
  function OpValue(u: Op): Value
  {
    match u
    case Bit(field, op, n) => Array([Str([op]), UInt(field), UInt(n)])
    case ArithInt(field, op, i) => Array([Str([op]), UInt(field), if i >= 0 then UInt(i) else Int(i)])
    case ArithFloat(field, op, n) => Array([Str([op]), UInt(field), Float(n)])
    case ArithDouble(field, op, n) => Array([Str([op]), UInt(field), Double(n)])
    case Delete(field, n) => Array([Str([0x23]), UInt(field), UInt(n)])
    case Insert(field, raw) => Array([Str([0x21]), UInt(field), if Parse(raw).Parsed? then Parse(raw).v else Nil])
    case Assign(field, raw) => Array([Str([0x3d]), UInt(field), if Parse(raw).Parsed? then Parse(raw).v else Nil])
    case Splice(field, p, o, text) => Array([Str([0x3a]), UInt(field), UInt(p), UInt(o), Str(text)])
  }

  lemma OpShape(u: Op)
    requires Accepted(u)
    ensures OpValue(u) == Array([Str([Code(u)]), UInt(u.field)] + Operands(u))
    ensures |Operands(u)| == if u.Splice? then 3 else 1
  {
    hide Parse;
    var hd, vs := [Str([Code(u)]), UInt(u.field)], Operands(u);
    assert u.Splice? ==> hd + vs == [hd[0], hd[1], vs[0], vs[1], vs[2]];
    assert !u.Splice? ==> hd + vs == [hd[0], hd[1], vs[0]];
  }

  /** Exactly the operations the server knows are accepted: the bit operations `&`, `^` and `|`, the arithmetic
      ones `+` and `-`, insertions and assignments of one whole value, and every deletion and splice. */
  lemma AcceptedExactly(u: Op)
    ensures Accepted(u) <==>
              && (u.Bit? ==> u.op in [0x26, 0x5e, 0x7c])
              && (u.ArithInt? || u.ArithFloat? || u.ArithDouble? ==> u.op in [0x2b, 0x2d])
              && (u.Insert? || u.Assign? ==> Parse(u.raw).Parsed? && Parse(u.raw).len == |u.raw|)
  {
    hide Parse;
  }

  /** The operand bytes handed to `tnt_update_op`. */
  function OpData(u: Op): bytes
    requires InRange(u)
  {
    match u
    case Bit(_, _, n) => EncUint(n)
    case ArithInt(_, _, i) => if i >= 0 then EncUint(i) else EncHead(KInt, i)
    case ArithFloat(_, _, n) => EncHead(KFloat, n)
    case ArithDouble(_, _, n) => EncHead(KDouble, n)
    case Delete(_, n) => EncUint(n)
    case Insert(_, raw) => raw
    case Assign(_, raw) => raw
    case Splice(_, p, o, text) => EncUint(p) + EncUint(o) + (EncHead(KStr, |text|) + text)
  }

  /** `tnt_update_op_len` */
  function OpLen(op: byte): int
  {
    if op in {ADD, SUB, AND, XOR, OR, DEL, INS, SET} then 3 else if op == CUT then 5 else -1
  }

  /** The bytes `tnt_update_op` writes. */
  function OpBytes(op: byte, field: u32, opdata: bytes): bytes
    requires OpLen(op) > 0
  {
    EncHead(KArray, OpLen(op)) + (EncHead(KStr, 1) + [op]) + EncUint(field) + opdata
  }

  // ---------------------------------------------------------------- the encoders

  /** `tnt_update_op` */
  method UpdateOp(ops: Stream, op: byte, field: u32, opdata: bytes) returns (rv: int)
    requires ops.Valid() && OpLen(op) > 0
    modifies ops, ops.data
    ensures ops.Valid() && ops.stack == old(ops.stack) && (ops.data == old(ops.data) || fresh(ops.data))
    ensures ops.State() == Builder.Write(old(ops.State()), OpBytes(op, field, opdata))
    ensures rv == |OpBytes(op, field, opdata)|
  {
    hide EncHead, Builder.Write;
    var body := EncHead(KArray, OpLen(op));
    body := body + (EncHead(KStr, 1) + [op]);
    body := body + EncUint(field);
    TwoPieces(body, opdata);
    rv := ops.Writev([body, opdata]);
  }

  /** `tnt_update_bit`, `_arith_int`, `_arith_float`, `_arith_double`, `_delete`, `_insert`, `_assign` and
      `_splice`: refuse, leaving the stream alone, or write one operation. */
  method Encode(ops: Stream, u: Op) returns (rv: int)
    requires ops.Valid() && InRange(u)
    modifies ops, ops.data
    ensures ops.Valid() && ops.stack == old(ops.stack) && (ops.data == old(ops.data) || fresh(ops.data))
    ensures !Accepted(u) ==> rv == -1 && ops.State() == old(ops.State())
    ensures Accepted(u) ==> rv == |OpBytes(Code(u), u.field, OpData(u))|
                            && ops.State() == Builder.Write(old(ops.State()), OpBytes(Code(u), u.field, OpData(u)))
  {
    hide EncHead, Builder.Write, OpBytes, Parse, Verify, Whole;
    match u {
      case Bit(field, op, value) =>
        if op != AND && op != XOR && op != OR { return -1; }
        rv := UpdateOp(ops, op, field, EncUint(value));
      case ArithInt(field, op, value) =>
        if op != ADD && op != SUB { return -1; }
        if value >= 0 {
          rv := UpdateOp(ops, op, field, EncUint(value));
        } else {
          rv := UpdateOp(ops, op, field, EncHead(KInt, value));
        }
      case ArithFloat(field, op, value) =>
        if op != ADD && op != SUB { return -1; }
        rv := UpdateOp(ops, op, field, EncHead(KFloat, value));
      case ArithDouble(field, op, value) =>
        if op != ADD && op != SUB { return -1; }
        rv := UpdateOp(ops, op, field, EncHead(KDouble, value));
      case Delete(field, count) =>
        rv := UpdateOp(ops, DEL, field, EncUint(count));
      case Insert(field, raw) =>
        VerifyExactly(raw, None);
        if Verify(raw, None) != 0 { return -1; }
        rv := UpdateOp(ops, INS, field, raw);
      case Assign(field, raw) =>
        VerifyExactly(raw, None);
        if Verify(raw, None) != 0 { return -1; }
        rv := UpdateOp(ops, SET, field, raw);
      case Splice(field, position, offset, text) =>
        var buf := EncUint(position);
        buf := buf + EncUint(offset);
        buf := buf + (EncHead(KStr, |text|) + text);
        rv := UpdateOp(ops, CUT, field, buf);
    }
  }

  // ---------------------------------------------------------------- the container

  /** An open container that holds these operations. */
  predicate Holding(o: Obj, written: seq<bytes>)
  {
    && o.mode == Sparse && o.stack == [Frame(0, 0, KArray)] && o.stackAlloc in {8, 16, 32, 64, 128}
    && o.data == EncHead32(KArray, 0) + Concat(written)
    && o.wrcnt == Wrap32(|written| + 1)
  }

  /** `tnt_update_container` */
  method Container() returns (ops: Stream)
    ensures fresh(ops) && fresh(ops.data) && fresh(ops.stack) && ops.Valid() && Holding(ops.State(), [])
  {
    hide EncHead32;
    ops := new Stream();
    var rv := ops.SetType(Sparse);
    ghost var junk;
    rv, junk := ops.AddContainer(KArray, 0);
    assert EncHead32(KArray, 0) + [] == EncHead32(KArray, 0) == [] + EncHead32(KArray, 0);
  }

  /** `tnt_update_container_reset` */
  method ContainerReset(ops: Stream) returns (rv: int)
    requires ops.Valid()
    modifies ops, ops.data, ops.stack
    ensures ops.Valid() && rv == 0 && Holding(ops.State(), [])
  {
    hide EncHead32;
    ops.Reset();
    rv := ops.SetType(Sparse);
    ghost var junk;
    rv, junk := ops.AddContainer(KArray, 0);
    assert EncHead32(KArray, 0) + [] == EncHead32(KArray, 0) == [] + EncHead32(KArray, 0);
    rv := 0;
  }

  /** The machine's close of the one open list, once its size is known. */
  lemma CloseList(o: Obj, written: seq<bytes>)
    requires o.mode == Sparse && o.stack == [Frame(0, Wrap32(|written|), KArray)]
    requires o.data == EncHead32(KArray, 0) + Concat(written)
    ensures CanClose(o) && Close(o).Some? && Close(o).value.stack == []
    ensures Close(o).value.data == EncHead32(KArray, Wrap32(|written|)) + Concat(written)
  {
    hide EncHead32;
    assert (EncHead32(KArray, 0) + Concat(written))[5..] == Concat(written);
    assert o.stack[..0] == [] && o.data[..0] == [];
    assert [] + EncHead32(KArray, Wrap32(|written|)) == EncHead32(KArray, Wrap32(|written|));
  }

  /** `tnt_update_container_close` */
  method ContainerClose(ops: Stream, ghost written: seq<bytes>)
    requires ops.Valid() && Holding(ops.State(), written)
    modifies ops, ops.data, ops.stack
    ensures ops.Valid() && ops.stackSize == 0
    ensures ops.State().data == EncHead32(KArray, Wrap32(|written|)) + Concat(written)
  {
    hide EncHead32, CanClose, Close;
    ghost var o := ops.State();
    ops.stack[0] := ops.stack[0].(size := Wrap32(ops.wrcnt + TWO32 - 1));
    assert ops.State() == o.(stack := [Frame(0, Wrap32(|written|), KArray)]);
    CloseList(ops.State(), written);
    var rv := ops.ContainerClose();
  }

  // ---------------------------------------------------------------- every list of operations

  function AcceptedOps(us: seq<Op>): seq<Op>
  {
    if |us| == 0 then [] else AcceptedOps(us[..|us| - 1]) + if Accepted(Last(us)) then [Last(us)] else []
  }

  function Pieces(us: seq<Op>): (r: seq<bytes>)
    requires forall i :: 0 <= i < |us| ==> InRange(us[i]) && Accepted(us[i])
    ensures |r| == |us|
  {
    seq(|us|, i requires 0 <= i < |us| => OpBytes(Code(us[i]), us[i].field, OpData(us[i])))
  }

  lemma PiecesNone()
    ensures Pieces([]) == [] && AcceptedOps([]) == []
  {
  }

  lemma PiecesMore(us: seq<Op>, u: Op)
    requires (forall i :: 0 <= i < |us| ==> InRange(us[i]) && Accepted(us[i])) && InRange(u) && Accepted(u)
    ensures Pieces(us + [u]) == Pieces(us) + [OpBytes(Code(u), u.field, OpData(u))]
  {
    hide OpBytes, OpData, Code, InRange, Accepted;
  }

  lemma AcceptedMore(us: seq<Op>, i: nat)
    requires i < |us|
    ensures AcceptedOps(us[..i + 1]) == AcceptedOps(us[..i]) + if Accepted(us[i]) then [us[i]] else []
  {
    hide Accepted;
    assert us[..i + 1][..i] == us[..i];
  }

  lemma {:induction false} HoldMore(o: Obj, written: seq<bytes>, s: bytes)
    requires Holding(o, written)
    ensures Holding(Builder.Write(o, s), written + [s])
  {
    hide EncHead32;
    ConcatSnoc(written, s);
    Assoc(EncHead32(KArray, 0), Concat(written), s);
  }

  /** Three values behind an array header are an array of three. */
  lemma ThreeExact(a: bytes, b: bytes, c: bytes, va: Value, vb: Value, vc: Value)
    requires Exact(a, va) && Exact(b, vb) && Exact(c, vc)
    ensures Exact(EncHead(KArray, 3) + a + b + c, Array([va, vb, vc]))
  {
    hide EncHead, Exact;
    ThreePieces(a, b, c);
    ExactContainer(Packed, KArray, 3, [a, b, c], [va, vb, vc]);
    assert EncHead(KArray, 3) + a + b + c == EncHead(KArray, 3) + (a + (b + c));
  }

  lemma FiveExact(a: bytes, b: bytes, c: bytes, d: bytes, e: bytes, va: Value, vb: Value, vc: Value, vd: Value, ve: Value)
    requires Exact(a, va) && Exact(b, vb) && Exact(c, vc) && Exact(d, vd) && Exact(e, ve)
    ensures Exact(EncHead(KArray, 5) + a + b + (c + d + e), Array([va, vb, vc, vd, ve]))
  {
    hide EncHead, Exact;
    FivePieces(a, b, c, d, e);
    ExactContainer(Packed, KArray, 5, [a, b, c, d, e], [va, vb, vc, vd, ve]);
    assert EncHead(KArray, 5) + a + b + (c + d + e) == EncHead(KArray, 5) + (a + (b + (c + (d + e))));
  }

  /** One operation is one array of three elements, or of five for a splice. */
  lemma {:induction false} OpExact(u: Op)
    requires InRange(u) && Accepted(u)
    ensures Exact(OpBytes(Code(u), u.field, OpData(u)), OpValue(u))
    ensures |OpValue(u).items| == if u.Splice? then 5 else 3
  {
    hide EncHead, Exact, OpValue;
    OpShape(u);
    var code, field := EncHead(KStr, 1) + [Code(u)], EncUint(u.field);
    var vCode, vField := Str([Code(u)]), UInt(u.field);
    EncodeExact(Packed, vCode);
    EncodeExact(Packed, vField);
    if u.Splice? {
      EncodeExact(Packed, UInt(u.position));
      EncodeExact(Packed, UInt(u.offset));
      EncodeExact(Packed, Str(u.text));
      FiveExact(code, field, EncUint(u.position), EncUint(u.offset), EncHead(KStr, |u.text|) + u.text,
                vCode, vField, UInt(u.position), UInt(u.offset), Str(u.text));
      assert [vCode, vField] + Operands(u) == [vCode, vField, UInt(u.position), UInt(u.offset), Str(u.text)];
    } else {
      hide OpData, Operands;
      OperandExact(u);
      var v := Operands(u)[0];
      ThreeExact(code, field, OpData(u), vCode, vField, v);
      assert [vCode, vField] + Operands(u) == [vCode, vField, v];
    }
  }

  lemma {:induction false} OperandExact(u: Op)
    requires InRange(u) && Accepted(u) && !u.Splice?
    ensures |Operands(u)| == 1 && Exact(OpData(u), Operands(u)[0])
  {
    hide EncHead;
    if !u.Insert? && !u.Assign? { EncodeExact(Packed, Operands(u)[0]); }
  }

  lemma FivePieces(a: bytes, b: bytes, c: bytes, d: bytes, e: bytes)
    ensures Concat([a, b, c, d, e]) == a + (b + (c + (d + e)))
  {
    assert [a, b, c, d, e][1..] == [b, c, d, e] && [b, c, d, e][1..] == [c, d, e];
    ThreePieces(c, d, e);
  }

  /** Any list of operations, good or bad, on a fresh container, then a close. The buffer is one MessagePack
      array that `tnt_update` and `tnt_upsert` accept, and its elements are the accepted operations. */
  method Build(us: seq<Op>) returns (ops: Stream)
    requires |us| < TWO32 && forall i :: 0 <= i < |us| ==> InRange(us[i])
    ensures ops.Valid() && ops.stackSize == 0
    ensures var good := AcceptedOps(us);
            Exact(ops.State().data, Array(seq(|good|, i requires 0 <= i < |good| => OpValue(good[i]))))
    ensures |ops.State().data| > 0 && Verify(ops.State().data, Some(KArray)) == 0
  {
    hide OpBytes, OpData, EncHead32, Builder.Write, Accepted, InRange, Code, Pieces, AcceptedOps, Holding, Verify, Parse;
    ops := Container();
    PiecesNone();
    ghost var good: seq<Op> := [];
    for i := 0 to |us|
      invariant ops.Valid() && fresh(ops) && fresh(ops.data) && fresh(ops.stack)
      invariant good == AcceptedOps(us[..i]) && |good| <= i
      invariant forall k :: 0 <= k < |good| ==> InRange(good[k]) && Accepted(good[k])
      invariant Holding(ops.State(), Pieces(good))
    {
      ghost var before := ops.State();
      var rv := Encode(ops, us[i]);
      AcceptedMore(us, i);
      if Accepted(us[i]) {
        HoldMore(before, Pieces(good), OpBytes(Code(us[i]), us[i].field, OpData(us[i])));
        PiecesMore(good, us[i]);
        good := good + [us[i]];
      }
    }
    assert us[..|us|] == us;
    assert good == AcceptedOps(us);
    ContainerClose(ops, Pieces(good));
    ClosedList(good);
  }

  lemma {:induction false} ClosedList(us: seq<Op>)
    requires |us| < TWO32 && forall i :: 0 <= i < |us| ==> InRange(us[i]) && Accepted(us[i])
    ensures var s := EncHead32(KArray, |us|) + Concat(Pieces(us));
            && |s| > 0 && Verify(s, Some(KArray)) == 0
            && Exact(s, Array(seq(|us|, i requires 0 <= i < |us| => OpValue(us[i]))))
  {
    hide EncHead32, Parse, OpBytes;
    var vs := seq(|us|, i requires 0 <= i < |us| => OpValue(us[i]));
    forall i | 0 <= i < |us| ensures Exact(Pieces(us)[i], vs[i]) { OpExact(us[i]); }
    ExactContainer(Sparse, KArray, |us|, Pieces(us), vs);
    ParseType(EncHead32(KArray, |us|) + Concat(Pieces(us)));
  }
}
