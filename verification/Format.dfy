/** `tnt_object_vformat`: a printf-like description of a tree, interpreted into builder calls. */
module Format {
  import opened Seqs
  import opened MsgPack
  import opened Wrappers
  import opened Builder
  import opened BuilderProofs
  import opened BuilderRuns
  import opened ObjectStream

  /** A variadic argument, as `va_arg` delivers it. Floats come as bit patterns; `Text` is the memory a
      pointer leads to, with a zero byte behind it. */
  datatype Arg = Num(x: int) | Text(s: bytes) | Real32(b32: u32) | Real64(b64: u64)

  datatype Token =
    | TOpen(kind: Kind)
    | TShut
    | TSigned(bits: nat)
    | TUnsigned(bits: nat)
    | TText
    | TSized
    | TFloat
    | TDouble
    | TBool
    | TNil
    | TSkip
    | TBad

  datatype Lexeme = Lexeme(tok: Token, len: nat)

  function At(f: string, k: nat): char
  {
    if k < |f| then f[k] else '\0'
  }

  /** What the format says at its first character. A conversion that is cut short or unknown trips an
      assertion of the original; every other character is skipped. */
  function Lex(f: string): (l: Lexeme)
    requires |f| > 0
    ensures 1 <= l.len && (l.tok != TBad ==> l.len <= |f|)
  {
    if f[0] == '[' then Lexeme(TOpen(KArray), 1)
    else if f[0] == '{' then Lexeme(TOpen(KMap), 1)
    else if f[0] == ']' || f[0] == '}' then Lexeme(TShut, 1)
    else if f[0] == '%' then Conversion(f)
    else if f[0] == 'N' && At(f, 1) == 'I' && At(f, 2) == 'L' then Lexeme(TNil, 3)
    else Lexeme(TSkip, 1)
  }

  function Conversion(f: string): (l: Lexeme)
    requires |f| > 0
    ensures 1 <= l.len && (l.tok != TBad ==> l.len <= |f|)
  {
    var a, b, c := At(f, 1), At(f, 2), At(f, 3);
    if a == 'd' || a == 'i' then Lexeme(TSigned(32), 2)
    else if a == 'u' then Lexeme(TUnsigned(32), 2)
    else if a == 's' then Lexeme(TText, 2)
    else if a == '.' && b == '*' && c == 's' then Lexeme(TSized, 4)
    else if a == 'f' then Lexeme(TFloat, 2)
    else if a == 'l' && b == 'f' then Lexeme(TDouble, 3)
    else if a == 'b' then Lexeme(TBool, 2)
    else if a == 'l' && (b == 'd' || b == 'i') then Lexeme(TSigned(64), 3)
    else if a == 'l' && b == 'u' then Lexeme(TUnsigned(64), 3)
    else if a == 'l' && b == 'l' && (c == 'd' || c == 'i') then Lexeme(TSigned(64), 4)
    else if a == 'l' && b == 'l' && c == 'u' then Lexeme(TUnsigned(64), 4)
    else if a == 'h' && (b == 'd' || b == 'i') then Lexeme(TSigned(32), 3)
    else if a == 'h' && b == 'u' then Lexeme(TUnsigned(32), 3)
    else if a == 'h' && b == 'h' && (c == 'd' || c == 'i') then Lexeme(TSigned(32), 4)
    else if a == 'h' && b == 'h' && c == 'u' then Lexeme(TUnsigned(32), 4)
    else if a == '%' then Lexeme(TSkip, 2)
    else Lexeme(TBad, 1)
  }

  /** The string that starts here: everything before the first zero byte (`strlen`). */
  function CString(s: bytes): (t: bytes)
    ensures |t| <= |s| && t == s[..|t|] && 0 !in t && (|t| < |s| ==> s[|t|] == 0)
  {
    if |s| == 0 || s[0] == 0 then [] else [s[0]] + CString(s[1..])
  }

  function TypeRange(bits: nat): int
  {
    if bits == 32 then TWO32 else TWO64
  }

  datatype Meant = Meant(calls: seq<Call>, used: nat) | Mismatch

  /** The call a directive stands for, given the arguments that are left. */
  function Meaning(t: Token, args: seq<Arg>): (m: Meant)
    ensures m.Meant? ==> m.used <= |args| && AllLegal(m.calls) && |m.calls| <= 1
  {
    match t
    case TOpen(kind) => if IsContainer(kind) then Meant([Open(kind, 0)], 0) else Mismatch
    case TShut => Meant([Shut], 0)
    case TNil => Meant([Scalar(Nil)], 0)
    case TSkip => Meant([], 0)
    case TSigned(bits) =>
      if |args| > 0 && args[0].Num? && -TypeRange(bits) <= 2 * args[0].x < TypeRange(bits)
      then Meant([Scalar(IntValue(args[0].x))], 1) else Mismatch
    case TUnsigned(bits) =>
      if |args| > 0 && args[0].Num? && 0 <= args[0].x < TypeRange(bits)
      then Meant([Scalar(UInt(args[0].x))], 1) else Mismatch
    case TText =>
      if |args| > 0 && args[0].Text? && |CString(args[0].s)| < TWO32
      then Meant([Scalar(Str(CString(args[0].s)))], 1) else Mismatch
    case TSized =>
      if |args| > 1 && args[0].Num? && args[1].Text? && 0 <= args[0].x < TWO32 && args[0].x <= |args[1].s|
      then Meant([Scalar(Str(args[1].s[..args[0].x]))], 2) else Mismatch
    case TFloat => if |args| > 0 && args[0].Real32? then Meant([Scalar(Float(args[0].b32))], 1) else Mismatch
    case TDouble => if |args| > 0 && args[0].Real64? then Meant([Scalar(Double(args[0].b64))], 1) else Mismatch
    case TBool =>
      if |args| > 0 && args[0].Num? && -TWO32 <= 2 * args[0].x < TWO32
      then Meant([Scalar(Bool(args[0].x != 0))], 1) else Mismatch
    case TBad => Mismatch
  }

  /** The end of the format: the loop stops at a zero character. */
  predicate Ends(f: string)
  {
    |f| == 0 || f[0] == '\0'
  }

  /** The calls a whole format denotes; Mismatch if it is invalid or its arguments do not fit. */
  function Denotes(f: string, args: seq<Arg>): (m: Meant)
    ensures m.Meant? ==> AllLegal(m.calls)
  {
    if Ends(f) then Meant([], 0)
    else
      var l := Lex(f);
      var m := Meaning(l.tok, args);
      if l.tok == TBad || m.Mismatch? then Mismatch
      else match Denotes(f[l.len..], args[m.used..])
           case Mismatch => Mismatch
           case Meant(calls, used) => Meant(m.calls + calls, m.used + used)
  }

  // ---------------------------------------------------------------- integers through int64_t

  /** Conversion of any C integer to `int64_t`, and back to `uint64_t`. */
  function ToInt64(x: int): (y: int)
    ensures -TWO63 <= y < TWO63
  {
    if x % TWO64 < TWO63 then x % TWO64 else x % TWO64 - TWO64
  }

  function ToUint64(y: int): u64
  {
    y % TWO64
  }

  /** An unsigned 64-bit argument survives the detour through `int64_t`. */
  lemma UnsignedSurvives(x: u64)
    ensures ToUint64(ToInt64(x)) == x
  {
  }

  // ---------------------------------------------------------------- the interpreter

  /** The sum of the return values of the calls: what was written, without header growth at closes. */
  function Returned(calls: seq<Call>): nat
    requires AllLegal(calls)
  {
    if |calls| == 0 then 0
    else (match calls[0]
          case Scalar(v) => |Encode(Packed, v)|
          case Open(_, _) => 1
          case Shut => 0) + Returned(calls[1..])
  }

  lemma {:induction false} ReturnedSplit(a: seq<Call>, b: seq<Call>)
    requires AllLegal(a) && AllLegal(b)
    ensures AllLegal(a + b) && Returned(a + b) == Returned(a) + Returned(b)
  {
    if |a| > 0 {
      assert (a + b)[1..] == a[1..] + b;
      ReturnedSplit(a[1..], b);
    } else {
      assert a + b == b;
    }
  }

  /** A directive that adds one scalar. Integers go through one `int64_t` variable, whatever their width and
      sign. */
  method AddLeaf(s: Stream, t: Token, args: seq<Arg>) returns (rv: int, used: nat)
    requires s.Valid() && s.mode == Packed && Meaning(t, args).Meant? && !t.TOpen? && !t.TShut? && !t.TSkip?
    modifies s, s.data, s.stack
    ensures s.Valid() && (s.data == old(s.data) || fresh(s.data)) && (s.stack == old(s.stack) || fresh(s.stack))
    ensures var m := Meaning(t, args);
            && used == m.used && |m.calls| == 1 && m.calls[0].Scalar?
            && rv == |Encode(Packed, m.calls[0].v)| && s.State() == AddScalar(old(s.State()), m.calls[0].v)
  {
    hide Builder.Write, Bump, Encode;
    used := 1;
    match t {
      case TNil =>
        rv := s.AddNil();
        used := 0;
      case TSigned(_) =>
        var intValue := ToInt64(args[0].x);
        rv := s.AddInt(intValue);
      case TUnsigned(_) =>
        var intValue := ToInt64(args[0].x);
        UnsignedSurvives(args[0].x);
        rv := s.AddUint(ToUint64(intValue));
      case TText => rv := s.AddStr(CString(args[0].s));
      case TSized =>
        rv := s.AddStr(args[1].s[..args[0].x]);
        used := 2;
      case TFloat => rv := s.AddFloat(args[0].b32);
      case TDouble => rv := s.AddDouble(args[0].b64);
      case TBool => rv := s.AddBool(args[0].x);
    }
  }

  /** One directive. */
  method Directive(s: Stream, t: Token, args: seq<Arg>, ghost ls: seq<Level>, ghost junk: seq<Frame>)
    returns (rv: int, used: nat)
    requires s.Valid() && s.mode == Packed && Inv(s.State(), ls) && |junk| >= MAX_STACK
    requires Meaning(t, args).Meant? && (t.TOpen? ==> s.stackSize < s.stack.Length)
    modifies s, s.data, s.stack
    ensures s.Valid() && (s.data == old(s.data) || fresh(s.data)) && (s.stack == old(s.stack) || fresh(s.stack))
    ensures var m := Meaning(t, args);
            && used == m.used
            && if |m.calls| == 0 then rv == 0 && s.State() == old(s.State())
               else var r := Step(old(s.State()), m.calls[0], junk);
                    if r.None? then rv == -1 else rv == Returned(m.calls) && s.State() == r.value
  {
    hide Inv, Builder.Write, Close, Bump, EncHead, EncHead32, AddScalar, Encode;
    rv, used := 0, 0;
    ReturnedOne(Meaning(t, args).calls);
    if t.TOpen? {
      ghost var j;
      rv, j := s.AddContainer(t.kind, 0);
    } else if t.TShut? {
      CloseKeeps(s.State(), ls);
      rv := s.ContainerClose();
    } else if !t.TSkip? {
      hide Meaning;
      rv, used := AddLeaf(s, t, args);
    }
  }

  lemma DenotesStep(f: string, args: seq<Arg>)
    requires !Ends(f) && Denotes(f, args).Meant?
    ensures var l, m := Lex(f), Meaning(Lex(f).tok, args);
            && l.tok != TBad && m.Meant? && Denotes(f[l.len..], args[m.used..]).Meant?
            && Denotes(f, args).calls == m.calls + Denotes(f[l.len..], args[m.used..]).calls
  {
  }

  /** `tnt_object_vformat` on an object with no open container. It performs the calls the format
      denotes in PACKED mode and returns the sum of what they returned. */
  method VFormat(s: Stream, f: string, args: seq<Arg>, ghost junk: seq<Frame>) returns (result: int)
    requires s.Valid() && s.stackSize == 0 && s.stack.Length == INITIAL_STACK && |junk| >= MAX_STACK
    requires Denotes(f, args).Meant? && Shallow(0, Denotes(f, args).calls, INITIAL_STACK)
    modifies s, s.data, s.stack
    ensures s.Valid()
    ensures old(s.wrcnt) > 0 ==> result == -1 && s.State() == old(s.State())
    ensures old(s.wrcnt) == 0 ==>
              var calls := Denotes(f, args).calls;
              var r := Run(old(s.State()).(mode := Packed), calls, junk);
              if r.None? then result == -1 else result == Returned(calls) && s.State() == r.value
  {
    hide Run, Inv, Lex, Meaning, Denotes, Step, Returned, AllLegal, Shallow, Levels, StepLevels;
    var rv := s.SetType(Packed);
    if rv == -1 { return -1; }
    ghost var calls := Denotes(f, args).calls;
    ghost var ls := [Level(KNil, 0, [], s.State().data)];
    ghost var done: seq<Call> := [];
    ghost var o0 := s.State();
    ghost var todo := calls;
    assert Inv(o0, ls) by { FlatInv(o0); }
    ReturnedNil();
    result := 0;
    var i, j := 0, 0;
    while i < |f| && f[i] != '\0'
      invariant 0 <= i <= |f| && 0 <= j <= |args|
      invariant s.Valid() && s.mode == Packed && s.stack.Length == INITIAL_STACK
      invariant (s.data == old(s.data) || fresh(s.data)) && (s.stack == old(s.stack) || fresh(s.stack))
      invariant Denotes(f[i..], args[j..]).Meant? && todo == Denotes(f[i..], args[j..]).calls
      invariant AllLegal(done) && calls == done + todo && result == Returned(done)
      invariant Inv(s.State(), ls) && Shallow(s.stackSize, todo, INITIAL_STACK)
      invariant Run(o0, calls, junk) == Run(s.State(), todo, junk)
    {
      var l := Lex(f[i..]);
      DenotesStep(f[i..], args[j..]);
      ghost var m := Meaning(l.tok, args[j..]).calls;
      ghost var more := Denotes(f[i..][l.len..], args[j..][Meaning(l.tok, args[j..]).used..]).calls;
      ghost var before := s.State();
      OpenFits(l.tok, args[j..], before, more);
      var rv, used := Directive(s, l.tok, args[j..], ls, junk);
      assert f[i..][l.len..] == f[i + l.len..] && args[j..][used..] == args[j + used..];
      ghost var ls' := DirectiveKeeps(before, s.State(), rv, ls, m, more, junk);
      if rv == -1 { return -1; }
      ReturnedSplit(done, m);
      Assoc(done, m, more);
      result := result + rv;
      ls, done, todo := ls', done + m, more;
      i, j := i + l.len, j + used;
    }
    assert todo == [] by { DenotesEmpty(f[i..], args[j..]); }
    assert done + [] == done;
    RunNil(s.State(), junk);
  }

  lemma FlatInv(o: Obj)
    requires |o.stack| == 0
    ensures Inv(o, [Level(KNil, 0, [], o.data)])
  {
  }

  lemma ReturnedNil()
    ensures AllLegal([]) && Returned([]) == 0
  {
  }

  lemma ReturnedOne(calls: seq<Call>)
    requires AllLegal(calls) && |calls| <= 1
    ensures Returned(calls) == if |calls| == 0 then 0 else match calls[0]
                                                     case Scalar(v) => |Encode(Packed, v)|
                                                     case Open(_, _) => 1
                                                     case Shut => 0
  {
  }

  lemma RunNil(o: Obj, junk: seq<Frame>)
    requires Sane(o, junk)
    ensures Run(o, [], junk) == Some(o)
  {
  }

  lemma DenotesEmpty(f: string, args: seq<Arg>)
    requires Ends(f)
    ensures Denotes(f, args) == Meant([], 0)
  {
  }

  lemma OpenFits(t: Token, args: seq<Arg>, o: Obj, more: seq<Call>)
    requires Meaning(t, args).Meant? && o.stackAlloc == INITIAL_STACK
    requires Shallow(|o.stack|, Meaning(t, args).calls + more, INITIAL_STACK)
    ensures t.TOpen? ==> |o.stack| < o.stackAlloc
  {
  }

  /** What one directive does to the run that is still to come. */
  lemma {:induction false} DirectiveKeeps(
    before: Obj, after: Obj, rv: int, ls: seq<Level>, m: seq<Call>, more: seq<Call>, junk: seq<Frame>)
    returns (ls': seq<Level>)
    requires Inv(before, ls) && before.mode == Packed && before.stackAlloc == INITIAL_STACK && Sane(before, junk)
    requires |m| <= 1 && AllLegal(m) && AllLegal(more) && Shallow(|before.stack|, m + more, INITIAL_STACK)
    requires if |m| == 0 then rv == 0 && after == before
             else var r := Step(before, m[0], junk);
                  if r.None? then rv == -1 else rv == Returned(m) && after == r.value
    ensures rv == -1 ==> Run(before, m + more, junk).None?
    ensures rv != -1 ==>
              && Inv(after, ls') && after.mode == Packed && after.stackAlloc == INITIAL_STACK && Sane(after, junk)
              && Shallow(|after.stack|, more, INITIAL_STACK)
              && Run(before, m + more, junk) == Run(after, more, junk) && rv == Returned(m)
  {
    hide Run, Inv, Step, Returned, Shallow;
    ls' := ls;
    if |m| == 0 {
      assert m + more == more;
      ReturnedOne(m);
    } else {
      assert m == [m[0]];
      ShallowHead(|before.stack|, m[0], more);
      StepFollowsLevels(before, ls, m[0], junk);
      RunSplit(before, m[0], more, junk);
      if rv != -1 { ls' := StepLevels(Packed, ls, m[0]).value; }
    }
  }

  lemma ShallowHead(open: nat, c: Call, more: seq<Call>)
    requires Shallow(open, [c] + more, INITIAL_STACK)
    ensures c.Open? ==> open < INITIAL_STACK && Shallow(open + 1, more, INITIAL_STACK)
    ensures c.Scalar? ==> Shallow(open, more, INITIAL_STACK)
    ensures c.Shut? && open > 0 ==> Shallow(open - 1, more, INITIAL_STACK)
  {
    assert ([c] + more)[1..] == more;
  }

  // ---------------------------------------------------------------- what formats denote

  /** How much the headers of a tree have grown past their one-byte placeholders. */
  function HeaderGrowth(v: Value): nat
    requires Wf(v)
    decreases v, 1
  {
    match v
    case Array(vs) => |EncHead(KArray, |vs|)| - 1 + HeaderGrowthAll(vs)
    case Map(vs) => |EncHead(KMap, |vs| / 2)| - 1 + HeaderGrowthAll(vs)
    case _ => 0
  }

  function HeaderGrowthAll(vs: seq<Value>): nat
    requires WfAll(vs)
    decreases vs, 0
  {
    if |vs| == 0 then 0 else HeaderGrowth(vs[0]) + HeaderGrowthAll(vs[1..])
  }

  lemma {:induction false} ReturnedTree(v: Value)
    requires Wf(v)
    ensures Returned(Calls(v)) + HeaderGrowth(v) == |Encode(Packed, v)|
    decreases v, 1
  {
    hide EncHead, EncHead32;
    if IsContainer(KindOf(v)) {
      var vs := if v.Map? then v.flat else v.items;
      ReturnedForest(vs);
      ReturnedSplit([Calls(v)[0]] + CallsAll(vs), [Shut]);
      ReturnedSplit([Calls(v)[0]], CallsAll(vs));
      ReturnedOne([Calls(v)[0]]);
      ReturnedOne([Shut]);
    } else {
      ReturnedOne(Calls(v));
    }
  }

  lemma {:induction false} ReturnedForest(vs: seq<Value>)
    requires WfAll(vs)
    ensures Returned(CallsAll(vs)) + HeaderGrowthAll(vs) == |EncodeAll(Packed, vs)|
    decreases vs, 0
  {
    if |vs| > 0 {
      ReturnedTree(vs[0]);
      ReturnedForest(vs[1..]);
      ReturnedSplit(Calls(vs[0]), CallsAll(vs[1..]));
    } else {
      ReturnedNil();
    }
  }

  lemma {:induction false} ReturnedErase(calls: seq<Call>)
    requires AllLegal(calls)
    ensures AllLegal(EraseAll(calls)) && Returned(EraseAll(calls)) == Returned(calls)
  {
    if |calls| > 0 {
      assert EraseAll(calls)[1..] == EraseAll(calls[1..]);
      ReturnedErase(calls[1..]);
    }
  }

  /** For every valid format whose brackets balance, on a fresh object: there is a forest that the format
      spells out call by call, the object holds its encoding, and the returned count is the final size
      less the header growth at the closes. */
  lemma {:induction false} FormatBuilds(f: string, args: seq<Arg>, junk: seq<Frame>) returns (vs: seq<Value>)
    requires |junk| >= MAX_STACK && Denotes(f, args).Meant? && Shallow(0, Denotes(f, args).calls, INITIAL_STACK)
    requires Honest(Packed, [ROOT], Denotes(f, args).calls)
    requires var r := Run(Fresh(Packed), Denotes(f, args).calls, junk); r.Some? && |r.value.stack| == 0
    ensures WfAll(vs) && EraseAll(Denotes(f, args).calls) == EraseAll(CallsAll(vs))
    ensures var o := Run(Fresh(Packed), Denotes(f, args).calls, junk).value;
            && o.data == EncodeAll(Packed, vs)
            && Returned(Denotes(f, args).calls) == |o.data| - HeaderGrowthAll(vs)
  {
    hide Run, Honest, Denotes, Shallow;
    var calls := Denotes(f, args).calls;
    vs := RunBuildsForest(Packed, calls, junk);
    ReturnedErase(calls);
    ReturnedErase(CallsAll(vs));
    ReturnedForest(vs);
  }

  /** `tnt_object_format` on a new object: what the stream holds and what the call returns, for every valid
      format whose brackets and map entries match. */
  method FormatNew(f: string, args: seq<Arg>, ghost junk: seq<Frame>)
    returns (s: Stream, result: int, ghost vs: seq<Value>)
    requires |junk| >= MAX_STACK && Denotes(f, args).Meant? && Shallow(0, Denotes(f, args).calls, INITIAL_STACK)
    requires Honest(Packed, [ROOT], Denotes(f, args).calls)
    requires var ls := RunLevels(Packed, [ROOT], Denotes(f, args).calls); ls.Some? && |ls.value| == 1
    ensures fresh(s) && s.Valid() && s.stackSize == 0
    ensures WfAll(vs) && EraseAll(Denotes(f, args).calls) == EraseAll(CallsAll(vs))
    ensures s.State().data == EncodeAll(Packed, vs) && result == s.size - HeaderGrowthAll(vs)
  {
    hide Run, Honest, Denotes, Shallow, Inv, RunLevels, Returned;
    s := new Stream();
    assert Fresh(Simple).(mode := Packed) == Fresh(Packed);
    FreshInv(Packed);
    RunFollowsLevels(Fresh(Packed), [ROOT], Denotes(f, args).calls, junk);
    vs := FormatBuilds(f, args, junk);
    result := VFormat(s, f, args, junk);
  }

  // ---------------------------------------------------------------- every tree has a format

  /** Formats have no directive for binary strings. */
  predicate Printable(v: Value)
  {
    match v
    case Bin(_) => false
    case Ext(_) => false
    case Array(vs) => forall i :: 0 <= i < |vs| ==> Printable(vs[i])
    case Map(vs) => forall i :: 0 <= i < |vs| ==> Printable(vs[i])
    case _ => true
  }

  datatype Printed = Printed(f: string, args: seq<Arg>)

  /** A format and arguments for a tree, built as a caller would. */
  function Print(v: Value): Printed
    requires Printable(v)
    decreases v, 1
  {
    match v
    case Nil => Printed("NIL", [])
    case UInt(n) => Printed("%llu", [Num(n)])
    case Int(i) => Printed("%lld", [Num(i)])
    case Str(s) => Printed("%.*s", [Num(|s|), Text(s)])
    case Bool(b) => Printed("%b", [Num(if b then 1 else 0)])
    case Float(n) => Printed("%f", [Real32(n % TWO32)])
    case Double(n) => Printed("%lf", [Real64(n % TWO64)])
    case Array(vs) => var p := PrintAll(vs); Printed("[" + p.f + "]", p.args)
    case Map(vs) => var p := PrintAll(vs); Printed("{" + p.f + "}", p.args)
  }

  function PrintAll(vs: seq<Value>): Printed
    requires forall i :: 0 <= i < |vs| ==> Printable(vs[i])
    decreases vs, 0
  {
    if |vs| == 0 then Printed("", [])
    else
      var p, q := Print(vs[0]), PrintAll(vs[1..]);
      Printed(p.f + " " + q.f, p.args + q.args)
  }

  lemma {:induction false} DenotesHead(d: string, f: string, a: seq<Arg>, args: seq<Arg>)
    requires |d| > 0 && d[0] != '\0' && Lex(d + f).len == |d| && Lex(d + f).tok != TBad
    requires Meaning(Lex(d + f).tok, a + args).Meant? && Meaning(Lex(d + f).tok, a + args).used == |a|
    ensures var m, r := Meaning(Lex(d + f).tok, a + args), Denotes(f, args);
            Denotes(d + f, a + args) == if r.Mismatch? then Mismatch else Meant(m.calls + r.calls, |a| + r.used)
  {
    hide Lex, Meaning;
    assert (d + f)[|d|..] == f && (a + args)[|a|..] == args;
  }

  // ---------------------------------------------------------------- single conversions

  /** The format with these arguments adds exactly this value. */
  predicate Adds(f: string, args: seq<Arg>, v: Value)
  {
    Denotes(f, args) == Meant([Scalar(v)], |args|)
  }

  lemma OneToken(d: string, args: seq<Arg>, calls: seq<Call>)
    requires |d| > 0 && d[0] != '\0' && Lex(d).len == |d| && Lex(d).tok != TBad
    requires Meaning(Lex(d).tok, args) == Meant(calls, |args|)
    ensures Denotes(d, args) == Meant(calls, |args|)
  {
    hide Lex, Meaning, Denotes;
    assert d + "" == d && args + [] == args && calls + [] == calls;
    DenotesEmpty("", []);
    DenotesHead(d, "", args, []);
  }

  /** An int, whatever width is announced: it has been promoted on the way. */
  lemma IntConversions(x: int, d: string)
    requires -TWO31 <= x < TWO31 && d in ["%d", "%i", "%hd", "%hi", "%hhd", "%hhi"]
    ensures Adds(d, [Num(x)], if x >= 0 then UInt(x) else Int(x))
  {
    OneToken(d, [Num(x)], [Scalar(if x >= 0 then UInt(x) else Int(x))]);
  }

  lemma LongConversions(x: int, d: string)
    requires -TWO63 <= x < TWO63 && d in ["%ld", "%li", "%lld", "%lli"]
    ensures Adds(d, [Num(x)], if x >= 0 then UInt(x) else Int(x))
  {
    OneToken(d, [Num(x)], [Scalar(if x >= 0 then UInt(x) else Int(x))]);
  }

  lemma UnsignedConversions(x: nat, d: string)
    requires (x < TWO32 && d in ["%u", "%hu", "%hhu"]) || (x < TWO64 && d in ["%lu", "%llu"])
    ensures Adds(d, [Num(x)], UInt(x))
  {
    OneToken(d, [Num(x)], [Scalar(UInt(x))]);
  }

  /** A string up to its first zero byte, or as many bytes of it as the number in front says. */
  lemma TextConversions(text: bytes, rest: bytes, n: nat)
    requires 0 !in text && |text| < TWO32 && n <= |text + rest| && n < TWO32
    ensures Adds("%s", [Text(text + [0] + rest)], Str(text))
    ensures Adds("%.*s", [Num(n), Text(text + rest)], Str((text + rest)[..n]))
  {
    UpToZero(text, rest);
    OneToken("%s", [Text(text + [0] + rest)], [Scalar(Str(text))]);
    OneToken("%.*s", [Num(n), Text(text + rest)], [Scalar(Str((text + rest)[..n]))]);
  }

  lemma {:induction false} UpToZero(text: bytes, rest: bytes)
    requires 0 !in text
    ensures CString(text + [0] + rest) == text
  {
    if |text| > 0 {
      assert (text + [0] + rest)[1..] == text[1..] + [0] + rest;
      UpToZero(text[1..], rest);
    }
  }

  /** Any non-zero int is true; floats and doubles keep their bits. */
  lemma OtherConversions(x: int, b32: u32, b64: u64)
    requires -TWO31 <= x < TWO31
    ensures Adds("%b", [Num(x)], Bool(x != 0)) && Adds("%f", [Real32(b32)], Float(b32))
    ensures Adds("%lf", [Real64(b64)], Double(b64)) && Adds("NIL", [], Nil)
  {
    OneToken("%b", [Num(x)], [Scalar(Bool(x != 0))]);
    OneToken("%f", [Real32(b32)], [Scalar(Float(b32))]);
    OneToken("%lf", [Real64(b64)], [Scalar(Double(b64))]);
    OneToken("NIL", [], [Scalar(Nil)]);
  }

  /** Every other character, and a doubled percent sign, adds nothing. */
  lemma SkippedCharacters(c: char)
    requires c !in "[]{}%" && c != '\0'
    ensures Denotes([c], []) == Meant([], 0) && Denotes("%%", []) == Meant([], 0)
  {
    OneToken([c], [], []);
    OneToken("%%", [], []);
  }

  /** Interpreting such a format on a fresh object leaves the encoding of the value. */
  lemma ConversionBuilds(f: string, args: seq<Arg>, v: Value, junk: seq<Frame>)
    requires Adds(f, args, v) && |junk| >= MAX_STACK
    ensures IsScalar(v) && Run(Fresh(Packed), Denotes(f, args).calls, junk).Some?
    ensures Run(Fresh(Packed), Denotes(f, args).calls, junk).value.data == Encode(Packed, v)
  {
    hide Encode, Denotes;
    assert Legal([Scalar(v)][0]);
    RunSplit(Fresh(Packed), Scalar(v), [], junk);
    assert [Scalar(v)] + [] == [Scalar(v)];
    assert [] + Encode(Packed, v) == Encode(Packed, v);
    RunNil(Step(Fresh(Packed), Scalar(v), junk).value, junk);
  }

  /** A printed tree denotes the calls that build it, in front of any other format. */
  lemma {:induction false} PrintDenotes(v: Value, f: string, args: seq<Arg>)
    requires Wf(v) && Printable(v) && Denotes(f, args).Meant?
    ensures var p := Print(v);
            Denotes(p.f + f, p.args + args)
            == Meant(EraseAll(Calls(v)) + Denotes(f, args).calls, |p.args| + Denotes(f, args).used)
    decreases v, 1
  {
    hide Denotes, Lex, Meaning, EncHead;
    if v.Array? || v.Map? {
      var vs := if v.Map? then v.flat else v.items;
      var shut := if v.Map? then "}" else "]";
      ShutDenotes(shut, f, args);
      PrintAllDenotes(vs, shut + f, args);
      ContainerDenotes(v, PrintAll(vs), f, args);
    } else {
      ScalarDenotes(v, f, args);
    }
  }

  lemma {:induction false} ShutDenotes(shut: string, f: string, args: seq<Arg>)
    requires (shut == "]" || shut == "}") && Denotes(f, args).Meant?
    ensures Denotes(shut + f, args) == Meant([Shut] + Denotes(f, args).calls, Denotes(f, args).used)
  {
    hide Denotes;
    DenotesHead(shut, f, [], args);
    assert [] + args == args;
  }

  lemma {:induction false} ContainerDenotes(v: Value, q: Printed, f: string, args: seq<Arg>)
    requires Wf(v) && Printable(v) && (v.Array? || v.Map?) && Denotes(f, args).Meant?
    requires q == PrintAll(if v.Map? then v.flat else v.items)
    requires Denotes(q.f + ((if v.Map? then "}" else "]") + f), q.args + args)
             == Meant(EraseAll(CallsAll(if v.Map? then v.flat else v.items)) + ([Shut] + Denotes(f, args).calls),
                      |q.args| + Denotes(f, args).used)
    ensures Denotes(Print(v).f + f, Print(v).args + args)
            == Meant(EraseAll(Calls(v)) + Denotes(f, args).calls, |q.args| + Denotes(f, args).used)
  {
    hide Denotes, EncHead, CallsAll, PrintAll;
    var open, shut := if v.Map? then "{" else "[", if v.Map? then "}" else "]";
    var kids := EraseAll(CallsAll(if v.Map? then v.flat else v.items));
    DenotesHead(open, q.f + (shut + f), [], q.args + args);
    assert [] + (q.args + args) == q.args + args;
    assert Print(v).f + f == open + (q.f + (shut + f));
    EraseContainer(v);
    Assoc(kids, [Shut], Denotes(f, args).calls);
    Assoc([Open(KindOf(v), 0)], kids + [Shut], Denotes(f, args).calls);
  }

  lemma {:induction false} ScalarDenotes(v: Value, f: string, args: seq<Arg>)
    requires IsScalar(v) && Printable(v) && Denotes(f, args).Meant?
    ensures var p := Print(v);
            Denotes(p.f + f, p.args + args)
            == Meant(EraseAll(Calls(v)) + Denotes(f, args).calls, |p.args| + Denotes(f, args).used)
  {
    hide Denotes, EncHead, Lex, Meaning;
    var p := Print(v);
    ScalarLexes(v, f, args);
    DenotesHead(p.f, f, p.args, args);
    assert EraseAll(Calls(v)) == Calls(v);
  }

  lemma {:induction false} ScalarLexes(v: Value, f: string, args: seq<Arg>)
    requires IsScalar(v) && Printable(v)
    ensures var p := Print(v);
            && |p.f| > 0 && p.f[0] != '\0' && Lex(p.f + f).len == |p.f| && Lex(p.f + f).tok != TBad
            && Meaning(Lex(p.f + f).tok, p.args + args) == Meant([Scalar(v)], |p.args|)
  {
    hide EncHead;
    if v.Str? { assert v.str[..|v.str|] == v.str; }
  }

  lemma EraseContainer(v: Value)
    requires IsContainer(KindOf(v))
    ensures EraseAll(Calls(v))
            == [Open(KindOf(v), 0)] + (EraseAll(CallsAll(if v.Map? then v.flat else v.items)) + [Shut])
  {
    hide CallsAll, EraseAll;
    var vs := if v.Map? then v.flat else v.items;
    var hd := Calls(v)[0];
    EraseSplit([hd] + CallsAll(vs), [Shut]);
    EraseSplit([hd], CallsAll(vs));
    EraseOne(hd);
    EraseOne(Shut);
    Assoc([Open(KindOf(v), 0)], EraseAll(CallsAll(vs)), [Shut]);
  }

  lemma EraseOne(c: Call)
    ensures EraseAll([c]) == [Erase(c)]
  {
  }

  lemma {:induction false} PrintAllDenotes(vs: seq<Value>, f: string, args: seq<Arg>)
    requires WfAll(vs) && (forall i :: 0 <= i < |vs| ==> Printable(vs[i])) && Denotes(f, args).Meant?
    ensures var p := PrintAll(vs);
            Denotes(p.f + f, p.args + args)
            == Meant(EraseAll(CallsAll(vs)) + Denotes(f, args).calls, |p.args| + Denotes(f, args).used)
    decreases vs, 0
  {
    hide Denotes, EncHead;
    if |vs| == 0 {
      assert "" + f == f && [] + args == args && [] + Denotes(f, args).calls == Denotes(f, args).calls;
    } else {
      var p, q := Print(vs[0]), PrintAll(vs[1..]);
      PrintAllDenotes(vs[1..], f, args);
      SpaceDenotes(q.f + f, q.args + args);
      PrintDenotes(vs[0], " " + (q.f + f), q.args + args);
      assert p.f + " " + q.f + f == p.f + (" " + (q.f + f));
      Assoc(p.args, q.args, args);
      EraseSplit(Calls(vs[0]), CallsAll(vs[1..]));
      Assoc(EraseAll(Calls(vs[0])), EraseAll(CallsAll(vs[1..])), Denotes(f, args).calls);
    }
  }

  lemma {:induction false} SpaceDenotes(f: string, args: seq<Arg>)
    requires Denotes(f, args).Meant?
    ensures Denotes(" " + f, args) == Denotes(f, args)
  {
    hide Denotes;
    DenotesHead(" ", f, [], args);
    assert [] + args == args && [] + Denotes(f, args).calls == Denotes(f, args).calls;
  }

  /** Printing a tree and interpreting the result on a fresh object gives the tree's shortest encoding. */
  lemma {:induction false} PrintBuilds(v: Value, junk: seq<Frame>)
    requires Wf(v) && Narrow(v) && Printable(v) && Depth(v) <= INITIAL_STACK && |junk| >= MAX_STACK
    ensures var d := Denotes(Print(v).f, Print(v).args);
            && d == Meant(EraseAll(Calls(v)), |Print(v).args|)
            && Run(Fresh(Packed), d.calls, junk).Some? && Run(Fresh(Packed), d.calls, junk).value.data == Encode(Packed, v)
  {
    hide Run, EncHead, Denotes;
    DenotesEmpty("", []);
    PrintDenotes(v, "", []);
    assert Print(v).f + "" == Print(v).f && Print(v).args + [] == Print(v).args;
    assert EraseAll(Calls(v)) + [] == EraseAll(Calls(v));
    assert [v][1..] == [] && CallsAll([v]) == Calls(v) by { assert Calls(v) + [] == Calls(v); }
    BuildForest(Packed, [v], junk);
    EncodeOne(Packed, v);
    EraseRun(Fresh(Packed), Calls(v), junk);
  }

  /** PACKED mode does not look at declared sizes. */
  lemma {:induction false} EraseRun(o: Obj, calls: seq<Call>, junk: seq<Frame>)
    requires o.mode == Packed && AllLegal(calls) && Sane(o, junk)
    ensures AllLegal(EraseAll(calls)) && Run(o, EraseAll(calls), junk) == Run(o, calls, junk)
    decreases |calls|
  {
    if |calls| > 0 {
      assert EraseAll(calls)[1..] == EraseAll(calls[1..]);
      EraseStep(o, calls[0], junk);
      if Step(o, calls[0], junk).Some? { EraseRun(Step(o, calls[0], junk).value, calls[1..], junk); }
    }
  }

  lemma EraseStep(o: Obj, c: Call, junk: seq<Frame>)
    requires o.mode == Packed && Legal(c) && Sane(o, junk)
    ensures Step(o, Erase(c), junk) == Step(o, c, junk)
    ensures Step(o, c, junk).Some? ==> Step(o, c, junk).value.mode == Packed
  {
    hide EncHead, EncHead32, Encode;
  }
}
