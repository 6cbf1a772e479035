/** What a run of the object builder leaves behind. The buffer of an object with open containers is
    the finished parts with one header placeholder for every open container; `Level` describes one
    of those parts, by the values it holds and by their bytes. */
module BuilderProofs {
  import opened Seqs
  import opened MsgPack
  import opened Wrappers
  import opened Builder

  /** The children so far of an open container, as values and as bytes. Level 0 is the top of the
      buffer, which is no container; its kind and declared size are not used. */
  datatype Level = Level(kind: Kind, declared: u32, kids: seq<Value>, body: bytes)

  const ROOT: Level := Level(KNil, 0, [], [])

  predicate Levels(ls: seq<Level>)
  {
    |ls| > 0 && forall i :: 1 <= i < |ls| ==> IsContainer(ls[i].kind)
  }

  /** The buffer: finished bytes with a placeholder at each open container. */
  function Render(mode: Mode, ls: seq<Level>): bytes
    requires Levels(ls)
  {
    if |ls| == 1 then ls[0].body
    else Render(mode, Init(ls)) + Hole(mode, Last(ls).kind, Last(ls).declared) + Last(ls).body
  }

  /** The stack entries describe the open levels: header position, kind, and number of children,
      counting a child that is itself still open. */
  predicate Linked(mode: Mode, stack: seq<Frame>, ls: seq<Level>, child: nat)
    requires Levels(ls)
  {
    && |ls| == |stack| + 1
    && (|stack| > 0 ==>
          && Last(stack) == Frame(|Render(mode, Init(ls))|, Wrap32(|Last(ls).kids| + child), Last(ls).kind)
          && Linked(mode, Init(stack), Init(ls), 1))
  }

  /** The step invariant of the builder. */
  predicate Inv(o: Obj, ls: seq<Level>): (b: bool)
    ensures b ==> Levels(ls) && |ls| == |o.stack| + 1
  {
    Levels(ls) && o.data == Render(o.mode, ls) && Linked(o.mode, o.stack, ls, 0)
  }

  // ---------------------------------------------------------------- the run on levels

  function Grow(ls: seq<Level>, v: Value, s: bytes): (r: seq<Level>)
    requires Levels(ls)
    ensures Levels(r) && |r| == |ls|
  {
    Init(ls) + [Last(ls).(kids := Last(ls).kids + [v], body := Last(ls).body + s)]
  }

  function MkValue(kind: Kind, kids: seq<Value>): Value
  {
    if kind == KMap then Map(kids) else Array(kids)
  }

  /** The header a closed container keeps. */
  function ClosedHead(mode: Mode, l: Level): bytes
    requires IsContainer(l.kind)
  {
    if mode == Simple then EncHead(l.kind, l.declared) else FinalHead(mode, l.kind, Wrap32(|l.kids|))
  }

  function StepLevels(mode: Mode, ls: seq<Level>, c: Call): (r: Option<seq<Level>>)
    requires Levels(ls) && Legal(c)
    ensures r.Some? ==> Levels(r.value)
  {
    match c
    case Scalar(v) => Some(Grow(ls, v, Encode(mode, v)))
    case Open(kind, n) => Some(ls + [Level(kind, n, [], [])])
    case Shut =>
      if |ls| == 1 || (Last(ls).kind == KMap && |Last(ls).kids| % 2 == 1) then None
      else Some(Grow(Init(ls), MkValue(Last(ls).kind, Last(ls).kids), ClosedHead(mode, Last(ls)) + Last(ls).body))
  }

  function RunLevels(mode: Mode, ls: seq<Level>, calls: seq<Call>): (r: Option<seq<Level>>)
    requires Levels(ls) && AllLegal(calls)
    ensures r.Some? ==> Levels(r.value)
    decreases |calls|
  {
    if |calls| == 0 then Some(ls)
    else match StepLevels(mode, ls, calls[0])
         case None => None
         case Some(ls') => RunLevels(mode, ls', calls[1..])
  }

  /** No more than `limit` containers are ever open at once, starting from `open` of them. */
  predicate Shallow(open: nat, calls: seq<Call>, limit: nat)
    decreases |calls|
  {
    |calls| == 0 ||
    match calls[0]
    case Scalar(_) => Shallow(open, calls[1..], limit)
    case Open(_, _) => open < limit && Shallow(open + 1, calls[1..], limit)
    case Shut => open > 0 ==> Shallow(open - 1, calls[1..], limit)
  }

  // ---------------------------------------------------------------- the machine follows the levels

  lemma {:induction false} BumpLinked(mode: Mode, stack: seq<Frame>, ls: seq<Level>, ls': seq<Level>, child: nat)
    requires Levels(ls) && Levels(ls') && Linked(mode, stack, ls, 0)
    requires |ls'| == |ls| && Init(ls') == Init(ls) && Last(ls').kind == Last(ls).kind
    requires |Last(ls').kids| + child == |Last(ls).kids| + 1
    ensures Linked(mode, Bump(stack), ls', child)
  {
    if |stack| > 0 {
      assert Init(Bump(stack)) == Init(stack);
    }
  }

  lemma {:induction false} ScalarKeeps(o: Obj, ls: seq<Level>, v: Value)
    requires Inv(o, ls) && IsScalar(v)
    ensures Inv(AddScalar(o, v), Grow(ls, v, Encode(o.mode, v)))
  {
    hide Encode, Wf, Render, Linked;
    var s := Encode(o.mode, v);
    assert Init(Grow(ls, v, s)) == Init(ls);
    BumpLinked(o.mode, o.stack, ls, Grow(ls, v, s), 0);
    GrowRender(o.mode, ls, v, s);
  }

  lemma RenderOpen(mode: Mode, ls: seq<Level>, kind: Kind, n: u32)
    requires Levels(ls) && IsContainer(kind)
    ensures Render(mode, ls + [Level(kind, n, [], [])]) == Render(mode, ls) + Hole(mode, kind, n)
  {
    hide EncHead, EncHead32;
    var ls' := ls + [Level(kind, n, [], [])];
    assert Init(ls') == ls;
    assert Render(mode, ls) + Hole(mode, kind, n) + [] == Render(mode, ls) + Hole(mode, kind, n);
  }

  /** An entry for the last level, over entries that count it as a child. */
  lemma LinkedStep(mode: Mode, stack: seq<Frame>, ls: seq<Level>, child: nat)
    requires Levels(ls) && |ls| > 1 && |stack| > 0 && Linked(mode, Init(stack), Init(ls), 1)
    requires Last(stack) == Frame(|Render(mode, Init(ls))|, Wrap32(|Last(ls).kids| + child), Last(ls).kind)
    ensures Linked(mode, stack, ls, child)
  {
    hide Render;
  }

  lemma LinkedOpen(mode: Mode, stack: seq<Frame>, ls: seq<Level>, kind: Kind, n: u32)
    requires Levels(ls) && IsContainer(kind) && Linked(mode, stack, ls, 1)
    ensures Linked(mode, stack + [Frame(|Render(mode, ls)|, 0, kind)], ls + [Level(kind, n, [], [])], 0)
  {
    hide Render, Linked;
    var stack', ls' := stack + [Frame(|Render(mode, ls)|, 0, kind)], ls + [Level(kind, n, [], [])];
    assert Init(ls') == ls && Init(stack') == stack;
    LinkedStep(mode, stack', ls', 0);
  }

  lemma {:induction false} OpenKeeps(o: Obj, ls: seq<Level>, kind: Kind, n: u32, junk: seq<Frame>)
    requires Inv(o, ls) && IsContainer(kind) && Sane(o, junk) && |o.stack| < o.stackAlloc
    ensures AddContainer(o, kind, n, junk).Some?
    ensures Inv(AddContainer(o, kind, n, junk).value, ls + [Level(kind, n, [], [])])
  {
    hide Render, Linked, Bump, Hole;
    BumpLinked(o.mode, o.stack, ls, ls, 1);
    LinkedOpen(o.mode, Bump(o.stack), ls, kind, n);
    RenderOpen(o.mode, ls, kind, n);
  }

  lemma WrapParity(n: nat)
    ensures Wrap32(n) % 2 == n % 2
  {
  }

  /** The top of the stack and of the buffer. */
  lemma InvTop(o: Obj, ls: seq<Level>)
    requires Inv(o, ls) && |o.stack| > 0
    ensures IsContainer(Last(ls).kind) && Levels(Init(ls))
    ensures Last(o.stack) == Frame(|Render(o.mode, Init(ls))|, Wrap32(|Last(ls).kids|), Last(ls).kind)
    ensures o.data == Render(o.mode, Init(ls)) + Hole(o.mode, Last(ls).kind, Last(ls).declared) + Last(ls).body
    ensures Linked(o.mode, Init(o.stack), Init(ls), 1)
  {
    hide EncHead, EncHead32, Hole;
  }

  lemma {:induction false} CloseKeeps(o: Obj, ls: seq<Level>)
    requires Inv(o, ls)
    ensures CanClose(o)
    ensures Close(o).Some? <==> StepLevels(o.mode, ls, Shut).Some?
    ensures Close(o).Some? ==> Inv(Close(o).value, StepLevels(o.mode, ls, Shut).value)
  {
    hide Render, Linked, Hole, Closed, FinalHead, ClosedHead, Wrap32;
    if |o.stack| > 0 {
      InvTop(o, ls);
      var top, below := Last(ls), Init(ls);
      var before := Render(o.mode, below);
      WrapParity(|top.kids|);
      CloseData(o, before, Hole(o.mode, top.kind, top.declared), top);
      if StepLevels(o.mode, ls, Shut).Some? {
        BumpedAlready(o.mode, Init(o.stack), below, StepLevels(o.mode, ls, Shut).value);
        GrowRender(o.mode, below, MkValue(top.kind, top.kids), ClosedHead(o.mode, top) + top.body);
      }
    }
  }

  /** Closing in place, whether by patching, by shifting the tail or by doing nothing, replaces the
      placeholder by the final header. */
  lemma {:induction false} CloseData(o: Obj, before: bytes, hole: bytes, top: Level)
    requires |o.stack| > 0 && IsContainer(top.kind)
    requires Last(o.stack) == Frame(|before|, Wrap32(|top.kids|), top.kind)
    requires hole == Hole(o.mode, top.kind, top.declared) && o.data == before + hole + top.body
    ensures CanClose(o)
    ensures Close(o).Some? ==> Close(o).value.data == before + (ClosedHead(o.mode, top) + top.body)
    ensures Close(o).Some? ==> Close(o).value.stack == Init(o.stack) && Close(o).value.mode == o.mode
  {
    hide EncHead, EncHead32;
    assert o.data[..|before|] == before;
    assert o.data[|before| + |hole|..] == top.body;
    assert before + hole + top.body == before + (hole + top.body);
    var hd := ClosedHead(o.mode, top);
    assert before + hd + top.body == before + (hd + top.body);
  }

  lemma {:induction false} GrowRender(mode: Mode, ls: seq<Level>, v: Value, s: bytes)
    requires Levels(ls)
    ensures Render(mode, Grow(ls, v, s)) == Render(mode, ls) + s
  {
    assert Init(Grow(ls, v, s)) == Init(ls);
  }

  /** The child counted when it was pushed is the one its closing adds. */
  lemma {:induction false} BumpedAlready(mode: Mode, stack: seq<Frame>, ls: seq<Level>, ls': seq<Level>)
    requires Levels(ls) && Levels(ls') && Linked(mode, stack, ls, 1)
    requires |ls'| == |ls| && Init(ls') == Init(ls) && Last(ls').kind == Last(ls).kind
    requires |Last(ls').kids| == |Last(ls).kids| + 1
    ensures Linked(mode, stack, ls', 0)
  {
  }

  /** In a run that never holds more than eight open containers the machine accepts exactly the calls
      the levels accept, keeps the invariant, and the contents of fresh memory do not matter. */
  lemma {:induction false} RunFollowsLevels(o: Obj, ls: seq<Level>, calls: seq<Call>, junk: seq<Frame>)
    requires Inv(o, ls) && AllLegal(calls) && Sane(o, junk)
    requires o.stackAlloc == INITIAL_STACK && Shallow(|o.stack|, calls, INITIAL_STACK)
    ensures Run(o, calls, junk).Some? <==> RunLevels(o.mode, ls, calls).Some?
    ensures Run(o, calls, junk).Some? ==>
              Inv(Run(o, calls, junk).value, RunLevels(o.mode, ls, calls).value)
              && Run(o, calls, junk).value.mode == o.mode
    decreases |calls|
  {
    hide Step, StepLevels, Inv;
    if |calls| > 0 {
      StepFollowsLevels(o, ls, calls[0], junk);
      if Step(o, calls[0], junk).Some? {
        RunFollowsLevels(Step(o, calls[0], junk).value, StepLevels(o.mode, ls, calls[0]).value, calls[1..], junk);
      }
    }
  }

  lemma {:induction false} StepFollowsLevels(o: Obj, ls: seq<Level>, c: Call, junk: seq<Frame>)
    requires Inv(o, ls) && Legal(c) && Sane(o, junk)
    requires c.Open? ==> |o.stack| < o.stackAlloc
    ensures Step(o, c, junk).Some? <==> StepLevels(o.mode, ls, c).Some?
    ensures Step(o, c, junk).Some? ==>
              var o' := Step(o, c, junk).value;
              && Inv(o', StepLevels(o.mode, ls, c).value)
              && o'.mode == o.mode && o'.stackAlloc == o.stackAlloc
              && |o'.stack| == (match c case Scalar(_) => |o.stack| case Open(_, _) => |o.stack| + 1
                                        case Shut => |o.stack| - 1)
  {
    hide Inv, Encode, EncHead, EncHead32, Wf;
    match c {
      case Scalar(v) => ScalarKeeps(o, ls, v);
      case Open(kind, n) => OpenKeeps(o, ls, kind, n, junk);
      case Shut => CloseKeeps(o, ls);
    }
  }

  // ---------------------------------------------------------------- from trees to runs

  /** The calls that describe a tree, with the true sizes declared. */
  function Calls(v: Value): (r: seq<Call>)
    ensures |r| > 0 && (Wf(v) ==> AllLegal(r))
    decreases v, 1
  {
    match v
    case Array(vs) => [Open(KArray, Wrap32(|vs|))] + CallsAll(vs) + [Shut]
    case Map(vs) => [Open(KMap, Wrap32(|vs| / 2))] + CallsAll(vs) + [Shut]
    case _ => [Scalar(v)]
  }

  function CallsAll(vs: seq<Value>): (r: seq<Call>)
    ensures WfAll(vs) ==> AllLegal(r)
    decreases vs, 0
  {
    if |vs| == 0 then [] else Calls(vs[0]) + CallsAll(vs[1..])
  }

  function Depth(v: Value): nat
    decreases v, 1
  {
    match v
    case Array(vs) => 1 + DepthAll(vs)
    case Map(vs) => 1 + DepthAll(vs)
    case _ => 0
  }

  function DepthAll(vs: seq<Value>): nat
    decreases vs, 0
  {
    if |vs| == 0 then 0
    else if Depth(vs[0]) > DepthAll(vs[1..]) then Depth(vs[0]) else DepthAll(vs[1..])
  }

  function GrowAll(ls: seq<Level>, vs: seq<Value>, s: bytes): (r: seq<Level>)
    requires Levels(ls)
    ensures Levels(r) && |r| == |ls|
  {
    Init(ls) + [Last(ls).(kids := Last(ls).kids + vs, body := Last(ls).body + s)]
  }

  /** Containers have fewer than 2^32 children: the stack counts them in 32 bits. */
  predicate Narrow(v: Value)
  {
    match v
    case Array(vs) => |vs| < TWO32 && forall i :: 0 <= i < |vs| ==> Narrow(vs[i])
    case Map(vs) => |vs| < TWO32 && forall i :: 0 <= i < |vs| ==> Narrow(vs[i])
    case _ => true
  }

  predicate Good(vs: seq<Value>)
  {
    WfAll(vs) && forall i :: 0 <= i < |vs| ==> Narrow(vs[i])
  }

  lemma {:induction false} RunSplit(o: Obj, c: Call, calls: seq<Call>, junk: seq<Frame>)
    requires Legal(c) && AllLegal(calls) && Sane(o, junk)
    ensures AllLegal([c] + calls)
    ensures Run(o, [c] + calls, junk) == match Step(o, c, junk) case None => None case Some(o') => Run(o', calls, junk)
  {
    hide Step;
    assert ([c] + calls)[1..] == calls;
  }

  /** The children of a container. */
  function Kids(v: Value): seq<Value>
    requires IsContainer(KindOf(v))
  {
    if v.Map? then v.flat else v.items
  }

  lemma TreeParts(mode: Mode, v: Value)
    requires Wf(v) && Narrow(v) && IsContainer(KindOf(v))
    ensures var kind, vs := KindOf(v), Kids(v);
            var n := FinalCount(kind, Wrap32(|vs|));
            && Good(vs) && |vs| < TWO32 && (kind == KMap ==> |vs| % 2 == 0) && v == MkValue(kind, vs)
            && Calls(v) == [Open(kind, n)] + CallsAll(vs) + [Shut] && Depth(v) == 1 + DepthAll(vs)
            && Encode(mode, v) == ContainerHead(mode, kind, n) + EncodeAll(mode, vs)
  {
    hide ContainerHead, EncodeAll, CallsAll, DepthAll;
  }

  /** Building one tree on top of any partial buffer with room on the stack. */
  lemma {:induction false} RunTree(o: Obj, ls: seq<Level>, v: Value, rest: seq<Call>, junk: seq<Frame>) returns (o': Obj)
    requires Inv(o, ls) && Sane(o, junk) && o.stackAlloc == INITIAL_STACK
    requires Wf(v) && Narrow(v) && AllLegal(rest) && |o.stack| + Depth(v) <= INITIAL_STACK
    ensures AllLegal(Calls(v) + rest) && Sane(o', junk) && o'.mode == o.mode && o'.stackAlloc == INITIAL_STACK
    ensures Inv(o', Grow(ls, v, Encode(o.mode, v)))
    ensures Run(o, Calls(v) + rest, junk) == Run(o', rest, junk)
    decreases v, 1
  {
    hide Run, Inv, Step, ContainerHead, Encode, EncodeAll, Grow, CallsAll, Wf, Narrow;
    if IsContainer(KindOf(v)) {
      hide Calls, Depth;
      TreeParts(o.mode, v);
      o' := RunContainer(o, ls, KindOf(v), FinalCount(KindOf(v), Wrap32(|Kids(v)|)), Kids(v), rest, junk);
    } else {
      assert Calls(v) == [Scalar(v)] && IsScalar(v);
      RunSplit(o, Scalar(v), rest, junk);
      StepFollowsLevels(o, ls, Scalar(v), junk);
      o' := Step(o, Scalar(v), junk).value;
    }
  }

  lemma {:induction false} RunContainer(
    o: Obj, ls: seq<Level>, kind: Kind, n: u32, vs: seq<Value>, rest: seq<Call>, junk: seq<Frame>) returns (o': Obj)
    requires Inv(o, ls) && Sane(o, junk) && o.stackAlloc == INITIAL_STACK
    requires IsContainer(kind) && n == FinalCount(kind, Wrap32(|vs|)) && (kind == KMap ==> |vs| % 2 == 0)
    requires Good(vs) && |vs| < TWO32 && AllLegal(rest) && |o.stack| + 1 + DepthAll(vs) <= INITIAL_STACK
    ensures AllLegal([Open(kind, n)] + CallsAll(vs) + [Shut] + rest)
    ensures Sane(o', junk) && o'.mode == o.mode && o'.stackAlloc == INITIAL_STACK
    ensures Inv(o', Grow(ls, MkValue(kind, vs), ContainerHead(o.mode, kind, n) + EncodeAll(o.mode, vs)))
    ensures Run(o, [Open(kind, n)] + CallsAll(vs) + [Shut] + rest, junk) == Run(o', rest, junk)
    decreases vs, 1
  {
    hide Run, Inv, Step, StepLevels, ContainerHead, EncodeAll, Grow, DepthAll;
    var pushed := ls + [Level(kind, n, [], [])];
    assert StepLevels(o.mode, ls, Open(kind, n)) == Some(pushed) by { OpenLevels(o.mode, ls, kind, n); }
    StepFollowsLevels(o, ls, Open(kind, n), junk);
    var o1 := Step(o, Open(kind, n), junk).value;
    RunSplit(o, Open(kind, n), CallsAll(vs) + ([Shut] + rest), junk);
    var o2 := RunForest(o1, pushed, vs, [Shut] + rest, junk);
    var filled := GrowAll(pushed, vs, EncodeAll(o.mode, vs));
    CloseFilled(o.mode, ls, kind, n, vs);
    StepFollowsLevels(o2, filled, Shut, junk);
    RunSplit(o2, Shut, rest, junk);
    o' := Step(o2, Shut, junk).value;
    assert [Open(kind, n)] + CallsAll(vs) + [Shut] + rest == [Open(kind, n)] + (CallsAll(vs) + ([Shut] + rest));
  }

  lemma OpenLevels(mode: Mode, ls: seq<Level>, kind: Kind, n: u32)
    requires Levels(ls) && IsContainer(kind)
    ensures StepLevels(mode, ls, Open(kind, n)) == Some(ls + [Level(kind, n, [], [])])
  {
  }

  /** The level below a filled one, once it is closed. */
  lemma {:induction false} CloseFilled(mode: Mode, ls: seq<Level>, kind: Kind, n: u32, vs: seq<Value>)
    requires Levels(ls) && IsContainer(kind) && WfAll(vs) && |vs| < TWO32
    requires n == FinalCount(kind, Wrap32(|vs|)) && (kind == KMap ==> |vs| % 2 == 0)
    ensures StepLevels(mode, GrowAll(ls + [Level(kind, n, [], [])], vs, EncodeAll(mode, vs)), Shut)
            == Some(Grow(ls, MkValue(kind, vs), ContainerHead(mode, kind, n) + EncodeAll(mode, vs)))
  {
    hide EncHead, EncHead32, EncodeAll;
    var filled := GrowAll(ls + [Level(kind, n, [], [])], vs, EncodeAll(mode, vs));
    assert Init(filled) == ls && [] + vs == vs && [] + EncodeAll(mode, vs) == EncodeAll(mode, vs);
  }

  lemma {:induction false} RunForest(o: Obj, ls: seq<Level>, vs: seq<Value>, rest: seq<Call>, junk: seq<Frame>) returns (o': Obj)
    requires Inv(o, ls) && Sane(o, junk) && o.stackAlloc == INITIAL_STACK
    requires Good(vs) && AllLegal(rest) && |o.stack| + DepthAll(vs) <= INITIAL_STACK
    ensures AllLegal(CallsAll(vs) + rest) && Sane(o', junk) && o'.mode == o.mode && o'.stackAlloc == INITIAL_STACK
    ensures Inv(o', GrowAll(ls, vs, EncodeAll(o.mode, vs)))
    ensures Run(o, CallsAll(vs) + rest, junk) == Run(o', rest, junk)
    decreases vs, 0
  {
    hide Run, Inv, Grow, GrowAll, Encode, Calls, Depth;
    if |vs| == 0 {
      o' := o;
      assert [] + rest == rest;
      GrowNone(ls);
    } else {
      var mid := Grow(ls, vs[0], Encode(o.mode, vs[0]));
      var o1 := RunTree(o, ls, vs[0], CallsAll(vs[1..]) + rest, junk);
      assert Calls(vs[0]) + (CallsAll(vs[1..]) + rest) == CallsAll(vs) + rest;
      o' := RunForest(o1, mid, vs[1..], rest, junk);
      GrowGrow(ls, vs, Encode(o.mode, vs[0]), EncodeAll(o.mode, vs[1..]));
    }
  }

  lemma GrowNone(ls: seq<Level>)
    requires Levels(ls)
    ensures GrowAll(ls, [], []) == ls
  {
    assert Last(ls).kids + [] == Last(ls).kids && Last(ls).body + [] == Last(ls).body;
  }

  lemma GrowGrow(ls: seq<Level>, vs: seq<Value>, s: bytes, t: bytes)
    requires Levels(ls) && |vs| > 0
    ensures GrowAll(Grow(ls, vs[0], s), vs[1..], t) == GrowAll(ls, vs, s + t)
  {
    var l := Last(ls);
    assert l.kids + [vs[0]] + vs[1..] == l.kids + vs && l.body + s + t == l.body + (s + t);
  }
}
