/** Growing the stack of open containers does not carry the old entries over. So a build is safe
    exactly up to the initial eight levels of nesting. */
module BuilderDepth {
  import opened Seqs
  import opened MsgPack
  import opened Builder
  import opened BuilderProofs
  import opened BuilderRuns

  // ---------------------------------------------------------------- two memories

  /** Fresh memory in which every entry looks like a map with no children, or with one. */
  function Blank(size: u32): (junk: seq<Frame>)
    ensures |junk| == MAX_STACK
  {
    seq(MAX_STACK, _ => Frame(0, size, KMap))
  }

  /** Two entries of which exactly one counts an odd number of children of a map. */
  predicate Odds(f: Frame, g: Frame)
  {
    f.kind == KMap == g.kind && f.offset == g.offset && f.size % 2 != g.size % 2
  }

  /** Two machines that differ in lost entries only, of which the eighth is one. */
  predicate Twins(a: Obj, b: Obj)
  {
    && b == a.(stack := b.stack) && |a.stack| == |b.stack| >= INITIAL_STACK
    && Odds(a.stack[7], b.stack[7])
    && forall i :: 0 <= i < |a.stack| ==> a.stack[i] == b.stack[i] || Odds(a.stack[i], b.stack[i])
  }

  /** Either nothing has been lost yet, or the two machines are twins. */
  predicate Related(a: Obj, b: Obj)
  {
    (a == b && a.stackAlloc == INITIAL_STACK) || Twins(a, b)
  }

  lemma BumpOdds(f: Frame, g: Frame)
    requires Odds(f, g)
    ensures Odds(f.(size := Wrap32(f.size + 1)), g.(size := Wrap32(g.size + 1)))
  {
    assert Wrap32(f.size + 1) % 2 == (f.size + 1) % 2 && Wrap32(g.size + 1) % 2 == (g.size + 1) % 2;
  }

  lemma BumpTwins(a: Obj, b: Obj)
    requires Twins(a, b)
    ensures Twins(a.(stack := Bump(a.stack)), b.(stack := Bump(b.stack)))
  {
    var k := |a.stack| - 1;
    if Odds(a.stack[k], b.stack[k]) { BumpOdds(a.stack[k], b.stack[k]); }
  }

  lemma {:induction false} OpenRelated(a: Obj, b: Obj, c: Call)
    requires Related(a, b) && c.Open? && Legal(c) && Sane(a, Blank(0)) && Sane(b, Blank(1))
    requires Step(a, c, Blank(0)).Some? && Step(b, c, Blank(1)).Some?
    ensures Related(Step(a, c, Blank(0)).value, Step(b, c, Blank(1)).value)
  {
    hide EncHead, EncHead32, Bump;
    if Twins(a, b) { BumpTwins(a, b); }
  }

  lemma SameClosed(a: Obj, b: Obj, f: Frame)
    requires b == a.(stack := b.stack) && Inside(a, f)
    ensures Closed(b, f) == Closed(a, f).(stack := b.stack)
  {
    hide EncHead, EncHead32, FinalHead;
  }

  /** Closing two related machines: once the eighth entry is lost, its close is refused in one of them. */
  lemma {:induction false} ShutRelated(a: Obj, b: Obj)
    requires Related(a, b) && CanClose(a) && CanClose(b) && Close(a).Some? && Close(b).Some?
    ensures Related(Close(a).value, Close(b).value)
  {
    hide EncHead, EncHead32, FinalHead, Reserve;
    if Twins(a, b) {
      var k := |a.stack| - 1;
      assert !Odds(a.stack[k], b.stack[k]);
      assert k > 7 && a.stack[k] == b.stack[k];
      var below := a.(stack := a.stack[..k]);
      SameClosed(below, b.(stack := b.stack[..k]), a.stack[k]);
    }
  }

  lemma {:induction false} StepRelated(a: Obj, b: Obj, c: Call)
    requires Related(a, b) && Legal(c) && Sane(a, Blank(0)) && Sane(b, Blank(1))
    requires Step(a, c, Blank(0)).Some? && Step(b, c, Blank(1)).Some?
    ensures Related(Step(a, c, Blank(0)).value, Step(b, c, Blank(1)).value)
  {
    hide EncHead, EncHead32, Encode, Bump, Close;
    match c
    case Scalar(_) => if Twins(a, b) { BumpTwins(a, b); }
    case Open(_, _) => OpenRelated(a, b, c);
    case Shut => ShutRelated(a, b);
  }

  /** No run gets its lost entries closed in both memories: if both accept it and close everything, the
      stack has never grown. */
  lemma {:induction false} RunRelated(a: Obj, b: Obj, calls: seq<Call>)
    requires Related(a, b) && AllLegal(calls) && Sane(a, Blank(0)) && Sane(b, Blank(1))
    requires Run(a, calls, Blank(0)).Some? && Run(b, calls, Blank(1)).Some?
    ensures Related(Run(a, calls, Blank(0)).value, Run(b, calls, Blank(1)).value)
    decreases |calls|
  {
    hide Step, Related;
    if |calls| > 0 {
      StepRelated(a, b, calls[0]);
      RunRelated(Step(a, calls[0], Blank(0)).value, Step(b, calls[0], Blank(1)).value, calls[1..]);
    }
  }

  // ---------------------------------------------------------------- how high the stack gets

  /** Every accepted run of at least eight levels of capacity never had more containers open than fit it. */
  lemma {:induction false} NeverGrown(o: Obj, calls: seq<Call>, junk: seq<Frame>)
    requires AllLegal(calls) && Sane(o, junk) && Run(o, calls, junk).Some?
    ensures Run(o, calls, junk).value.stackAlloc >= o.stackAlloc
    ensures Run(o, calls, junk).value.stackAlloc == INITIAL_STACK ==> Shallow(|o.stack|, calls, INITIAL_STACK)
    decreases |calls|
  {
    if |calls| > 0 {
      NeverGrown(Step(o, calls[0], junk).value, calls[1..], junk);
      StepHeight(o, calls[0], junk);
    }
  }

  lemma StepHeight(o: Obj, c: Call, junk: seq<Frame>)
    requires Legal(c) && Sane(o, junk) && Step(o, c, junk).Some?
    ensures var o' := Step(o, c, junk).value;
            && o'.stackAlloc >= o.stackAlloc
            && (o'.stackAlloc == INITIAL_STACK && c.Open? ==> |o.stack| < INITIAL_STACK)
            && (c.Shut? ==> |o.stack| > 0)
            && |o'.stack| == (match c case Scalar(_) => |o.stack| case Open(_, _) => |o.stack| + 1
                                      case Shut => |o.stack| - 1)
  {
    hide EncHead, EncHead32, Encode;
  }

  /** What a tree's calls leave open, and how many containers they need. */
  lemma {:induction false} TreeShallow(v: Value, open: nat, rest: seq<Call>, limit: nat)
    requires Shallow(open, Calls(v) + rest, limit) && open <= limit
    ensures open + Depth(v) <= limit && Shallow(open, rest, limit)
    decreases v, 1
  {
    hide CallsAll, DepthAll;
    if IsContainer(KindOf(v)) {
      var more := CallsAll(Kids(v)) + ([Shut] + rest);
      assert Calls(v) + rest == [Calls(v)[0]] + more;
      assert (Calls(v) + rest)[1..] == more;
      ForestShallow(Kids(v), open + 1, [Shut] + rest, limit);
      assert ([Shut] + rest)[1..] == rest;
    } else {
      assert (Calls(v) + rest)[1..] == rest;
    }
  }

  lemma {:induction false} ForestShallow(vs: seq<Value>, open: nat, rest: seq<Call>, limit: nat)
    requires Shallow(open, CallsAll(vs) + rest, limit) && open <= limit
    ensures open + DepthAll(vs) <= limit && Shallow(open, rest, limit)
    decreases vs, 0
  {
    if |vs| == 0 {
      assert [] + rest == rest;
    } else {
      assert CallsAll(vs) + rest == Calls(vs[0]) + (CallsAll(vs[1..]) + rest);
      TreeShallow(vs[0], open, CallsAll(vs[1..]) + rest, limit);
      ForestShallow(vs[1..], open, rest, limit);
    }
  }

  // ---------------------------------------------------------------- the exact limit

  /** A run of calls is safe if it is accepted and closes everything it opens, whatever fresh memory holds. */
  predicate Completes(mode: Mode, calls: seq<Call>, junk: seq<Frame>)
    requires AllLegal(calls) && |junk| >= MAX_STACK
  {
    var r := Run(Fresh(mode), calls, junk);
    r.Some? && |r.value.stack| == 0
  }

  /** A run that ever holds a ninth container open is refused in one of two memories: the close of the
      eighth container finds a map with an odd child. In every mode, for every run, of trees or not. */
  lemma {:induction false} NinthIsFatal(mode: Mode, calls: seq<Call>)
    requires AllLegal(calls) && Completes(mode, calls, Blank(0)) && Completes(mode, calls, Blank(1))
    ensures Shallow(0, calls, INITIAL_STACK)
  {
    RunRelated(Fresh(mode), Fresh(mode), calls);
    NeverGrown(Fresh(mode), calls, Blank(0));
  }

  /** The exact condition for any run: whatever fresh memory holds, it is accepted and closes everything it
      opens, if and only if its brackets and map entries match and no ninth container is ever opened. */
  lemma {:induction false} SafeRuns(mode: Mode, calls: seq<Call>)
    requires AllLegal(calls)
    ensures (forall junk: seq<Frame> | |junk| >= MAX_STACK :: Completes(mode, calls, junk)) <==>
              && Shallow(0, calls, INITIAL_STACK)
              && RunLevels(mode, [ROOT], calls).Some? && |RunLevels(mode, [ROOT], calls).value| == 1
  {
    FreshInv(mode);
    if Shallow(0, calls, INITIAL_STACK) {
      forall junk: seq<Frame> | |junk| >= MAX_STACK
        ensures Completes(mode, calls, junk) <==>
                  RunLevels(mode, [ROOT], calls).Some? && |RunLevels(mode, [ROOT], calls).value| == 1
      {
        RunFollowsLevels(Fresh(mode), [ROOT], calls, junk);
      }
      assert |Blank(0)| >= MAX_STACK;
    } else if Completes(mode, calls, Blank(0)) && Completes(mode, calls, Blank(1)) {
      NinthIsFatal(mode, calls);
    }
  }

  /** The build comes out right whatever fresh memory holds if and only if no more than eight
      containers nest. */
  lemma {:induction false} SafeDepth(mode: Mode, vs: seq<Value>)
    requires Good(vs)
    ensures (forall junk: seq<Frame> | |junk| >= MAX_STACK :: Builds(mode, vs, junk)) <==> DepthAll(vs) <= INITIAL_STACK
  {
    if DepthAll(vs) <= INITIAL_STACK {
      forall junk: seq<Frame> | |junk| >= MAX_STACK ensures Builds(mode, vs, junk) {
        BuildForest(mode, vs, junk);
      }
    } else if Builds(mode, vs, Blank(0)) && Builds(mode, vs, Blank(1)) {
      NinthIsFatal(mode, CallsAll(vs));
      assert CallsAll(vs) + [] == CallsAll(vs);
      ForestShallow(vs, 0, [], INITIAL_STACK);
    }
  }

  // ---------------------------------------------------------------- what SIMPLE mode cannot damage

  /** The bytes one call writes in SIMPLE mode. */
  function WrittenBy(c: Call): bytes
    requires Legal(c)
  {
    match c
    case Scalar(v) => Encode(Simple, v)
    case Open(kind, n) => Hole(Simple, kind, n)
    case Shut => []
  }

  /** The bytes the calls write in SIMPLE mode. */
  function Written(calls: seq<Call>): bytes
    requires AllLegal(calls)
  {
    if |calls| == 0 then []
    else WrittenBy(calls[0]) + Written(calls[1..])
  }

  lemma {:induction false} WrittenSplit(a: seq<Call>, b: seq<Call>)
    requires AllLegal(a) && AllLegal(b)
    ensures AllLegal(a + b) && Written(a + b) == Written(a) + Written(b)
  {
    hide WrittenBy;
    if |a| == 0 {
      assert a + b == b;
    } else {
      assert (a + b)[0] == a[0] && (a + b)[1..] == a[1..] + b;
      WrittenSplit(a[1..], b);
      Assoc(WrittenBy(a[0]), Written(a[1..]), Written(b));
    }
  }

  lemma WrittenFirst(calls: seq<Call>)
    requires AllLegal(calls) && |calls| > 0
    ensures Written(calls) == WrittenBy(calls[0]) + Written(calls[1..])
  {
  }

  lemma WrittenNone(calls: seq<Call>)
    requires |calls| == 0
    ensures Written(calls) == []
  {
  }

  lemma SimpleStep(o: Obj, c: Call, junk: seq<Frame>)
    requires o.mode == Simple && Legal(c) && Sane(o, junk) && Step(o, c, junk).Some?
    ensures Step(o, c, junk).value.mode == Simple && Step(o, c, junk).value.data == o.data + WrittenBy(c)
  {
    hide Encode, EncHead;
  }

  lemma {:induction false} SimpleRun(o: Obj, calls: seq<Call>, junk: seq<Frame>)
    requires o.mode == Simple && AllLegal(calls) && Sane(o, junk) && Run(o, calls, junk).Some?
    ensures Run(o, calls, junk).value.data == o.data + Written(calls)
    decreases |calls|
  {
    hide Written, Step;
    if |calls| > 0 {
      var o' := Step(o, calls[0], junk).value;
      SimpleStep(o, calls[0], junk);
      SimpleRun(o', calls[1..], junk);
      WrittenFirst(calls);
    } else {
      WrittenNone(calls);
    }
  }

  lemma WrittenOne(c: Call)
    requires Legal(c)
    ensures Written([c]) == WrittenBy(c)
  {
    hide WrittenBy;
    assert [c][1..] == [];
  }

  lemma {:induction false} WrittenTree(v: Value)
    requires Wf(v) && Narrow(v)
    ensures Written(Calls(v)) == Encode(Simple, v)
    decreases v, 1
  {
    hide EncHead, EncodeAll, CallsAll;
    if IsContainer(KindOf(v)) {
      hide Calls, Encode, Written;
      TreeParts(Simple, v);
      var kind, vs := KindOf(v), Kids(v);
      var hd := Open(kind, FinalCount(kind, Wrap32(|vs|)));
      WrittenForest(vs);
      WrittenSplit([hd] + CallsAll(vs), [Shut]);
      WrittenSplit([hd], CallsAll(vs));
      WrittenOne(hd);
      WrittenOne(Shut);
    } else {
      assert Calls(v)[1..] == [];
    }
  }

  lemma {:induction false} WrittenForest(vs: seq<Value>)
    requires Good(vs)
    ensures Written(CallsAll(vs)) == EncodeAll(Simple, vs)
    decreases vs, 0
  {
    hide EncHead;
    if |vs| > 0 {
      WrittenTree(vs[0]);
      WrittenForest(vs[1..]);
      WrittenSplit(Calls(vs[0]), CallsAll(vs[1..]));
    }
  }

  /** In SIMPLE mode a lost entry can only get a call refused, never damage the buffer: a build of any
      depth that is accepted is right. */
  lemma {:induction false} SimpleRefusesOrBuilds(vs: seq<Value>, junk: seq<Frame>)
    requires Good(vs) && |junk| >= MAX_STACK && Run(Fresh(Simple), CallsAll(vs), junk).Some?
    ensures Run(Fresh(Simple), CallsAll(vs), junk).value.data == EncodeAll(Simple, vs)
  {
    SimpleRun(Fresh(Simple), CallsAll(vs), junk);
    WrittenForest(vs);
    assert [] + Written(CallsAll(vs)) == Written(CallsAll(vs));
  }

  // ---------------------------------------------------------------- how deep SIMPLE mode goes

  /** Fresh memory whose entries look like arrays: closing a lost container is then never refused. */
  predicate Arrays(junk: seq<Frame>)
  {
    forall i :: 0 <= i < |junk| ==> junk[i].kind == KArray
  }

  /** What calls that leave `k` more children at the top make of the stack: an entry has been lost, or it counts
      what it must, up to parity. */
  predicate Kept(s: seq<Frame>, t: seq<Frame>, k: nat)
  {
    && |t| == |s|
    && forall i :: 0 <= i < |s| ==>
         t[i].kind == KArray
         || (t[i].kind == s[i].kind && t[i].size % 2 == (s[i].size + if i == |s| - 1 then k else 0) % 2)
  }

  lemma KeptMore(s: seq<Frame>, t: seq<Frame>, u: seq<Frame>, k: nat, l: nat)
    requires Kept(s, t, k) && Kept(t, u, l)
    ensures Kept(s, u, k + l)
  {
  }

  lemma KeptBump(s: seq<Frame>)
    ensures Kept(s, Bump(s), 1) && Kept(s, s, 0)
  {
    if |s| > 0 { WrapParity(Last(s).size + 1); }
  }

  /** An open container in SIMPLE mode, over entries some of which may be lost. */
  lemma SimpleOpen(o: Obj, kind: Kind, n: u32, junk: seq<Frame>)
    requires o.mode == Simple && IsContainer(kind) && Sane(o, junk) && Arrays(junk) && |o.stack| < MAX_STACK
    ensures Step(o, Open(kind, n), junk).Some?
    ensures var o' := Step(o, Open(kind, n), junk).value;
            && o'.mode == Simple && Sane(o', junk) && |o'.stack| == |o.stack| + 1
            && Kept(o.stack, Init(o'.stack), 1) && Last(o'.stack).kind == kind && Last(o'.stack).size == 0
  {
    hide EncHead, Bump, Write;
    KeptBump(o.stack);
    var o' := Step(o, Open(kind, n), junk).value;
    assert Init(o'.stack) == if |o.stack| == o.stackAlloc then junk[..|o.stack|] else Bump(o.stack);
  }

  lemma SimpleShut(o: Obj, junk: seq<Frame>)
    requires o.mode == Simple && Sane(o, junk) && |o.stack| > 0
    requires Last(o.stack).kind == KMap ==> Last(o.stack).size % 2 == 0
    ensures Step(o, Shut, junk).Some?
    ensures Step(o, Shut, junk).value == o.(stack := Init(o.stack))
  {
  }

  lemma SimpleScalar(o: Obj, v: Value, junk: seq<Frame>)
    requires o.mode == Simple && Sane(o, junk) && IsScalar(v)
    ensures Step(o, Scalar(v), junk).Some?
    ensures var o' := Step(o, Scalar(v), junk).value;
            o'.mode == Simple && Sane(o', junk) && Kept(o.stack, o'.stack, 1)
  {
    hide Encode, Bump;
    KeptBump(o.stack);
  }

  lemma {:induction false} DeepTree(o: Obj, v: Value, rest: seq<Call>, junk: seq<Frame>) returns (o': Obj)
    requires o.mode == Simple && Sane(o, junk) && Arrays(junk) && |o.stack| + Depth(v) <= MAX_STACK
    requires Wf(v) && Narrow(v) && AllLegal(rest)
    ensures AllLegal(Calls(v) + rest) && o'.mode == Simple && Sane(o', junk) && Kept(o.stack, o'.stack, 1)
    ensures Run(o, Calls(v) + rest, junk) == Run(o', rest, junk)
    decreases v, 1
  {
    hide Run, Step, Encode, CallsAll, Kept, Wf, Narrow;
    if IsContainer(KindOf(v)) {
      hide Calls, Depth;
      TreeParts(Simple, v);
      o' := DeepContainer(o, KindOf(v), FinalCount(KindOf(v), Wrap32(|Kids(v)|)), Kids(v), rest, junk);
    } else {
      assert Calls(v) == [Scalar(v)] && IsScalar(v);
      RunSplit(o, Scalar(v), rest, junk);
      SimpleScalar(o, v, junk);
      o' := Step(o, Scalar(v), junk).value;
    }
  }

  lemma {:induction false} DeepContainer(o: Obj, kind: Kind, n: u32, vs: seq<Value>, rest: seq<Call>, junk: seq<Frame>)
    returns (o': Obj)
    requires o.mode == Simple && Sane(o, junk) && Arrays(junk) && |o.stack| + 1 + DepthAll(vs) <= MAX_STACK
    requires IsContainer(kind) && Good(vs) && (kind == KMap ==> |vs| % 2 == 0) && AllLegal(rest)
    ensures AllLegal([Open(kind, n)] + CallsAll(vs) + [Shut] + rest)
    ensures o'.mode == Simple && Sane(o', junk) && Kept(o.stack, o'.stack, 1)
    ensures Run(o, [Open(kind, n)] + CallsAll(vs) + [Shut] + rest, junk) == Run(o', rest, junk)
    decreases vs, 1
  {
    hide Run, Step, DepthAll, Arrays, CallsAll, Kept;
    RunSplit(o, Open(kind, n), CallsAll(vs) + ([Shut] + rest), junk);
    SimpleOpen(o, kind, n, junk);
    var o1 := Step(o, Open(kind, n), junk).value;
    var o2 := DeepForest(o1, vs, [Shut] + rest, junk);
    KeptTop(o.stack, o1.stack, o2.stack, |vs|);
    SimpleShut(o2, junk);
    RunSplit(o2, Shut, rest, junk);
    o' := Step(o2, Shut, junk).value;
    assert [Open(kind, n)] + CallsAll(vs) + [Shut] + rest == [Open(kind, n)] + (CallsAll(vs) + ([Shut] + rest));
  }

  /** The entry of a container and those below it, when it is about to be closed. */
  lemma KeptTop(s: seq<Frame>, t: seq<Frame>, u: seq<Frame>, k: nat)
    requires |t| == |s| + 1 && Kept(s, Init(t), 1) && Last(t).size == 0 && Kept(t, u, k)
    ensures |u| == |t| && Kept(s, Init(u), 1)
    ensures Last(u).kind == KArray || (Last(u).kind == Last(t).kind && Last(u).size % 2 == k % 2)
  {
    assert Kept(Init(t), Init(u), 0);
    KeptMore(s, Init(t), Init(u), 1, 0);
  }

  lemma {:induction false} DeepForest(o: Obj, vs: seq<Value>, rest: seq<Call>, junk: seq<Frame>) returns (o': Obj)
    requires o.mode == Simple && Sane(o, junk) && Arrays(junk) && |o.stack| + DepthAll(vs) <= MAX_STACK
    requires Good(vs) && AllLegal(rest)
    ensures AllLegal(CallsAll(vs) + rest) && o'.mode == Simple && Sane(o', junk) && Kept(o.stack, o'.stack, |vs|)
    ensures Run(o, CallsAll(vs) + rest, junk) == Run(o', rest, junk)
    decreases vs, 0
  {
    hide Run, Calls, Depth, Kept, Arrays, Sane;
    if |vs| == 0 {
      o' := o;
      KeptBump(o.stack);
      assert [] + rest == rest;
    } else {
      var o1 := DeepTree(o, vs[0], CallsAll(vs[1..]) + rest, junk);
      assert Calls(vs[0]) + (CallsAll(vs[1..]) + rest) == CallsAll(vs) + rest;
      KeptLength(o.stack, o1.stack, 1);
      o' := DeepForest(o1, vs[1..], rest, junk);
      KeptMore(o.stack, o1.stack, o'.stack, 1, |vs| - 1);
    }
  }

  lemma KeptLength(s: seq<Frame>, t: seq<Frame>, k: nat)
    requires Kept(s, t, k)
    ensures |t| == |s|
  {
  }

  /** No run ever holds more than 128 containers open. */
  lemma {:induction false} NeverDeeper(o: Obj, calls: seq<Call>, junk: seq<Frame>)
    requires AllLegal(calls) && Sane(o, junk) && Run(o, calls, junk).Some?
    ensures Shallow(|o.stack|, calls, MAX_STACK)
    decreases |calls|
  {
    hide Step;
    if |calls| > 0 {
      var o' := Step(o, calls[0], junk).value;
      StepHeight(o, calls[0], junk);
      NeverDeeper(o', calls[1..], junk);
    }
  }

  /** In SIMPLE mode, when lost entries happen to look like arrays, a build is accepted and right exactly if no
      more than 128 containers nest. */
  lemma {:induction false} SimpleDepth(vs: seq<Value>, junk: seq<Frame>)
    requires Good(vs) && |junk| >= MAX_STACK && Arrays(junk)
    ensures Builds(Simple, vs, junk) <==> DepthAll(vs) <= MAX_STACK
  {
    hide Run, Kept;
    var calls := CallsAll(vs);
    assert calls + [] == calls;
    if DepthAll(vs) <= MAX_STACK {
      var o := DeepForest(Fresh(Simple), vs, [], junk);
      KeptLength([], o.stack, |vs|);
      RunDone(o, junk);
      SimpleRefusesOrBuilds(vs, junk);
    } else if Run(Fresh(Simple), calls, junk).Some? {
      NeverDeeper(Fresh(Simple), calls, junk);
      ForestShallow(vs, 0, [], MAX_STACK);
    }
  }

  lemma RunDone(o: Obj, junk: seq<Frame>)
    requires Sane(o, junk)
    ensures Run(o, [], junk).Some? && Run(o, [], junk).value == o
  {
  }
}
