/** The theorems about whole runs of the object builder, in all three modes. */
module BuilderRuns {
  import opened Seqs
  import opened MsgPack
  import opened Wrappers
  import opened Builder
  import opened BuilderProofs

  /** What a finished build must be: every container closed, the bytes those of the trees. */
  predicate Builds(mode: Mode, vs: seq<Value>, junk: seq<Frame>)
    requires Good(vs) && |junk| >= MAX_STACK
  {
    var r := Run(Fresh(mode), CallsAll(vs), junk);
    r.Some? && |r.value.stack| == 0 && r.value.data == EncodeAll(mode, vs)
  }

  lemma FreshInv(mode: Mode)
    ensures Inv(Fresh(mode), [ROOT])
  {
  }

  /** Building a forest nested at most eight deep leaves exactly its encoding: minimal headers in PACKED
      and (with true sizes declared) SIMPLE mode, five-byte headers in SPARSE mode. */
  lemma {:induction false} BuildForest(mode: Mode, vs: seq<Value>, junk: seq<Frame>)
    requires Good(vs) && |junk| >= MAX_STACK && DepthAll(vs) <= INITIAL_STACK
    ensures Builds(mode, vs, junk)
  {
    FreshInv(mode);
    var o := RunForest(Fresh(mode), [ROOT], vs, [], junk);
    assert CallsAll(vs) + [] == CallsAll(vs);
    assert [] + EncodeAll(mode, vs) == EncodeAll(mode, vs);
  }

  lemma OneTree(v: Value)
    requires Wf(v) && Narrow(v)
    ensures CallsAll([v]) == Calls(v) && DepthAll([v]) == Depth(v) && Good([v])
  {
    hide Calls, Depth;
    assert [v][1..] == [] && Calls(v) + [] == Calls(v);
  }

  /** One tree, three modes, three buffers: all pass `tnt_object_verify` and hold the same tree. */
  lemma {:induction false} ModesAgree(v: Value, junk: seq<Frame>, mode: Mode)
    requires Wf(v) && Narrow(v) && |junk| >= MAX_STACK && Depth(v) <= INITIAL_STACK
    ensures var r := Run(Fresh(mode), Calls(v), junk);
            && r.Some? && Parse(r.value.data) == Parsed(v, |r.value.data|)
            && Verify(r.value.data, Some(KindOf(v))) == 0 && Verify(r.value.data, None) == 0
  {
    hide Calls, Encode, EncodeAll, Parse, Wf, Narrow, Run, Depth;
    OneTree(v);
    BuildForest(mode, [v], junk);
    EncodeOne(mode, v);
    var s := Encode(mode, v);
    assert s + [] == s;
    ParseEncode(mode, v, []);
    ParseType(s);
  }

  // ---------------------------------------------------------------- every run describes a forest

  /** A call without the declared size, which only SIMPLE mode uses. */
  function Erase(c: Call): Call
  {
    if c.Open? then Open(c.kind, 0) else c
  }

  function EraseAll(calls: seq<Call>): (r: seq<Call>)
    ensures |r| == |calls|
  {
    seq(|calls|, i requires 0 <= i < |calls| => Erase(calls[i]))
  }

  lemma EraseSplit(a: seq<Call>, b: seq<Call>)
    ensures EraseAll(a + b) == EraseAll(a) + EraseAll(b)
  {
  }

  /** The calls that a stack of levels has been built by. */
  function Trace(ls: seq<Level>): seq<Call>
    requires |ls| > 0
  {
    if |ls| == 1 then EraseAll(CallsAll(ls[0].kids))
    else Trace(Init(ls)) + [Open(Last(ls).kind, 0)] + EraseAll(CallsAll(Last(ls).kids))
  }

  lemma {:induction false} CallsAllAppend(vs: seq<Value>, v: Value)
    ensures CallsAll(vs + [v]) == CallsAll(vs) + Calls(v)
  {
    hide Calls;
    if |vs| == 0 {
      assert vs + [v] == [v] && [v][1..] == [];
      assert Calls(v) + [] == Calls(v) == [] + Calls(v);
    } else {
      CallsAllAppend(vs[1..], v);
      assert (vs + [v])[0] == vs[0] && (vs + [v])[1..] == vs[1..] + [v];
      Assoc(Calls(vs[0]), CallsAll(vs[1..]), Calls(v));
    }
  }

  lemma {:induction false} TraceGrow(ls: seq<Level>, v: Value, s: bytes)
    requires Levels(ls)
    ensures Trace(Grow(ls, v, s)) == Trace(ls) + EraseAll(Calls(v))
  {
    hide Calls, CallsAll, EraseAll;
    assert Init(Grow(ls, v, s)) == Init(ls);
    CallsAllAppend(Last(ls).kids, v);
    EraseSplit(CallsAll(Last(ls).kids), Calls(v));
  }

  lemma {:induction false} TraceStep(mode: Mode, ls: seq<Level>, c: Call)
    requires Levels(ls) && Legal(c) && StepLevels(mode, ls, c).Some?
    ensures Trace(StepLevels(mode, ls, c).value) == Trace(ls) + [Erase(c)]
  {
    match c
    case Scalar(v) =>
      TraceGrow(ls, v, Encode(mode, v));
      assert EraseAll([c]) == [c];
    case Open(kind, n) =>
      assert Init(ls + [Level(kind, n, [], [])]) == ls;
    case Shut => TraceShut(mode, ls);
  }

  lemma {:induction false} TraceShut(mode: Mode, ls: seq<Level>)
    requires Levels(ls) && StepLevels(mode, ls, Shut).Some?
    ensures Trace(StepLevels(mode, ls, Shut).value) == Trace(ls) + [Shut]
  {
    hide EncHead, EncHead32, CallsAll, Trace;
    var l := Last(ls);
    var v := MkValue(l.kind, l.kids);
    var hd := Open(l.kind, if v.Map? then Wrap32(|l.kids| / 2) else Wrap32(|l.kids|));
    TraceGrow(Init(ls), v, ClosedHead(mode, l) + l.body);
    assert Calls(v) == [hd] + CallsAll(l.kids) + [Shut];
    EraseSplit([hd] + CallsAll(l.kids), [Shut]);
    EraseSplit([hd], CallsAll(l.kids));
    assert EraseAll([hd]) == [Open(l.kind, 0)] && EraseAll([Shut]) == [Shut];
    TraceTop(ls);
    assert Trace(Init(ls)) + ([Open(l.kind, 0)] + EraseAll(CallsAll(l.kids)) + [Shut])
        == Trace(Init(ls)) + [Open(l.kind, 0)] + EraseAll(CallsAll(l.kids)) + [Shut];
  }

  lemma TraceTop(ls: seq<Level>)
    requires |ls| > 1
    ensures Trace(ls) == Trace(Init(ls)) + [Open(Last(ls).kind, 0)] + EraseAll(CallsAll(Last(ls).kids))
  {
  }

  lemma {:induction false} TraceRun(mode: Mode, ls: seq<Level>, calls: seq<Call>)
    requires Levels(ls) && AllLegal(calls) && RunLevels(mode, ls, calls).Some?
    ensures Trace(RunLevels(mode, ls, calls).value) == Trace(ls) + EraseAll(calls)
    decreases |calls|
  {
    hide StepLevels, Trace;
    if |calls| > 0 {
      TraceStep(mode, ls, calls[0]);
      TraceRun(mode, StepLevels(mode, ls, calls[0]).value, calls[1..]);
      assert calls == [calls[0]] + calls[1..];
      EraseSplit([calls[0]], calls[1..]);
      assert EraseAll([calls[0]]) == [Erase(calls[0])];
    }
  }

  /** Every container the run closes has fewer than 2^32 children and, in SIMPLE mode, as many as were
      declared when it was opened. */
  predicate Honest(mode: Mode, ls: seq<Level>, calls: seq<Call>)
    requires Levels(ls) && AllLegal(calls)
    decreases |calls|
  {
    |calls| == 0 ||
    (&& (calls[0].Shut? && |ls| > 1 ==>
           && |Last(ls).kids| < TWO32
           && (mode == Simple ==> Last(ls).declared == FinalCount(Last(ls).kind, Wrap32(|Last(ls).kids|))))
     && (StepLevels(mode, ls, calls[0]).Some? ==> Honest(mode, StepLevels(mode, ls, calls[0]).value, calls[1..])))
  }

  predicate Encoded(mode: Mode, l: Level)
  {
    WfAll(l.kids) && l.body == EncodeAll(mode, l.kids)
  }

  predicate AllEncoded(mode: Mode, ls: seq<Level>)
  {
    forall i :: 0 <= i < |ls| ==> Encoded(mode, ls[i])
  }

  lemma {:induction false} GrowEncoded(mode: Mode, ls: seq<Level>, v: Value)
    requires Levels(ls) && AllEncoded(mode, ls) && Wf(v)
    ensures AllEncoded(mode, Grow(ls, v, Encode(mode, v)))
  {
    EncodeAllAppend(mode, Last(ls).kids, [v]);
    EncodeOne(mode, v);
  }

  lemma {:induction false} StepEncoded(mode: Mode, ls: seq<Level>, c: Call)
    requires Levels(ls) && Legal(c) && AllEncoded(mode, ls) && Honest(mode, ls, [c]) && StepLevels(mode, ls, c).Some?
    ensures AllEncoded(mode, StepLevels(mode, ls, c).value)
  {
    match c
    case Scalar(v) => GrowEncoded(mode, ls, v);
    case Open(_, _) =>
    case Shut => ShutEncoded(mode, ls);
  }

  /** The bytes of a level under its final header are the encoding of its container. */
  lemma ClosedEncodes(mode: Mode, l: Level)
    requires IsContainer(l.kind) && Encoded(mode, l) && |l.kids| < TWO32 && (l.kind == KMap ==> |l.kids| % 2 == 0)
    requires mode == Simple ==> l.declared == FinalCount(l.kind, Wrap32(|l.kids|))
    ensures Wf(MkValue(l.kind, l.kids)) && Encode(mode, MkValue(l.kind, l.kids)) == ClosedHead(mode, l) + l.body
  {
    hide EncHead, EncHead32, EncodeAll;
  }

  lemma {:induction false} ShutEncoded(mode: Mode, ls: seq<Level>)
    requires Levels(ls) && AllEncoded(mode, ls) && Honest(mode, ls, [Shut]) && StepLevels(mode, ls, Shut).Some?
    ensures AllEncoded(mode, StepLevels(mode, ls, Shut).value)
  {
    hide EncHead, EncHead32, Encode, EncodeAll, ClosedHead, Grow, Wf;
    var l := Last(ls);
    assert Encoded(mode, l);
    ClosedEncodes(mode, l);
    GrowEncoded(mode, Init(ls), MkValue(l.kind, l.kids));
  }

  lemma {:induction false} RunEncoded(mode: Mode, ls: seq<Level>, calls: seq<Call>)
    requires Levels(ls) && AllLegal(calls) && AllEncoded(mode, ls) && Honest(mode, ls, calls)
    requires RunLevels(mode, ls, calls).Some?
    ensures AllEncoded(mode, RunLevels(mode, ls, calls).value)
    decreases |calls|
  {
    hide StepLevels, AllEncoded;
    if |calls| > 0 {
      assert Honest(mode, ls, [calls[0]]);
      StepEncoded(mode, ls, calls[0]);
      RunEncoded(mode, StepLevels(mode, ls, calls[0]).value, calls[1..]);
    }
  }

  /** The converse of `BuildForest`. Every accepted run that closes all it opens, never holding more than
      eight containers, spells out one forest call by call, and the buffer is that forest's encoding. */
  lemma {:induction false} RunBuildsForest(mode: Mode, calls: seq<Call>, junk: seq<Frame>) returns (vs: seq<Value>)
    requires AllLegal(calls) && |junk| >= MAX_STACK && Shallow(0, calls, INITIAL_STACK) && Honest(mode, [ROOT], calls)
    requires Run(Fresh(mode), calls, junk).Some? && |Run(Fresh(mode), calls, junk).value.stack| == 0
    ensures WfAll(vs) && EraseAll(calls) == EraseAll(CallsAll(vs))
    ensures Run(Fresh(mode), calls, junk).value.data == EncodeAll(mode, vs)
    ensures ParseMany(Run(Fresh(mode), calls, junk).value.data, |vs|)
            == ParsedMany(vs, |Run(Fresh(mode), calls, junk).value.data|)
  {
    FreshInv(mode);
    RunFollowsLevels(Fresh(mode), [ROOT], calls, junk);
    TraceRun(mode, [ROOT], calls);
    RunEncoded(mode, [ROOT], calls);
    var ls := RunLevels(mode, [ROOT], calls).value;
    assert Encoded(mode, ls[0]);
    vs := ls[0].kids;
    assert Trace([ROOT]) == [];
    assert [] + EraseAll(calls) == EraseAll(calls);
    ParseEncodeAll(mode, vs, []);
    assert EncodeAll(mode, vs) + [] == EncodeAll(mode, vs);
  }
}
