/** What building costs: memory, bytes copied by reallocation, bytes moved by widening headers. */
module BuilderCost {
  import opened Seqs
  import opened MsgPack
  import opened Builder
  import opened BuilderProofs
  import opened BuilderRuns

  /** The buffer fits, is less than twice what it holds, and all reallocations together have copied
      at most its size. */
  predicate Frugal(o: Obj)
  {
    && |o.data| <= o.alloc && (o.alloc > 0 ==> o.alloc < 2 * |o.data|)
    && o.copied <= o.alloc
  }

  lemma {:induction false} StepFrugal(o: Obj, c: Call, junk: seq<Frame>)
    requires Frugal(o) && Legal(c) && Sane(o, junk) && Step(o, c, junk).Some?
    ensures Frugal(Step(o, c, junk).value)
  {
    hide EncHead, EncHead32, Encode, Write;
    match c
    case Scalar(v) => WriteFrugal(o.(stack := Bump(o.stack)), Encode(o.mode, v));
    case Open(kind, n) =>
      var o' := Step(o, c, junk).value;
      WriteFrugal(o.(stack := o'.stack, stackAlloc := o'.stackAlloc), Hole(o.mode, kind, n));
      assert Write(o.(stack := o'.stack, stackAlloc := o'.stackAlloc), Hole(o.mode, kind, n)) == o' by { OpenIsWrite(o, c, junk); }
    case Shut => ShutFrugal(o);
  }

  lemma OpenIsWrite(o: Obj, c: Call, junk: seq<Frame>)
    requires c.Open? && Legal(c) && Sane(o, junk) && Step(o, c, junk).Some?
    ensures var o' := Step(o, c, junk).value;
            Write(o.(stack := o'.stack, stackAlloc := o'.stackAlloc), Hole(o.mode, c.kind, c.declared)) == o'
  {
    hide EncHead, EncHead32;
  }

  lemma WriteFrugal(o: Obj, s: bytes)
    requires Frugal(o) && |s| > 0
    ensures Frugal(Write(o, s))
  {
  }

  lemma ShutFrugal(o: Obj)
    requires Frugal(o) && CanClose(o) && Close(o).Some?
    ensures Frugal(Close(o).value)
  {
    hide EncHead, EncHead32;
  }

  /** The counters are exact: a call copies the old block when the block changes, and a close that makes the
      buffer longer moves every byte behind the placeholder. */
  lemma {:induction false} CountersExact(o: Obj, c: Call, junk: seq<Frame>)
    requires Legal(c) && Sane(o, junk) && Step(o, c, junk).Some?
    ensures var o' := Step(o, c, junk).value;
            && o'.copied == o.copied + (if o'.alloc != o.alloc then o.alloc else 0)
            && o'.moved == o.moved + (if c.Shut? && |o'.data| > |o.data| then |o.data| - Last(o.stack).offset - 1 else 0)
  {
    hide EncHead, EncHead32, Encode;
  }

  /** At every point of every run, however deep. */
  lemma {:induction false} RunFrugal(o: Obj, calls: seq<Call>, junk: seq<Frame>)
    requires Frugal(o) && AllLegal(calls) && Sane(o, junk) && Run(o, calls, junk).Some?
    ensures Frugal(Run(o, calls, junk).value)
    decreases |calls|
  {
    hide Step, Frugal;
    if |calls| > 0 {
      StepFrugal(o, calls[0], junk);
      RunFrugal(Step(o, calls[0], junk).value, calls[1..], junk);
    }
  }

  function Times(k: nat, b: nat): nat { k * b }

  lemma TimesSum(k: nat, b: nat, c: nat)
    ensures Times(k, b + c) == Times(k, b) + Times(k, c)
  {
  }

  lemma TimesSucc(k: nat, b: nat)
    ensures Times(k + 1, b) == Times(k, b) + b
  {
  }

  lemma {:induction false} TimesMono(k: nat, m: nat, b: nat)
    requires k <= m
    ensures Times(k, b) <= Times(m, b)
  {
    assert Times(m, b) == Times(k, b) + (m - k) * b;
  }

  /** Bytes that lie k levels deep can still be moved, or have been moved, only by the containers below
      them: a budget of depth - k moves for each. */
  function Budget(ls: seq<Level>, depth: nat): nat
    requires 1 <= |ls| <= depth + 1
  {
    (if |ls| == 1 then 0 else Budget(Init(ls), depth)) + Times(depth + 1 - |ls|, |Last(ls).body|)
  }

  lemma {:induction false} BudgetGrow(ls: seq<Level>, v: Value, s: bytes, depth: nat)
    requires Levels(ls) && |ls| <= depth + 1
    ensures Budget(Grow(ls, v, s), depth) == Budget(ls, depth) + Times(depth + 1 - |ls|, |s|)
  {
    hide Times;
    assert Init(Grow(ls, v, s)) == Init(ls);
    TimesSum(depth + 1 - |ls|, |Last(ls).body|, |s|);
  }

  lemma BudgetOpen(ls: seq<Level>, kind: Kind, n: u32, depth: nat)
    requires 1 <= |ls| <= depth
    ensures Budget(ls + [Level(kind, n, [], [])], depth) == Budget(ls, depth)
  {
    assert Init(ls + [Level(kind, n, [], [])]) == ls;
    assert Times(depth - |ls|, 0) == 0;
  }

  lemma {:induction false} BudgetShut(mode: Mode, ls: seq<Level>, depth: nat)
    requires Levels(ls) && |ls| <= depth + 1 && StepLevels(mode, ls, Shut).Some?
    ensures Budget(StepLevels(mode, ls, Shut).value, depth) >= Budget(ls, depth) + |Last(ls).body|
  {
    hide EncHead, EncHead32, Times;
    var l := Last(ls);
    var hd := ClosedHead(mode, l);
    var k := depth + 1 - |ls|;
    BudgetGrow(Init(ls), MkValue(l.kind, l.kids), hd + l.body, depth);
    TimesSum(k + 1, |hd|, |l.body|);
    TimesSucc(k, |l.body|);
  }

  lemma {:induction false} StepMoved(o: Obj, ls: seq<Level>, c: Call, junk: seq<Frame>, depth: nat)
    requires Inv(o, ls) && Legal(c) && Sane(o, junk) && o.stackAlloc == INITIAL_STACK && Step(o, c, junk).Some?
    requires depth <= INITIAL_STACK && |o.stack| <= depth && (c.Open? ==> |o.stack| < depth)
    requires o.moved <= Budget(ls, depth)
    ensures StepLevels(o.mode, ls, c).Some?
    ensures |StepLevels(o.mode, ls, c).value| <= depth + 1
    ensures Step(o, c, junk).value.moved <= Budget(StepLevels(o.mode, ls, c).value, depth)
  {
    hide EncHead, EncHead32, Encode, Inv, Budget;
    StepFollowsLevels(o, ls, c, junk);
    match c
    case Scalar(v) =>
      BudgetGrow(ls, v, Encode(o.mode, v), depth);
    case Open(kind, n) => BudgetOpen(ls, kind, n, depth);
    case Shut =>
      BudgetShut(o.mode, ls, depth);
      TailIsBody(o, ls);
  }

  lemma {:induction false} TailIsBody(o: Obj, ls: seq<Level>)
    requires Inv(o, ls) && |o.stack| > 0
    ensures CanClose(o)
    ensures Close(o).Some? ==> Close(o).value.moved <= o.moved + |Last(ls).body|
  {
    hide EncHead, EncHead32;
  }

  lemma {:induction false} RunMoved(o: Obj, ls: seq<Level>, calls: seq<Call>, junk: seq<Frame>, depth: nat)
    requires Inv(o, ls) && AllLegal(calls) && Sane(o, junk) && o.stackAlloc == INITIAL_STACK
    requires depth <= INITIAL_STACK && |o.stack| <= depth && Shallow(|o.stack|, calls, depth)
    requires o.moved <= Budget(ls, depth) && Run(o, calls, junk).Some?
    ensures Run(o, calls, junk).value.moved <= depth * |Run(o, calls, junk).value.data|
    decreases |calls|
  {
    hide Step, StepLevels, Inv;
    if |calls| == 0 {
      BudgetBound(o.mode, ls, depth);
      assert o.data == Render(o.mode, ls) by { InvRender(o, ls); }
    } else {
      StepFollowsLevels(o, ls, calls[0], junk);
      StepMoved(o, ls, calls[0], junk, depth);
      RunMoved(Step(o, calls[0], junk).value, StepLevels(o.mode, ls, calls[0]).value, calls[1..], junk, depth);
    }
  }

  lemma InvRender(o: Obj, ls: seq<Level>)
    requires Inv(o, ls)
    ensures o.data == Render(o.mode, ls)
  {
  }

  lemma {:induction false} BudgetBound(mode: Mode, ls: seq<Level>, depth: nat)
    requires Levels(ls) && |ls| <= depth + 1
    ensures Budget(ls, depth) <= Times(depth, |Render(mode, ls)|)
  {
    hide EncHead, EncHead32, Times;
    var b := |Last(ls).body|;
    TimesMono(depth + 1 - |ls|, depth, b);
    if |ls| > 1 {
      BudgetBound(mode, Init(ls), depth);
      var a, h := |Render(mode, Init(ls))|, |Hole(mode, Last(ls).kind, Last(ls).declared)|;
      TimesSum(depth, a + h, b);
      TimesSum(depth, a, h);
    }
  }

  /** All header shifts of a run together move at most nesting depth times final size bytes. */
  lemma {:induction false} ShiftsAreCheap(mode: Mode, calls: seq<Call>, junk: seq<Frame>, depth: nat)
    requires AllLegal(calls) && |junk| >= MAX_STACK && depth <= INITIAL_STACK && Shallow(0, calls, depth)
    requires Run(Fresh(mode), calls, junk).Some?
    ensures var o := Run(Fresh(mode), calls, junk).value;
            && |o.data| <= o.alloc && (o.alloc > 0 ==> o.alloc < 2 * |o.data|) && o.copied <= o.alloc
            && o.moved <= depth * |o.data|
  {
    FreshInv(mode);
    RunFrugal(Fresh(mode), calls, junk);
    RunMoved(Fresh(mode), [ROOT], calls, junk, depth);
  }
}
