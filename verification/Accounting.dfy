/** The outstanding-request counter under concurrency: any number of writers, whose send and increment
    are separate atomic steps, and one reader, whose check, read and decrement are separate steps. */
module Accounting {
  import opened Seqs
  import opened MsgPack

  datatype Reader = Idle | Reading | Got(final: bool)

  /** The counter, the requests on the wire that are not yet added to it, and where the reader is. */
  datatype State = State(wrcnt: u32, uncounted: nat, reader: Reader)

  const START: State := State(0, 0, Idle)

  /** The atomic steps of `tnt_net_write`/`tnt_net_writev` (Send, Count) and of `tnt_net_reply` (Check,
      Arrive, Settle). A failed read clears the reply and so arrives as a final one. */
  datatype Event = Send | Count | Check | Arrive(final: bool) | Settle

  predicate Enabled(s: State, e: Event)
  {
    match e
    case Send => true
    case Count => s.uncounted > 0
    case Check => s.reader.Idle?
    case Arrive(_) => s.reader.Reading?
    case Settle => s.reader.Got?
  }

  function Next(s: State, e: Event): State
    requires Enabled(s, e)
  {
    match e
    case Send => s.(uncounted := s.uncounted + 1)
    case Count => s.(uncounted := s.uncounted - 1, wrcnt := (s.wrcnt + 1) % TWO32)
    case Check => if s.wrcnt == 0 then s else s.(reader := Reading)
    case Arrive(final) => s.(reader := Got(final))
    case Settle =>
      if s.reader.final then s.(wrcnt := (s.wrcnt + TWO32 - 1) % TWO32, reader := Idle) else s.(reader := Idle)
  }

  // ---------------------------------------------------------------- what an observer counts

  /** How often an event has happened. */
  function Times(es: seq<Event>, e: Event): nat
  {
    multiset(es)[e]
  }

  /** Whether the latest reply that arrived was a final one. */
  predicate LatestFinal(es: seq<Event>)
  {
    |es| > 0 && if Last(es).Arrive? then Last(es).final else LatestFinal(Init(es))
  }

  /** How many final replies have been settled: by a Settle whose latest arrival was final. */
  function Settled(es: seq<Event>): nat
  {
    if |es| == 0 then 0
    else Settled(Init(es)) + if Last(es) == Settle && LatestFinal(Init(es)) then 1 else 0
  }

  /** A possible interleaving, in which never 2^32 counted requests are outstanding. */
  predicate Runs(es: seq<Event>)
    decreases |es|, 0
  {
    |es| == 0
    || (Runs(Init(es)) && Enabled(After(Init(es)), Last(es)) && Times(es, Count) - Settled(es) < TWO32)
  }

  /** The state after an interleaving from the start of a connection. */
  function After(es: seq<Event>): State
    requires Runs(es)
    decreases |es|, 1
  {
    if |es| == 0 then START else Next(After(Init(es)), Last(es))
  }

  // ---------------------------------------------------------------- the law

  /** What an observer has counted so far. */
  datatype Tally = Tally(sent: nat, counted: nat, finals: nat, settled: nat, latest: bool)

  function TallyOf(es: seq<Event>): Tally
  {
    Tally(Times(es, Send), Times(es, Count), Times(es, Arrive(true)), Settled(es), LatestFinal(es))
  }

  /** The state agrees with the observer. */
  predicate Exact(t: State, o: Tally)
  {
    && t.wrcnt == o.counted - o.settled && t.uncounted == o.sent - o.counted
    && o.finals == o.settled + (if t.reader == Got(true) then 1 else 0)
    && (t.reader.Got? ==> t.reader.final == o.latest)
    && (!t.reader.Idle? ==> t.wrcnt >= 1)
  }

  lemma TallyMore(es: seq<Event>)
    requires |es| > 0
    ensures var o, o', e := TallyOf(Init(es)), TallyOf(es), Last(es);
            && o'.sent == o.sent + (if e.Send? then 1 else 0) && o'.counted == o.counted + (if e.Count? then 1 else 0)
            && o'.finals == o.finals + (if e == Arrive(true) then 1 else 0)
            && o'.settled == o.settled + (if e.Settle? && o.latest then 1 else 0)
            && o'.latest == if e.Arrive? then e.final else o.latest
  {
    assert es == Init(es) + [Last(es)];
  }

  /** In every interleaving the counter is the number of requests counted minus the number of final replies
      settled, without any wrap-around; chunks settle nothing. Whenever the reader is between calls these are
      all final replies that arrived, and a counter of zero means that every request counted so far has had
      its final reply. The reader never waits for a reply that is not due. */
  lemma {:induction false} EveryInterleaving(es: seq<Event>)
    requires Runs(es)
    ensures After(es).wrcnt == Times(es, Count) - Settled(es)
    ensures After(es).uncounted == Times(es, Send) - Times(es, Count)
    ensures Times(es, Arrive(true)) == Settled(es) + if After(es).reader == Got(true) then 1 else 0
    ensures After(es).reader.Got? ==> After(es).reader.final == LatestFinal(es)
    ensures !After(es).reader.Idle? ==> After(es).wrcnt >= 1
    ensures After(es).wrcnt == 0 ==> After(es).reader.Idle? && Times(es, Arrive(true)) == Times(es, Count)
  {
    hide Times, Settled, LatestFinal;
    RunExact(es);
  }

  lemma {:induction false} RunExact(es: seq<Event>)
    requires Runs(es)
    ensures Exact(After(es), TallyOf(es))
  {
    hide TallyOf, Times, Settled;
    if |es| > 0 {
      RunExact(Init(es));
      TallyMore(es);
      TallyRoom(es);
    } else {
      NoTally(es);
    }
  }

  lemma NoTally(es: seq<Event>)
    requires |es| == 0
    ensures TallyOf(es) == Tally(0, 0, 0, 0, false)
  {
  }

  lemma TallyRoom(es: seq<Event>)
    requires Runs(es) && |es| > 0
    ensures TallyOf(es).counted - TallyOf(es).settled < TWO32
  {
  }

  /** What one more step of the reader does: a check starts a read exactly if a counted request still waits
      for its final reply; settling takes one off after a final reply and nothing after a chunk. */
  lemma {:induction false} ReaderSteps(es: seq<Event>, e: Event)
    requires Runs(es) && Runs(es + [e])
    ensures e.Check? ==>
              After(es + [e]).reader == if Times(es, Count) > Times(es, Arrive(true)) then Reading else Idle
    ensures e.Settle? ==>
              && After(es + [e]).reader == Idle
              && After(es + [e]).wrcnt == After(es).wrcnt - if LatestFinal(es) then 1 else 0
  {
    hide Times, Settled, LatestFinal;
    assert Init(es + [e]) == es;
    EveryInterleaving(es);
  }
}
