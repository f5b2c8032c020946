/** The correlator over whole runs of calls. */
module CorrelatorHistory {
  import opened Correlation
  import opened CorrelatorGroups
  import Grouping
  import DecimalText

  datatype Call = AddSignal(signal: Signal) | AddSignals(signals: seq<Signal>) | Correlate

  /** The state after a run, and every group returned during it. */
  datatype Trace = Trace(state: State, returned: seq<Group>)

  function After(c: Config, t: Trace, call: Call): Trace {
    match call
    case AddSignal(s) => t.(state := Added(c, t.state, [s]))
    case AddSignals(batch) => t.(state := Added(c, t.state, batch))
    case Correlate =>
      var e := Correlated(c, t.state);
      Trace(t.state.(processed := e.processed), t.returned + e.groups)
  }

  function Run(c: Config, calls: seq<Call>): Trace {
    if calls == [] then Trace(State([], {}), [])
    else After(c, Run(c, calls[..|calls| - 1]), calls[|calls| - 1])
  }

  /** Every signal ever added, in order. */
  function Arrivals(calls: seq<Call>): seq<Signal> {
    if calls == [] then []
    else Arrivals(calls[..|calls| - 1]) + match calls[|calls| - 1]
                                          case AddSignal(s) => [s]
                                          case AddSignals(batch) => batch
                                          case Correlate => []
  }

  // ----- eviction ---------------------------------------------------------------------------

  lemma TheNewest(signals: seq<Signal>) returns (s: Signal)
    requires signals != []
    ensures s in signals && s.timestamp == Newest(signals)
  {
    var t := Newest(signals);
    s :| s in signals && s.timestamp == t;
  }

  lemma RecentIs(signals: seq<Signal>, duration: real, cutoff: real)
    requires signals != [] && cutoff == Newest(signals) - duration
    ensures Recent(signals, duration) == Grouping.Where(signals, NotBefore(cutoff))
  {
    hide Newest, Grouping.Where, NotBefore;
  }

  /** With a negative duration nothing is recent. */
  lemma NothingRecent(signals: seq<Signal>, duration: real)
    requires duration < 0.0
    ensures Recent(signals, duration) == []
  {
    if signals != [] {
      var cutoff := Newest(signals) - duration;
      Grouping.WhereNone(signals, NotBefore(cutoff));
    }
  }

  /** Dropping what is already too old does not change the newest. */
  lemma NewestKept(seen: seq<Signal>, batch: seq<Signal>, duration: real)
    requires duration >= 0.0 && seen != []
    ensures Recent(seen, duration) != []
    ensures Newest(Recent(seen, duration) + batch) == Newest(seen + batch)
  {
    var s := TheNewest(seen);
    assert s in Recent(seen, duration);
    var kept, all := Recent(seen, duration) + batch, seen + batch;
    var x := TheNewest(all);
    assert x in kept || x in seen;
    assert x in seen ==> x.timestamp <= s.timestamp && s in kept;
    var y := TheNewest(kept);
    assert y in all;
  }

  /** Evicting as signals arrive comes to the same as filtering everything at once. */
  lemma EvictionIsIncremental(seen: seq<Signal>, batch: seq<Signal>, duration: real)
    ensures Recent(Recent(seen, duration) + batch, duration) == Recent(seen + batch, duration)
  {
    hide Newest, Recent, Grouping.Where;
    if duration < 0.0 {
      NothingRecent(Recent(seen, duration) + batch, duration);
      NothingRecent(seen + batch, duration);
    } else if seen == [] {
      assert Recent(seen, duration) == [] by {
        NoneRecent(duration);
      }
    } else {
      NewestKept(seen, batch, duration);
      var cutoff := Newest(seen + batch) - duration;
      var first := Newest(seen) - duration;
      NewestGrows(seen, batch);
      var p, q := NotBefore(first), NotBefore(cutoff);
      RecentIs(Recent(seen, duration) + batch, duration, cutoff);
      RecentIs(seen + batch, duration, cutoff);
      RecentIs(seen, duration, first);
      Grouping.WhereTwice(seen, p, q);
      Grouping.WhereConcat(Recent(seen, duration), batch, q);
      Grouping.WhereConcat(seen, batch, q);
    }
  }

  lemma NoneRecent(duration: real)
    ensures Recent([], duration) == []
  {
  }

  lemma NewestGrows(seen: seq<Signal>, batch: seq<Signal>)
    requires seen != []
    ensures Newest(seen) <= Newest(seen + batch)
  {
    var s := TheNewest(seen);
    assert s in seen + batch;
  }

  /** At any time the buffer is the arrival history without what is too old by now. */
  lemma {:induction false} BufferIsRecent(c: Config, calls: seq<Call>)
    ensures Run(c, calls).state.buffer == Recent(Arrivals(calls), c.duration)
  {
    if calls != [] {
      var front, last := calls[..|calls| - 1], calls[|calls| - 1];
      BufferIsRecent(c, front);
      match last {
        case AddSignal(s) => EvictionIsIncremental(Arrivals(front), [s], c.duration);
        case AddSignals(batch) => EvictionIsIncremental(Arrivals(front), batch, c.duration);
        case Correlate =>
          assert Arrivals(front) + [] == Arrivals(front);
      }
    }
  }

  // ----- ids --------------------------------------------------------------------------------

  /** The id tells the message and the first stamp apart. */
  lemma IdsDiffer(a: Group, b: Group)
    requires a.signals != [] && b.signals != [] && IdOf(a) == IdOf(b)
    ensures a.message == b.message && a.signals[0].stamp == b.signals[0].stamp
  {
    DecimalText.TaggedInjective(a.message, b.message, '_', a.signals[0].stamp, b.signals[0].stamp);
  }

  /** What has been returned, and the ids noted, belong together. */
  ghost predicate Noted(returned: seq<Group>, processed: set<string>) {
    && (forall g :: g in returned ==> g.signals != [] && IdOf(g) in processed)
    && (forall id :: id in processed ==> exists g :: g in returned && g.signals != [] && IdOf(g) == id)
    && (forall i, j :: 0 <= i < j < |returned| ==> IdOf(returned[i]) != IdOf(returned[j]))
  }

  lemma NotedOne(returned: seq<Group>, processed: set<string>, g: Group)
    requires Noted(returned, processed) && g.signals != [] && IdOf(g) !in processed
    ensures Noted(returned + [g], processed + {IdOf(g)})
  {
    hide IdOf;
    var all := returned + [g];
    forall id | id in processed + {IdOf(g)} ensures exists h :: h in all && h.signals != [] && IdOf(h) == id {
      if id == IdOf(g) {
        assert g in all;
      } else {
        var h :| h in returned && h.signals != [] && IdOf(h) == id;
        assert h in all;
      }
    }
    forall i, j | 0 <= i < j < |all| ensures IdOf(all[i]) != IdOf(all[j]) {
      assert all[i] in returned;
    }
  }

  /** Passing on groups keeps ids and returned groups together, and answers every group. */
  lemma {:induction false} EmitKeepsNoted(returned: seq<Group>, processed: set<string>, groups: seq<Group>)
    requires Noted(returned, processed) && forall g :: g in groups ==> g.signals != []
    ensures var e := Emit(groups, processed);
            && Noted(returned + e.groups, e.processed)
            && (forall g :: g in e.groups ==> g in groups)
            && (forall g :: g in groups ==> IdOf(g) in e.processed)
  {
    hide Noted, IdOf;
    if groups == [] {
      assert returned + [] == returned;
    } else {
      var front, last := groups[..|groups| - 1], groups[|groups| - 1];
      assert groups == front + [last];
      EmitKeepsNoted(returned, processed, front);
      var e := Emit(front, processed);
      if IdOf(last) !in e.processed {
        NotedOne(returned + e.groups, e.processed, last);
        assert returned + (e.groups + [last]) == returned + e.groups + [last];
      }
    }
  }

  lemma {:induction false} RunIsNoted(c: Config, calls: seq<Call>)
    ensures Noted(Run(c, calls).returned, Run(c, calls).state.processed)
  {
    if calls != [] {
      var front := calls[..|calls| - 1];
      RunIsNoted(c, front);
      var t := Run(c, front);
      EmitKeepsNoted(t.returned, t.state.processed, Candidates(c, t.state.buffer));
    }
  }

  /** No group of one message and one first stamp is ever returned twice. */
  lemma NeverTwice(c: Config, calls: seq<Call>, i: nat, j: nat)
    requires i < j < |Run(c, calls).returned|
    ensures var a, b := Run(c, calls).returned[i], Run(c, calls).returned[j];
            && a.signals != [] && b.signals != []
            && !(a.message == b.message && a.signals[0].stamp == b.signals[0].stamp)
  {
    hide Run;
    RunIsNoted(c, calls);
    var returned := Run(c, calls).returned;
    assert returned[i] in returned && returned[j] in returned;
  }

  // ----- what is returned -------------------------------------------------------------------

  lemma BufferFromArrivals(c: Config, calls: seq<Call>)
    ensures multiset(Run(c, calls).state.buffer) <= multiset(Arrivals(calls))
  {
    hide Run;
    BufferIsRecent(c, calls);
    var arrivals := Arrivals(calls);
    if arrivals != [] {
      var cutoff := Newest(arrivals) - c.duration;
      var p := NotBefore(cutoff);
      RecentIs(arrivals, c.duration, cutoff);
      forall s ensures multiset(Grouping.Where(arrivals, p))[s] <= multiset(arrivals)[s] {
        Grouping.WhereCounts(arrivals, p, s);
      }
    }
  }

  /** Everything ever returned is a group of receptions that did arrive, each counted once. */
  lemma {:induction false} ReturnedAreGood(c: Config, calls: seq<Call>, g: Group)
    requires g in Run(c, calls).returned
    ensures GoodGroup(c, Arrivals(calls), g)
  {
    hide Candidates, Noted, Added;
    if calls != [] {
      var front := calls[..|calls| - 1];
      var t := Run(c, front);
      if g in t.returned {
        ReturnedAreGood(c, front, g);
      } else {
        RunIsNoted(c, front);
        EmitKeepsNoted(t.returned, t.state.processed, Candidates(c, t.state.buffer));
        CandidateIsGood(c, t.state.buffer, g);
        BufferFromArrivals(c, front);
      }
    }
  }

  /**
   A transmission that is isolated among what is buffered, heard by enough receivers, is returned
   by the next `correlate`, unless a group with its message and first stamp was returned before.
   What is returned then is everything heard of it.
   */
  lemma IsolatedIsReturned(c: Config, calls: seq<Call>, message: string, from: int)
    requires var buffer := Run(c, calls).state.buffer;
             && c.window >= 0 && Isolated(buffer, message, from, c.window)
             && Locatable(c, Heard(buffer, message, from, c.window), from)
    ensures var before, after := Run(c, calls).returned, Run(c, calls + [Correlate]).returned;
            && before <= after
            && (exists g :: g in after && StartsAt(g, message, from))
            && forall g :: g in after[|before|..] && StartsAt(g, message, from) ==>
                multiset(g.signals) == multiset(Heard(Run(c, calls).state.buffer, message, from, c.window))
  {
    hide Candidates, Isolated, Locatable, Heard, Run;
    var t := Run(c, calls);
    var e := Correlated(c, t.state);
    RunCorrelates(c, calls);
    RunIsNoted(c, calls);
    EmitKeepsNoted(t.returned, t.state.processed, Candidates(c, t.state.buffer));
    IsolatedIsCandidate(c, t.state.buffer, message, from);
    var g :| g in Candidates(c, t.state.buffer) && StartsAt(g, message, from);
    var h :| h in t.returned + e.groups && h.signals != [] && IdOf(h) == IdOf(g);
    IdsDiffer(g, h);
    assert StartsAt(h, message, from);
    forall g | g in e.groups && StartsAt(g, message, from)
      ensures multiset(g.signals) == multiset(Heard(t.state.buffer, message, from, c.window))
    {
      CandidateIsHeard(c, t.state.buffer, g);
    }
    assert (t.returned + e.groups)[|t.returned|..] == e.groups;
  }

  lemma RunCorrelates(c: Config, calls: seq<Call>)
    ensures Run(c, calls + [Correlate]).returned
            == Run(c, calls).returned + Correlated(c, Run(c, calls).state).groups
  {
    assert (calls + [Correlate])[..|calls|] == calls;
  }
}
