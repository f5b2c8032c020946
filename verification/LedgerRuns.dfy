/** What the type script guarantees over every run of the ledger, of any length. */
module LedgerRuns {
  import opened Wrappers
  import opened LittleEndian
  import opened Molecule
  import opened RegistryRecord
  import opened TypeScript
  import opened Ledger
  import IdentityTrace

  ghost predicate StepAt(c: Chain, states: seq<State>, txs: seq<Transaction>, k: nat)
    requires |states| == |txs| + 1 && k < |txs|
  {
    Step(c, states[k], txs[k], states[k + 1])
  }

  /**
   A run from a genesis ledger: `states[k]` is the ledger before `txs[k]`, every transaction was
   accepted, and no two byte strings hashed during the run collided.
   */
  ghost predicate IsRun(c: Chain, states: seq<State>, txs: seq<Transaction>) {
    && Injective(c.serialize)
    && |states| == |txs| + 1
    && Genesis(c, states[0])
    && (forall k :: 0 <= k < |txs| ==> StepAt(c, states, txs, k))
    && NoCollision(c, states[|txs|])
  }

  // ----- the invariant along a run ----------------------------------------------------------

  lemma GenesisInv(c: Chain, s: State)
    requires Genesis(c, s)
    ensures Inv(c, s)
  {
    forall id ensures IdentityInv(c, s, id) {
      forall o | o in s.live ensures o !in Holders(c, s, id) {
        assert !Carries(s.live[o], c.ScriptOf(id));
      }
    }
  }

  lemma NoCollisionEarlier(c: Chain, s: State, tx: Transaction, s': State)
    requires Step(c, s, tx, s') && NoCollision(c, s')
    ensures NoCollision(c, s)
  {
    assert s.raws <= s'.raws && s.preimages <= s'.preimages;
  }

  lemma {:induction false} NoCollisionAt(c: Chain, states: seq<State>, txs: seq<Transaction>, n: nat)
    requires IsRun(c, states, txs) && n <= |txs|
    ensures NoCollision(c, states[n])
    decreases |txs| - n
  {
    if n < |txs| {
      NoCollisionAt(c, states, txs, n + 1);
      assert StepAt(c, states, txs, n);
      NoCollisionEarlier(c, states[n], txs[n], states[n + 1]);
    }
  }

  lemma StepKeepsInv(c: Chain, s: State, tx: Transaction, s': State)
    requires Injective(c.serialize)
    requires Inv(c, s) && Step(c, s, tx, s') && NoCollision(c, s')
    ensures Inv(c, s')
  {
    StepInv(c, s, tx);
  }

  lemma {:induction false} InvAt(c: Chain, states: seq<State>, txs: seq<Transaction>, n: nat)
    requires IsRun(c, states, txs) && n <= |txs|
    ensures Inv(c, states[n])
  {
    if n == 0 {
      GenesisInv(c, states[0]);
    } else {
      InvAt(c, states, txs, n - 1);
      NoCollisionAt(c, states, txs, n);
      assert StepAt(c, states, txs, n - 1);
      StepKeepsInv(c, states[n - 1], txs[n - 1], states[n - 1 + 1]);
    }
  }

  lemma IdentityAt(c: Chain, states: seq<State>, txs: seq<Transaction>, n: nat, id: Bytes)
    requires IsRun(c, states, txs) && n <= |txs|
    ensures IdentityInv(c, states[n], id)
  {
    InvAt(c, states, txs, n);
  }

  // ----- the view of one identity along a run -----------------------------------------------

  ghost function EffectsOf(c: Chain, states: seq<State>, txs: seq<Transaction>, id: Bytes): seq<Effect>
    requires |states| == |txs| + 1
  {
    seq(|txs|, k requires 0 <= k < |txs| => EffectOf(c, states[k], txs[k], id))
  }

  ghost function ViewsOf(c: Chain, states: seq<State>, id: Bytes): seq<View> {
    seq(|states|, k requires 0 <= k < |states| => ViewOf(c, states[k], id))
  }

  lemma ViewAt(c: Chain, states: seq<State>, txs: seq<Transaction>, n: nat, id: Bytes)
    requires IsRun(c, states, txs) && n <= |txs|
    ensures Settled(c, ViewOf(c, states[n], id))
    ensures ViewOf(c, states[n], id).cells.Keys == Holders(c, states[n], id)
    ensures n == 0 ==> ViewOf(c, states[n], id).lineage == []
  {
    IdentityAt(c, states, txs, n, id);
    InvSettles(c, states[n], id);
  }

  lemma ChangeAt(c: Chain, states: seq<State>, txs: seq<Transaction>, k: nat, id: Bytes)
    requires IsRun(c, states, txs) && k < |txs|
    ensures Change(EffectOf(c, states[k], txs[k], id), ViewOf(c, states[k], id), ViewOf(c, states[k + 1], id))
  {
    InvAt(c, states, txs, k);
    NoCollisionAt(c, states, txs, k + 1);
    assert StepAt(c, states, txs, k);
    StepChange(c, states[k], txs[k], states[k + 1], id);
  }

  lemma ViewsSettle(c: Chain, states: seq<State>, txs: seq<Transaction>, id: Bytes)
    requires IsRun(c, states, txs)
    ensures var views := ViewsOf(c, states, id);
            && views[0].lineage == []
            && forall n :: 0 <= n < |views| ==>
                 Settled(c, views[n]) && views[n].cells.Keys == Holders(c, states[n], id)
  {
    var views := ViewsOf(c, states, id);
    ViewAt(c, states, txs, 0, id);
    forall n | 0 <= n < |views| ensures Settled(c, views[n]) && views[n].cells.Keys == Holders(c, states[n], id) {
      ViewAt(c, states, txs, n, id);
    }
  }

  lemma RunIsTrace(c: Chain, states: seq<State>, txs: seq<Transaction>, id: Bytes)
    requires IsRun(c, states, txs)
    ensures IdentityTrace.IsTrace(c, EffectsOf(c, states, txs, id), ViewsOf(c, states, id))
    ensures forall n :: 0 <= n <= |txs| ==> ViewsOf(c, states, id)[n].cells.Keys == Holders(c, states[n], id)
  {
    var effects, views := EffectsOf(c, states, txs, id), ViewsOf(c, states, id);
    forall k | 0 <= k < |txs| ensures Change(effects[k], views[k], views[k + 1]) {
      ChangeAt(c, states, txs, k, id);
    }
    ViewsSettle(c, states, txs, id);
  }

  // ----- one live cell for ever -------------------------------------------------------------

  ghost predicate MintedBefore(c: Chain, states: seq<State>, txs: seq<Transaction>, n: nat, id: Bytes)
    requires |states| == |txs| + 1 && n <= |txs|
  {
    exists k :: 0 <= k < n && MintsIn(c, states[k], txs[k], id)
  }

  lemma MintedIsCreated(c: Chain, states: seq<State>, txs: seq<Transaction>, n: nat, id: Bytes)
    requires |states| == |txs| + 1 && n <= |txs|
    ensures MintedBefore(c, states, txs, n, id) <==>
            exists k :: 0 <= k < n && EffectsOf(c, states, txs, id)[k] == Creation
  {
    var effects := EffectsOf(c, states, txs, id);
    forall k | 0 <= k < n ensures effects[k] == Creation <==> MintsIn(c, states[k], txs[k], id) {
    }
  }

  /** An identity has one live cell from its creation on, for ever, and none before. */
  lemma {:induction false} OneLiveCellForever(c: Chain, states: seq<State>, txs: seq<Transaction>, n: nat, id: Bytes)
    requires IsRun(c, states, txs) && n <= |txs|
    ensures |Holders(c, states[n], id)| == if MintedBefore(c, states, txs, n, id) then 1 else 0
  {
    var effects, views := EffectsOf(c, states, txs, id), ViewsOf(c, states, id);
    RunIsTrace(c, states, txs, id);
    IdentityTrace.CreatedIff(c, effects, views, n);
    MintedIsCreated(c, states, txs, n, id);
    SettledCount(c, views[n]);
  }

  lemma SettledCount(c: Chain, view: View)
    requires Settled(c, view)
    ensures |view.cells.Keys| == if view.lineage == [] then 0 else 1
  {
  }

  /** No identity is ever minted a second time. */
  lemma {:induction false} MintedOnce(c: Chain, states: seq<State>, txs: seq<Transaction>, j: nat, k: nat, id: Bytes)
    requires IsRun(c, states, txs) && j < k < |txs|
    requires MintsIn(c, states[j], txs[j], id)
    ensures !MintsIn(c, states[k], txs[k], id)
  {
    var effects, views := EffectsOf(c, states, txs, id), ViewsOf(c, states, id);
    RunIsTrace(c, states, txs, id);
    assert effects[j] == Creation;
    IdentityTrace.CreatedIff(c, effects, views, k);
    assert Change(effects[k], views[k], views[k + 1]);
    assert effects[k] != Creation;
  }

  // ----- the lineage of an identity ---------------------------------------------------------

  /** The record in a live registry cell. */
  ghost function RecordAt(c: Chain, s: State, o: OutPoint): Result<Record, RegistryError>
    requires o in s.live
  {
    DecodeRecord(c.host, s.live[o].data)
  }

  /** How many of the first `n` transactions ran the script for the identity. */
  ghost function TouchCount(c: Chain, states: seq<State>, txs: seq<Transaction>, n: nat, id: Bytes): nat
    requires |states| == |txs| + 1 && n <= |txs|
  {
    if n == 0 then 0
    else TouchCount(c, states, txs, n - 1, id) + if TouchesIn(c, states[n - 1], txs[n - 1], id) then 1 else 0
  }

  lemma TouchesIsEffect(c: Chain, s: State, tx: Transaction, id: Bytes)
    ensures TouchesIn(c, s, tx, id) <==> EffectOf(c, s, tx, id) != Nothing
  {
  }

  lemma {:induction false} TouchCountIs(c: Chain, states: seq<State>, txs: seq<Transaction>, n: nat, id: Bytes)
    requires |states| == |txs| + 1 && n <= |txs|
    ensures TouchCount(c, states, txs, n, id) == IdentityTrace.Touched(EffectsOf(c, states, txs, id), n)
  {
    if n > 0 {
      TouchCountIs(c, states, txs, n - 1, id);
      TouchesIsEffect(c, states[n - 1], txs[n - 1], id);
      assert EffectsOf(c, states, txs, id)[n - 1] == EffectOf(c, states[n - 1], txs[n - 1], id);
    }
  }

  lemma SettledRecord(c: Chain, s: State, id: Bytes, o: OutPoint)
    requires Settled(c, ViewOf(c, s, id)) && o in Holders(c, s, id)
    ensures var lineage := ViewOf(c, s, id).lineage;
            && LegalLineage(lineage) && RecordAt(c, s, o) == Ok(lineage[|lineage| - 1])
  {
    assert o in ViewOf(c, s, id).cells;
  }

  /**
   The one live cell of a minted identity decodes to a record whose sequence number counts the
   transactions that ran the script since the creation; there are at most 2^64 of them in all.
   */
  lemma {:induction false} LiveRecord(c: Chain, states: seq<State>, txs: seq<Transaction>, n: nat, id: Bytes, o: OutPoint)
    requires IsRun(c, states, txs) && n <= |txs|
    requires o in Holders(c, states[n], id)
    ensures RecordAt(c, states[n], o).Ok?
    ensures RecordAt(c, states[n], o).value.sequence + 1 == TouchCount(c, states, txs, n, id)
    ensures TouchCount(c, states, txs, n, id) <= U64_MAX + 1
  {
    var effects, views := EffectsOf(c, states, txs, id), ViewsOf(c, states, id);
    RunIsTrace(c, states, txs, id);
    SettledRecord(c, states[n], id, o);
    IdentityTrace.LineageLength(c, effects, views, n);
    TouchCountIs(c, states, txs, n, id);
    LineageFacts(views[n].lineage);
  }

  /**
   Between any two moments the label stays, time does not go back, the sequence does not fall,
   and the same sequence number means the same record.
   */
  lemma {:induction false} LaterRecord(c: Chain, states: seq<State>, txs: seq<Transaction>,
                                       m: nat, n: nat, id: Bytes, o: OutPoint, p: OutPoint)
    requires IsRun(c, states, txs) && m <= n <= |txs|
    requires o in Holders(c, states[m], id) && p in Holders(c, states[n], id)
    ensures RecordAt(c, states[m], o).Ok? && RecordAt(c, states[n], p).Ok?
    ensures var older, newer := RecordAt(c, states[m], o).value, RecordAt(c, states[n], p).value;
            && newer.receiverId == older.receiverId
            && newer.updatedAt >= older.updatedAt
            && newer.sequence >= older.sequence
            && (newer.sequence == older.sequence ==> newer == older)
  {
    hide Injective, Genesis, StepAt, NoCollision, ViewOf, Holders, LegalLineage, Settled, RecordAt;
    ViewAt(c, states, txs, m, id);
    ViewAt(c, states, txs, n, id);
    SettledRecord(c, states[m], id, o);
    SettledRecord(c, states[n], id, p);
    LineagePrefix(c, states, txs, m, n, id);
    PrefixRecords(ViewOf(c, states[m], id).lineage, ViewOf(c, states[n], id).lineage);
  }

  lemma LineagePrefix(c: Chain, states: seq<State>, txs: seq<Transaction>, m: nat, n: nat, id: Bytes)
    requires IsRun(c, states, txs) && m <= n <= |txs|
    ensures ViewOf(c, states[m], id).lineage <= ViewOf(c, states[n], id).lineage
  {
    var effects, views := EffectsOf(c, states, txs, id), ViewsOf(c, states, id);
    RunIsTrace(c, states, txs, id);
    IdentityTrace.LineageGrows(c, effects, views, m, n);
  }

  lemma PrefixRecords(older: seq<Record>, newer: seq<Record>)
    requires LegalLineage(older) && LegalLineage(newer) && older <= newer
    ensures var a, b := older[|older| - 1], newer[|newer| - 1];
            && b.receiverId == a.receiverId && b.updatedAt >= a.updatedAt && b.sequence >= a.sequence
            && (b.sequence == a.sequence ==> b == a)
  {
    LineageFacts(newer);
    assert newer[|older| - 1] == older[|older| - 1];
  }

  /** A revoked tombstone stays live, unconsumed and unchanged, for ever. */
  lemma {:induction false} RevokedIsTerminal(c: Chain, states: seq<State>, txs: seq<Transaction>,
                                             m: nat, n: nat, id: Bytes, o: OutPoint)
    requires IsRun(c, states, txs) && m <= n <= |txs|
    requires o in Holders(c, states[m], id)
    requires RecordAt(c, states[m], o).Ok? && RecordAt(c, states[m], o).value.status == "revoked"
    ensures o in Holders(c, states[n], id) && states[n].live[o] == states[m].live[o]
    ensures forall k :: m <= k < n ==> !TouchesIn(c, states[k], txs[k], id)
  {
    hide Injective, Genesis, StepAt, NoCollision, LegalLineage, Settled;
    var effects, views := EffectsOf(c, states, txs, id), ViewsOf(c, states, id);
    RunIsTrace(c, states, txs, id);
    SettledRecord(c, states[m], id, o);
    IdentityTrace.RevokedStays(c, effects, views, m, n);
    assert o in views[n].cells && views[n].cells[o] == views[m].cells[o];
    forall k | m <= k < n ensures !TouchesIn(c, states[k], txs[k], id) {
      assert effects[k] == Nothing;
    }
  }

  // ----- out points never come back ---------------------------------------------------------

  lemma StepSpends(c: Chain, s: State, tx: Transaction, s': State)
    requires Step(c, s, tx, s')
    ensures s.spent <= s'.spent && Consumed(tx) <= s'.spent && Consumed(tx) <= s.live.Keys && Consumed(tx) != {}
  {
    assert tx.inputs[0].previousOutput in Consumed(tx);
  }

  lemma {:induction false} SpentStaysSpent(c: Chain, states: seq<State>, txs: seq<Transaction>, m: nat, n: nat)
    requires IsRun(c, states, txs) && m <= n <= |txs|
    ensures states[m].spent <= states[n].spent
    decreases n
  {
    if m < n {
      SpentStaysSpent(c, states, txs, m, n - 1);
      assert StepAt(c, states, txs, n - 1);
      StepSpends(c, states[n - 1], txs[n - 1], states[n - 1 + 1]);
    }
  }

  /** A spent out point is never live again, and no transaction is accepted twice. */
  lemma {:induction false} NeverTwice(c: Chain, states: seq<State>, txs: seq<Transaction>, j: nat, k: nat)
    requires IsRun(c, states, txs) && j < k <= |txs|
    ensures Consumed(txs[j]) !! states[k].live.Keys
    ensures k < |txs| ==> txs[j] != txs[k]
  {
    hide Injective, Genesis, NoCollision, Accepted, Apply, OriginInv, IdentityInv, Rooted, Null, Consumed;
    assert StepAt(c, states, txs, j);
    StepSpends(c, states[j], txs[j], states[j + 1]);
    SpentStaysSpent(c, states, txs, j + 1, k);
    InvAt(c, states, txs, k);
    if k < |txs| {
      assert StepAt(c, states, txs, k);
      StepSpends(c, states[k], txs[k], states[k + 1]);
    }
  }
}
