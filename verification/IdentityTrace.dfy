/** What a sequence of creations and updates says about one identity, apart from the ledger. */
module IdentityTrace {
  import opened Wrappers
  import opened Molecule
  import opened RegistryRecord
  import opened TypeScript
  import opened Ledger

  ghost predicate IsTrace(c: Chain, effects: seq<Effect>, views: seq<View>) {
    && |views| == |effects| + 1
    && views[0].lineage == []
    && (forall k :: 0 <= k < |effects| ==> Change(effects[k], views[k], views[k + 1]))
    && (forall k :: 0 <= k < |views| ==> Settled(c, views[k]))
  }

  /** How many of the effects concern the identity. */
  ghost function Touched(effects: seq<Effect>, n: nat): nat
    requires n <= |effects|
  {
    if n == 0 then 0 else Touched(effects, n - 1) + if effects[n - 1] == Nothing then 0 else 1
  }

  lemma {:induction false} LineageLength(c: Chain, effects: seq<Effect>, views: seq<View>, n: nat)
    requires IsTrace(c, effects, views) && n <= |effects|
    ensures |views[n].lineage| == Touched(effects, n)
  {
    if n > 0 {
      LineageLength(c, effects, views, n - 1);
      assert Change(effects[n - 1], views[n - 1], views[n - 1 + 1]);
    }
  }

  lemma {:induction false} CreatedIff(c: Chain, effects: seq<Effect>, views: seq<View>, n: nat)
    requires IsTrace(c, effects, views) && n <= |effects|
    ensures views[n].lineage != [] <==> exists k :: 0 <= k < n && effects[k] == Creation
  {
    if n > 0 {
      CreatedIff(c, effects, views, n - 1);
      assert Change(effects[n - 1], views[n - 1], views[n - 1 + 1]);
    }
  }

  lemma {:induction false} LineageGrows(c: Chain, effects: seq<Effect>, views: seq<View>, m: nat, n: nat)
    requires IsTrace(c, effects, views) && m <= n <= |effects|
    ensures views[m].lineage <= views[n].lineage
    decreases n
  {
    if m < n {
      LineageGrows(c, effects, views, m, n - 1);
      assert Change(effects[n - 1], views[n - 1], views[n - 1 + 1]);
    }
  }

  lemma {:induction false} RevokedStays(c: Chain, effects: seq<Effect>, views: seq<View>, m: nat, n: nat)
    requires IsTrace(c, effects, views) && m <= n <= |effects|
    requires views[m].lineage != [] && views[m].lineage[|views[m].lineage| - 1].status == "revoked"
    ensures views[n] == views[m] && forall k :: m <= k < n ==> effects[k] == Nothing
    decreases n
  {
    if m < n {
      RevokedStays(c, effects, views, m, n - 1);
      assert Change(effects[n - 1], views[n - 1], views[n - 1 + 1]);
    }
  }
}
