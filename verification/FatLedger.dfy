/** Keeping the books of a FAT volume: every cluster is free or in exactly one chain, so that what one chain
    gains or loses is what the volume's free clusters lose or gain (system/ff.c, create_chain and
    remove_chain as the file functions call them). */
module FatLedger {
  import opened FatChains
  import opened FatContent

  /** The clusters below `k` that are in use. */
  function UsedBelow(F: seq<nat>, k: nat): (u: set<nat>)
    requires k <= |F|
  {
    set c: nat | 2 <= c < k && F[c] != 0
  }

  lemma {:induction false} UsedAndFree(F: seq<nat>, k: nat)
    requires 2 <= k <= |F|
    ensures |UsedBelow(F, k)| + Zeros(F, k) == k - 2
  {
    if k > 2 {
      UsedAndFree(F, k - 1);
      if F[k - 1] != 0 {
        assert UsedBelow(F, k) == UsedBelow(F, k - 1) + {k - 1};
      } else {
        assert UsedBelow(F, k) == UsedBelow(F, k - 1);
      }
    } else {
      assert UsedBelow(F, k) == {};
    }
  }

  function Elements(s: seq<nat>): (u: set<nat>) {
    set c | c in s
  }

  lemma {:induction false} DistinctSize(s: seq<nat>)
    requires forall i, j :: 0 <= i < j < |s| ==> s[i] != s[j]
    ensures |Elements(s)| == |s|
  {
    if s != [] {
      var t := s[..|s| - 1];
      DistinctSize(t);
      assert Elements(s) == Elements(t) + {s[|s| - 1]};
    }
  }

  /** In use, but not in the chain that starts at `key`. */
  ghost predicate Elsewhere(C: Chains, key: nat, c: nat) {
    exists k :: k in C && k != key && c in C[k]
  }

  /** Chain `a` of the one and chain `b` of the other aside, both have the same chains. */
  ghost predicate SameOthers(C: Chains, a: nat, D: Chains, b: nat) {
    && (forall k :: k in C && k != a ==> k in D && k != b && D[k] == C[k])
    && (forall k :: k in D && k != b ==> k in C && k != a && C[k] == D[k])
  }

  /** What is in use is in the chain or elsewhere, never both. */
  lemma UsedSplits(F: seq<nat>, C: Chains, key: nat, s: seq<nat>, c: nat)
    requires WellFormed(F, C) && StartOk(C, key, s) && IsCluster(F, c)
    ensures F[c] != 0 <==> c in s || Elsewhere(C, key, c)
    ensures !(c in s && Elsewhere(C, key, c))
  {
    OwnedIffUsed(F, C, c);
    forall k | k in C && k != key && c in s ensures c !in C[k] { assert Apart(C[key], C[k]); }
    if Owned(C, c) && !Elsewhere(C, key, c) { NoZeroKey(F, C); }
  }

  lemma NoZeroKey(F: seq<nat>, C: Chains)
    requires WellFormed(F, C)
    ensures 0 !in C
  {
    forall k | k in C ensures k != 0 { ZeroNoKey(F, C, k); }
  }

  lemma ZeroNoKey(F: seq<nat>, C: Chains, key: nat)
    requires WellFormed(F, C) && key in C
    ensures key != 0
  {
    assert IsChain(F, C[key]) && LinkAt(F, C[key], 0);
  }

  lemma ChainInside(F: seq<nat>, C: Chains, key: nat, s: seq<nat>, c: nat)
    requires WellFormed(F, C) && StartOk(C, key, s) && c in s
    ensures IsCluster(F, c)
  {
    UsedInChain(F, s, c);
  }

  /** The used clusters outside the chain. */
  lemma UsedOutside(F: seq<nat>, C: Chains, key: nat, s: seq<nat>) returns (others: set<nat>)
    requires WellFormed(F, C) && StartOk(C, key, s) && |F| >= 2
    ensures forall c: nat :: c in others <==> IsCluster(F, c) && Elsewhere(C, key, c)
    ensures |others| + |s| + Free(F) == |F| - 2
  {
    var used := UsedBelow(F, |F|);
    others := used - Elements(s);
    forall c: nat | IsCluster(F, c) ensures F[c] != 0 <==> c in s || Elsewhere(C, key, c)
      ensures !(c in s && Elsewhere(C, key, c)) { UsedSplits(F, C, key, s, c); }
    forall c | c in s ensures c in used { ChainInside(F, C, key, s, c); }
    assert used == others + Elements(s);
    UsedAndFree(F, |F|);
    ChainSize(F, C, key, s);
  }

  lemma ChainSize(F: seq<nat>, C: Chains, key: nat, s: seq<nat>)
    requires WellFormed(F, C) && StartOk(C, key, s)
    ensures |Elements(s)| == |s|
  {
    forall i, j | 0 <= i < j < |s| ensures s[i] != s[j] {
      assert IsChain(F, s);
      Acyclic(F, s, i, j);
    }
    DistinctSize(s);
  }

  /** Conservation: where only one chain differs, its length and the free clusters add up to the same. */
  lemma Ledger(F: seq<nat>, C: Chains, a: nat, s: seq<nat>, G: seq<nat>, D: Chains, b: nat, t: seq<nat>)
    requires WellFormed(F, C) && StartOk(C, a, s) && WellFormed(G, D) && StartOk(D, b, t)
    requires |F| == |G| >= 2 && SameOthers(C, a, D, b)
    ensures |s| + Free(F) == |t| + Free(G)
  {
    var u := UsedOutside(F, C, a, s);
    var v := UsedOutside(G, D, b, t);
    forall c: nat ensures Elsewhere(C, a, c) <==> Elsewhere(D, b, c) {
      if Elsewhere(C, a, c) {
        var k :| k in C && k != a && c in C[k];
        assert k in D && k != b && c in D[k];
      }
      if Elsewhere(D, b, c) {
        var k :| k in D && k != b && c in D[k];
        assert k in C && k != a && c in C[k];
      }
    }
    assert u == v;
  }
}
