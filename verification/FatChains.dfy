/** Cluster chains of a file allocation table, as a value: a sequence of entries of which those below 2
    are reserved, 0 means free, a value in [2, |F|) is a link and anything from |F| on ends a chain. */
module FatChains {

  type Chains = map<nat, seq<nat>>

  predicate IsCluster(F: seq<nat>, c: int) {
    2 <= c < |F|
  }

  /** Position `i` of `s` is a cluster whose entry links to the next position, or ends the chain. */
  ghost predicate LinkAt(F: seq<nat>, s: seq<nat>, i: int) {
    && 0 <= i < |s| && IsCluster(F, s[i])
    && (if i == |s| - 1 then F[s[i]] >= |F| else F[s[i]] == s[i + 1])
  }

  /** `s` lists the clusters of a chain, in order, up to its end. */
  ghost predicate IsChain(F: seq<nat>, s: seq<nat>) {
    |s| > 0 && forall i :: 0 <= i < |s| ==> LinkAt(F, s, i)
  }

  ghost predicate Apart(s: seq<nat>, t: seq<nat>) {
    forall c :: c in s ==> c !in t
  }

  ghost predicate AllChains(F: seq<nat>, C: Chains) {
    forall h :: h in C ==> IsChain(F, C[h]) && C[h][0] == h
  }

  ghost predicate AllApart(C: Chains) {
    forall g, h :: g in C && h in C && g != h ==> Apart(C[g], C[h])
  }

  ghost predicate AllOwned(F: seq<nat>, C: Chains) {
    forall c :: IsCluster(F, c) && F[c] != 0 ==> Owned(C, c)
  }

  ghost predicate Owned(C: Chains, c: nat) {
    exists h :: h in C && c in C[h]
  }

  /** The table is exactly the disjoint chains of `C`, keyed by their first clusters. */
  ghost predicate WellFormed(F: seq<nat>, C: Chains) {
    AllChains(F, C) && AllApart(C) && AllOwned(F, C)
  }

  /** A chain never comes back to a cluster. */
  lemma {:induction false} Acyclic(F: seq<nat>, s: seq<nat>, i: nat, j: nat)
    requires IsChain(F, s) && i < j < |s|
    ensures s[i] != s[j]
    decreases |s| - j
  {
    assert LinkAt(F, s, i) && LinkAt(F, s, j);
    if j == |s| - 1 {
      assert LinkAt(F, s, i + 1);
    } else if s[i] == s[j] {
      Acyclic(F, s, i + 1, j + 1);
    }
  }

  lemma FirstOnce(F: seq<nat>, s: seq<nat>)
    requires IsChain(F, s)
    ensures s[0] !in s[1..]
  {
    forall j | 1 <= j < |s| ensures s[j] != s[0] { Acyclic(F, s, 0, j); }
  }

  lemma UsedInChain(F: seq<nat>, s: seq<nat>, c: nat)
    requires IsChain(F, s) && c in s
    ensures IsCluster(F, c) && F[c] >= 2
  {
    var i :| 0 <= i < |s| && s[i] == c;
    assert LinkAt(F, s, i);
    if i < |s| - 1 { assert LinkAt(F, s, i + 1); }
  }

  /** Chain membership decides whether an entry is in use, and no entry holds the reserved value 1. */
  lemma OwnedIffUsed(F: seq<nat>, C: Chains, c: nat)
    requires WellFormed(F, C) && IsCluster(F, c)
    ensures F[c] != 0 <==> Owned(C, c)
    ensures F[c] != 1
  {
    if Owned(C, c) {
      var h :| h in C && c in C[h];
      UsedInChain(F, C[h], c);
    }
  }

  // ---------------------------------------------------------------- counting free entries

  /** Free entries among clusters 2 .. k-1. */
  function Zeros(F: seq<nat>, k: nat): (r: nat)
    requires k <= |F|
    ensures k >= 2 ==> r <= k - 2
  {
    if k <= 2 then 0 else Zeros(F, k - 1) + (if F[k - 1] == 0 then 1 else 0)
  }

  function Free(F: seq<nat>): (r: nat)
  {
    Zeros(F, |F|)
  }

  function IsZero(v: nat): (r: nat) { if v == 0 then 1 else 0 }

  lemma {:induction false} ZerosUpdate(F: seq<nat>, c: nat, v: nat, k: nat)
    requires IsCluster(F, c) && k <= |F|
    ensures Zeros(F[c := v], k) == if c < k then Zeros(F, k) - IsZero(F[c]) + IsZero(v) else Zeros(F, k)
  {
    if k > 2 { ZerosUpdate(F, c, v, k - 1); }
  }

  lemma FreeUpdate(F: seq<nat>, c: nat, v: nat)
    requires IsCluster(F, c)
    ensures Free(F[c := v]) == Free(F) - IsZero(F[c]) + IsZero(v)
    ensures Free(F) <= |F| - 2 && Free(F[c := v]) <= |F| - 2
  {
    ZerosUpdate(F, c, v, |F|);
  }

  /** The count is zero exactly when no entry is free. */
  lemma {:induction false} NoneFree(F: seq<nat>, k: nat)
    requires k <= |F|
    ensures Zeros(F, k) == 0 <==> forall c :: 2 <= c < k ==> F[c] != 0
  {
    if k > 2 { NoneFree(F, k - 1); }
  }

  // ---------------------------------------------------------------- removing a chain

  datatype Outcome = Outcome(table: seq<nat>, ok: bool)

  /** Following links from `c` and freeing every entry passed, on any table at all: it stops at a free
      entry, at an end mark, or with an error at the reserved value 1. */
  function Freed(F: seq<nat>, c: nat): (r: Outcome)
    requires IsCluster(F, c)
    decreases |F| - Free(F)
  {
    if F[c] == 0 then Outcome(F, true)
    else if F[c] == 1 then Outcome(F, false)
    else
      FreeUpdate(F, c, 0);
      if F[c] < |F| then Freed(F[c := 0], F[c]) else Outcome(F[c := 0], true)
  }

  /** Whatever the table, entries are only ever freed. */
  lemma {:induction false} FreedOnlyFrees(F: seq<nat>, c: nat)
    requires IsCluster(F, c)
    ensures |Freed(F, c).table| == |F|
    ensures forall e :: 0 <= e < |F| && Freed(F, c).table[e] != 0 ==> Freed(F, c).table[e] == F[e]
    ensures Freed(F, c).ok ==> Freed(F, c).table[c] == 0
    decreases |F| - Free(F)
  {
    if F[c] >= 2 {
      FreeUpdate(F, c, 0);
      if F[c] < |F| { FreedOnlyFrees(F[c := 0], F[c]); }
    }
  }

  /** `G` is `F` with the clusters of `s` freed. */
  ghost predicate AllFreed(F: seq<nat>, G: seq<nat>, s: seq<nat>) {
    |G| == |F| && forall c :: 0 <= c < |F| ==> G[c] == if c in s then 0 else F[c]
  }

  /** On a chain, exactly its clusters are freed. */
  lemma {:induction false} FreedChain(F: seq<nat>, s: seq<nat>)
    requires IsChain(F, s)
    ensures LinkAt(F, s, 0)
    ensures var r := Freed(F, s[0]); r.ok && AllFreed(F, r.table, s) && Free(r.table) == Free(F) + |s|
    decreases |s|
  {
    assert LinkAt(F, s, 0);
    var c := s[0];
    var G := F[c := 0];
    UsedInChain(F, s, c);
    FreeUpdate(F, c, 0);
    if |s| == 1 {
      assert s == [c];
    } else {
      FirstOnce(F, s);
      TailIsChain(F, s, G) by {
        forall e | e in s[1..] ensures IsCluster(F, e) && G[e] == F[e] { UsedInChain(F, s, e); }
      }
      FreedChain(G, s[1..]);
      assert s == [c] + s[1..];
    }
  }

  lemma TailIsChain(F: seq<nat>, s: seq<nat>, G: seq<nat>)
    requires IsChain(F, s) && |s| > 1 && |G| == |F|
    requires forall e :: e in s[1..] ==> IsCluster(F, e) && G[e] == F[e]
    ensures IsChain(G, s[1..])
  {
    var t := s[1..];
    forall i | 0 <= i < |t| ensures LinkAt(G, t, i) {
      assert LinkAt(F, s, i + 1);
      assert t[i] in t;
    }
  }

  lemma {:induction false} SuffixIsChain(F: seq<nat>, s: seq<nat>, i: nat)
    requires IsChain(F, s) && i < |s|
    ensures IsChain(F, s[i..])
  {
    if i == 0 {
      assert s[0..] == s;
    } else {
      forall e | e in s[1..] ensures IsCluster(F, e) { UsedInChain(F, s, e); }
      TailIsChain(F, s, F);
      SuffixIsChain(F, s[1..], i - 1);
      assert s[1..][i - 1..] == s[i..];
    }
  }

  /** The chains without those from position `i` of chain `h` on. */
  ghost function Cut(C: Chains, h: nat, i: nat): (r: Chains)
    requires h in C && i < |C[h]|
  {
    if i == 0 then map g | g in C && g != h :: C[g] else C[h := C[h][..i]]
  }

  /** `G` is `F` with the clusters of `s` from position `i` on freed and the one before ending its chain. */
  ghost predicate IsCut(F: seq<nat>, G: seq<nat>, s: seq<nat>, i: nat) {
    && i < |s| && |G| == |F|
    && (forall c :: 0 <= c < |F| && c in s[i..] ==> G[c] == 0)
    && (forall c :: 0 <= c < |F| && c !in s[i..] && (i == 0 || c != s[i - 1]) ==> G[c] == F[c])
    && (i > 0 ==> IsCluster(F, s[i - 1]) && G[s[i - 1]] >= |F|)
  }

  lemma Before(F: seq<nat>, s: seq<nat>, i: nat, k: nat)
    requires IsChain(F, s) && k < i <= |s|
    ensures s[k] !in s[i..]
  {
    forall j | i <= j < |s| ensures s[j] != s[k] { Acyclic(F, s, k, j); }
  }

  lemma PrefixIsChain(F: seq<nat>, G: seq<nat>, s: seq<nat>, i: nat)
    requires IsChain(F, s) && 0 < i < |s| && IsCut(F, G, s, i)
    ensures IsChain(G, s[..i])
  {
    var t := s[..i];
    forall k | 0 <= k < i ensures LinkAt(G, t, k) {
      assert LinkAt(F, s, k);
      Before(F, s, i, k);
      if k < i - 1 { Acyclic(F, s, k, i - 1); }
    }
  }

  /** A chain none of whose entries changed is still a chain. */
  lemma ChainKept(F: seq<nat>, G: seq<nat>, s: seq<nat>)
    requires IsChain(F, s) && |G| == |F|
    requires forall c :: c in s ==> IsCluster(F, c) && G[c] == F[c]
    ensures IsChain(G, s)
  {
    forall i | 0 <= i < |s| ensures LinkAt(G, s, i) {
      assert LinkAt(F, s, i);
      assert s[i] in s;
    }
  }

  lemma OtherChainCut(F: seq<nat>, G: seq<nat>, s: seq<nat>, i: nat, t: seq<nat>)
    requires IsChain(F, t) && IsCut(F, G, s, i) && Apart(t, s)
    ensures IsChain(G, t)
  {
    forall c | c in t ensures IsCluster(F, c) && G[c] == F[c] {
      UsedInChain(F, t, c);
      assert c !in s;
      if i > 0 { assert s[i - 1] in s; }
    }
    ChainKept(F, G, t);
  }

  lemma CutKeepsOwned(F: seq<nat>, G: seq<nat>, C: Chains, h: nat, i: nat, c: nat)
    requires AllOwned(F, C) && h in C && IsCut(F, G, C[h], i)
    requires IsCluster(F, c) && G[c] != 0
    ensures Owned(Cut(C, h, i), c)
  {
    var s := C[h];
    var D := Cut(C, h, i);
    if i > 0 && c == s[i - 1] {
      assert s[..i][i - 1] == c;
      assert h in D && c in D[h];
    } else {
      assert c !in s[i..];
      assert Owned(C, c);
      var g :| g in C && c in C[g];
      if g == h { PrefixHas(s, i, c); }
      assert g in D && c in D[g];
    }
  }

  lemma PrefixHas(s: seq<nat>, i: nat, c: nat)
    requires i < |s| && c in s && c !in s[i..]
    ensures i > 0 && c in s[..i]
  {
    assert s == s[..i] + s[i..];
    assert c in s[..i];
  }

  lemma CutApart(C: Chains, h: nat, i: nat)
    requires AllApart(C) && h in C && i < |C[h]|
    ensures AllApart(Cut(C, h, i))
  {
    var D := Cut(C, h, i);
    forall g, k | g in D && k in D && g != k ensures Apart(D[g], D[k]) {
      assert Apart(C[g], C[k]);
      forall c | c in D[g] ensures c !in D[k] { assert c in C[g]; }
    }
  }

  lemma CutChains(F: seq<nat>, G: seq<nat>, C: Chains, h: nat, i: nat)
    requires AllChains(F, C) && AllApart(C) && h in C && IsCut(F, G, C[h], i)
    ensures AllChains(G, Cut(C, h, i))
  {
    var D := Cut(C, h, i);
    forall g | g in D ensures IsChain(G, D[g]) && D[g][0] == g {
      assert IsChain(F, C[g]);
      if g == h {
        PrefixIsChain(F, G, C[h], i);
      } else {
        assert Apart(C[g], C[h]);
        OtherChainCut(F, G, C[h], i, C[g]);
      }
    }
  }

  /** Removing a suffix of a chain keeps the table well formed; only that chain changes. */
  lemma CutKeepsForm(F: seq<nat>, G: seq<nat>, C: Chains, h: nat, i: nat)
    requires WellFormed(F, C) && h in C && IsCut(F, G, C[h], i)
    ensures WellFormed(G, Cut(C, h, i))
  {
    var D := Cut(C, h, i);
    CutChains(F, G, C, h, i);
    CutApart(C, h, i);
    forall c | IsCluster(G, c) && G[c] != 0 ensures Owned(D, c) { CutKeepsOwned(F, G, C, h, i, c); }
  }

  /** What `remove_chain(c, p)` makes of a table: `p`, if not 0, is marked with `eoc` first. */
  function RemoveResult(F: seq<nat>, c: nat, p: nat, eoc: nat): (r: Outcome)
    requires IsCluster(F, c) && (p == 0 || IsCluster(F, p))
  {
    Freed(if p == 0 then F else F[p := eoc], c)
  }

  /** The chain arguments for removing from position `i` of `s` on. */
  function Predecessor(s: seq<nat>, i: nat): (p: nat)
    requires i < |s|
  {
    if i == 0 then 0 else s[i - 1]
  }

  lemma SuffixCut(F: seq<nat>, s: seq<nat>, i: nat, eoc: nat)
    requires IsChain(F, s) && i < |s| && eoc >= |F|
    ensures IsCluster(F, s[i]) && (i > 0 ==> IsCluster(F, Predecessor(s, i)))
    ensures var r := RemoveResult(F, s[i], Predecessor(s, i), eoc);
      r.ok && IsCut(F, r.table, s, i) && Free(r.table) == Free(F) + |s| - i
  {
    SuffixIsChain(F, s, i);
    var t := s[i..];
    if i == 0 {
      FreedChain(F, t);
    } else {
      var p := s[i - 1];
      Before(F, s, i, i - 1);
      UsedInChain(F, s, p);
      var E := F[p := eoc];
      forall c | c in t ensures IsCluster(F, c) && E[c] == F[c] { UsedInChain(F, t, c); }
      ChainKept(F, E, t);
      FreeUpdate(F, p, eoc);
      FreedChain(E, t);
    }
  }

  /** Called on position `i` of a chain and its predecessor, `remove_chain` succeeds, frees exactly the
      suffix and ends the chain before it; every other chain stays. */
  lemma RemoveCuts(F: seq<nat>, C: Chains, h: nat, i: nat, eoc: nat)
    requires WellFormed(F, C) && h in C && i < |C[h]| && eoc >= |F|
    ensures IsCluster(F, C[h][i]) && (i > 0 ==> IsCluster(F, Predecessor(C[h], i)))
    ensures var r := RemoveResult(F, C[h][i], Predecessor(C[h], i), eoc);
      r.ok && IsCut(F, r.table, C[h], i) && WellFormed(r.table, Cut(C, h, i))
      && Free(r.table) == Free(F) + |C[h]| - i
  {
    SuffixCut(F, C[h], i, eoc);
    CutKeepsForm(F, RemoveResult(F, C[h][i], Predecessor(C[h], i), eoc).table, C, h, i);
  }

  lemma RemovedIsCut(F: seq<nat>, C: Chains, h: nat, i: nat, eoc: nat, c: nat, p: nat, G: seq<nat>, ok: bool)
    requires WellFormed(F, C) && h in C && i < |C[h]| && eoc >= |F| && c == C[h][i] && p == Predecessor(C[h], i)
    requires IsCluster(F, c) && (p == 0 || IsCluster(F, p)) && RemoveResult(F, c, p, eoc) == Outcome(G, ok)
    ensures ok && IsCut(F, G, C[h], i)
  {
    RemoveCuts(F, C, h, i, eoc);
  }

  // ---------------------------------------------------------------- stretching a chain

  /** Entry `r` becomes an end mark and, unless `p` is 0, entry `p` links to it. */
  function Linked(F: seq<nat>, p: nat, r: nat, eoc: nat): (G: seq<nat>)
    requires IsCluster(F, r) && (p == 0 || IsCluster(F, p))
    ensures |G| == |F|
  {
    if p == 0 then F[r := eoc] else F[r := eoc][p := r]
  }

  /** Chain `h` longer by `r`, or a new chain of `r` alone when `p` is 0. */
  ghost function Grown(C: Chains, p: nat, h: nat, r: nat): (D: Chains)
    requires p != 0 ==> h in C
  {
    if p == 0 then C[r := [r]] else C[h := C[h] + [r]]
  }

  lemma LongerIsChain(F: seq<nat>, s: seq<nat>, r: nat, eoc: nat)
    requires IsChain(F, s) && IsCluster(F, r) && r !in s && eoc >= |F|
    ensures LinkAt(F, s, |s| - 1)
    ensures IsChain(Linked(F, s[|s| - 1], r, eoc), s + [r])
  {
    assert LinkAt(F, s, |s| - 1);
    var p := s[|s| - 1];
    var G := Linked(F, p, r, eoc);
    var t := s + [r];
    forall i | 0 <= i < |t| ensures LinkAt(G, t, i) {
      if i < |s| {
        assert LinkAt(F, s, i) && s[i] in s;
        if i < |s| - 1 { Acyclic(F, s, i, |s| - 1); }
      }
    }
  }

  lemma OtherChainGrown(F: seq<nat>, t: seq<nat>, p: nat, r: nat, eoc: nat)
    requires IsChain(F, t) && IsCluster(F, r) && r !in t && p !in t && (p == 0 || IsCluster(F, p))
    ensures IsChain(Linked(F, p, r, eoc), t)
  {
    forall c | c in t ensures IsCluster(F, c) && Linked(F, p, r, eoc)[c] == F[c] { UsedInChain(F, t, c); }
    ChainKept(F, Linked(F, p, r, eoc), t);
  }

  /** `r` is the cluster to add: free, hence on no chain. `p` is 0 or ends chain `h`. */
  ghost predicate CanGrow(F: seq<nat>, C: Chains, p: nat, h: nat, r: nat) {
    && IsCluster(F, r) && F[r] == 0
    && (p != 0 ==> h in C && |C[h]| > 0 && p == C[h][|C[h]| - 1] && IsCluster(F, p))
  }

  lemma FreeNotOwned(F: seq<nat>, C: Chains, r: nat, g: nat)
    requires AllChains(F, C) && IsCluster(F, r) && F[r] == 0 && g in C
    ensures r !in C[g]
  {
    if r in C[g] { UsedInChain(F, C[g], r); }
  }

  lemma GrownChains(F: seq<nat>, C: Chains, p: nat, h: nat, r: nat, eoc: nat)
    requires AllChains(F, C) && AllApart(C) && CanGrow(F, C, p, h, r) && eoc >= |F|
    ensures AllChains(Linked(F, p, r, eoc), Grown(C, p, h, r))
  {
    var G, D := Linked(F, p, r, eoc), Grown(C, p, h, r);
    forall g | g in D ensures IsChain(G, D[g]) && D[g][0] == g {
      if p == 0 && g == r {
        assert LinkAt(G, D[g], 0);
      } else {
        assert IsChain(F, C[g]);
        FreeNotOwned(F, C, r, g);
        if p != 0 && g == h {
          LongerIsChain(F, C[h], r, eoc);
        } else {
          NotOnOther(F, C, p, h, g);
          OtherChainGrown(F, C[g], p, r, eoc);
        }
      }
    }
  }

  lemma NotOnOther(F: seq<nat>, C: Chains, p: nat, h: nat, g: nat)
    requires AllChains(F, C) && AllApart(C) && g in C
    requires p != 0 ==> h in C && g != h && p in C[h]
    ensures p !in C[g]
  {
    if p == 0 {
      if p in C[g] { UsedInChain(F, C[g], p); }
    } else {
      assert Apart(C[h], C[g]);
    }
  }

  lemma GrownApart(C: Chains, p: nat, h: nat, r: nat)
    requires AllApart(C) && (p != 0 ==> h in C)
    requires forall g :: g in C ==> r !in C[g]
    ensures AllApart(Grown(C, p, h, r))
  {
    var D := Grown(C, p, h, r);
    forall g, k | g in D && k in D && g != k ensures Apart(D[g], D[k]) {
      if g in C && k in C { assert Apart(C[g], C[k]); }
      forall c | c in D[g] ensures c !in D[k] { }
    }
  }

  lemma GrownOwned(F: seq<nat>, C: Chains, p: nat, h: nat, r: nat, c: nat)
    requires AllChains(F, C) && AllOwned(F, C) && CanGrow(F, C, p, h, r) && IsCluster(F, c)
    requires c == r || c == p || F[c] != 0
    ensures Owned(Grown(C, p, h, r), c)
  {
    var D := Grown(C, p, h, r);
    if c == r {
      var k := if p == 0 then r else h;
      assert k in D && c in D[k];
    } else if c == p {
      assert h in D && c in D[h];
    } else {
      assert Owned(C, c);
      var g :| g in C && c in C[g];
      if g == r {
        assert IsChain(F, C[g]) && C[g][0] in C[g];
        FreeNotOwned(F, C, r, g);
      }
      assert g in D && c in D[g];
    }
  }

  /** Stretching a chain by a free cluster, or starting a chain with one, keeps the table well formed;
      only that chain changes and exactly one entry stops being free. */
  lemma GrowKeepsForm(F: seq<nat>, C: Chains, p: nat, h: nat, r: nat, eoc: nat)
    requires WellFormed(F, C) && CanGrow(F, C, p, h, r) && eoc >= |F|
    ensures WellFormed(Linked(F, p, r, eoc), Grown(C, p, h, r))
  {
    var G, D := Linked(F, p, r, eoc), Grown(C, p, h, r);
    GrownChains(F, C, p, h, r, eoc);
    forall g | g in C ensures r !in C[g] { FreeNotOwned(F, C, r, g); }
    GrownApart(C, p, h, r);
    forall c | IsCluster(G, c) && G[c] != 0 ensures Owned(D, c) { GrownOwned(F, C, p, h, r, c); }
  }
}
