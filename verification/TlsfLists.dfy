/** The segregated free lists (system/tlsf.c, remove_free_block and insert_free_block): unlinking and
    pushing keep every list intact, and the blocks met when following next_free from the head of a
    list are exactly the free blocks of its class. */
module TlsfLists {
  import opened Bits
  import opened TlsfMapping
  import opened TlsfHeap

  // ------------------------------------------------------------------ unlinking a block

  /** The words remove_free_block writes; one of them may lie in block_null. */
  ghost predicate UnlinkWrites(m: seq<Word>, m': seq<Word>, b: int) {
    var nx, pv := At(m, b + 2), At(m, b + 3);
    ChangesOnly(m, m', {nx + 3, pv + 2}) && At(m', nx + 3) == pv && At(m', pv + 2) == nx
  }

  ghost function UnlinkedHeads(m: seq<Word>, heads: seq<int>, b: int, c: int): seq<int> {
    if 0 <= c < |heads| && heads[c] == b then heads[c := At(m, b + 2)] else heads
  }

  /** The link words of a remaining member, and those of its list neighbours, after unlinking `b`. */
  lemma UnlinkWords(m: seq<Word>, heads: seq<int>, F: Members, nil: int, m': seq<Word>, b: int, q: int)
    requires Lists(m, heads, F, nil) && b in F && q in F && q != b && UnlinkWrites(m, m', b)
    ensures At(m', q + 2) == if q == At(m, b + 3) then At(m, b + 2) else At(m, q + 2)
    ensures At(m', q + 3) == if q == At(m, b + 2) then At(m, b + 3) else At(m, q + 3)
    ensures At(m, q + 2) == b ==> q == At(m, b + 3)
    ensures At(m, q + 3) == b ==> q == At(m, b + 2)
  {
    assert Linked(m, heads, F, nil, b) && Linked(m, heads, F, nil, q);
    var nx, pv := At(m, b + 2), At(m, b + 3);
    assert Placed(m, nil, b) && Placed(m, nil, q);
  }

  lemma UnlinkNext(m: seq<Word>, heads: seq<int>, F: Members, nil: int, m': seq<Word>, b: int, q: int)
    requires Lists(m, heads, F, nil) && b in F && q in F && q != b && UnlinkWrites(m, m', b)
    ensures NextOk(m', F - {b}, nil, q)
  {
    assert Linked(m, heads, F, nil, b) && Linked(m, heads, F, nil, q);
    var nx, pv, n2 := At(m, b + 2), At(m, b + 3), At(m, q + 2);
    UnlinkWords(m, heads, F, nil, m', b, q);
    if q == pv {
      if nx != nil { UnlinkWords(m, heads, F, nil, m', b, nx); }
    } else if n2 != nil {
      UnlinkWords(m, heads, F, nil, m', b, n2);
    }
  }

  lemma UnlinkPrev(m: seq<Word>, heads: seq<int>, F: Members, nil: int, m': seq<Word>, b: int, q: int)
    requires Lists(m, heads, F, nil) && b in F && q in F && q != b && UnlinkWrites(m, m', b)
    ensures PrevOk(m', UnlinkedHeads(m, heads, b, F[b].cls), F - {b}, nil, q)
  {
    assert Linked(m, heads, F, nil, b) && Linked(m, heads, F, nil, q);
    var nx, pv, p2 := At(m, b + 2), At(m, b + 3), At(m, q + 3);
    UnlinkWords(m, heads, F, nil, m', b, q);
    if q == nx {
      if pv != nil {
        UnlinkWords(m, heads, F, nil, m', b, pv);
        assert Linked(m, heads, F, nil, pv) && HeadOk(m, heads, F, nil, F[b].cls);
      }
    } else if p2 != nil {
      UnlinkWords(m, heads, F, nil, m', b, p2);
    }
  }

  lemma UnlinkHead(m: seq<Word>, heads: seq<int>, F: Members, nil: int, m': seq<Word>, b: int, c: int)
    requires Lists(m, heads, F, nil) && b in F && 0 <= c < CLASSES && UnlinkWrites(m, m', b)
    ensures HeadOk(m', UnlinkedHeads(m, heads, b, F[b].cls), F - {b}, nil, c)
  {
    assert Linked(m, heads, F, nil, b) && HeadOk(m, heads, F, nil, c);
    var nx, pv := At(m, b + 2), At(m, b + 3);
    if pv != nil { assert Linked(m, heads, F, nil, pv); }
    if nx != nil { assert Linked(m, heads, F, nil, nx); }
  }

  lemma UnlinkKeeps(m: seq<Word>, heads: seq<int>, F: Members, nil: int, m': seq<Word>, b: int)
    requires Lists(m, heads, F, nil) && b in F && UnlinkWrites(m, m', b)
    ensures Lists(m', UnlinkedHeads(m, heads, b, F[b].cls), F - {b}, nil)
  {
    var heads' := UnlinkedHeads(m, heads, b, F[b].cls);
    forall q | q in F - {b} ensures Linked(m', heads', F - {b}, nil, q) {
      UnlinkNext(m, heads, F, nil, m', b, q);
      UnlinkPrev(m, heads, F, nil, m', b, q);
    }
    forall c | 0 <= c < CLASSES ensures HeadOk(m', heads', F - {b}, nil, c) {
      UnlinkHead(m, heads, F, nil, m', b, c);
    }
  }

  // ------------------------------------------------------------------ pushing a block

  /** The words insert_free_block writes, for the list whose head was `head`. */
  ghost predicate PushWrites(m: seq<Word>, m': seq<Word>, nil: int, head: int, b: int) {
    ChangesOnly(m, m', {b + 2, b + 3, head + 3})
    && At(m', b + 2) == head && At(m', b + 3) == nil && At(m', head + 3) == b
  }

  /** Block `b` may join list `k.cls`: it overlaps no member and outranks all of them. */
  ghost predicate CanPush(m: seq<Word>, F: Members, nil: int, b: int, k: Member) {
    && b !in F && Placed(m, nil, b) && 0 <= k.cls < CLASSES
    && (forall q :: q in F ==> (q + 3 < b || b + 3 < q) && F[q].rank < k.rank)
  }

  lemma PushWords(m: seq<Word>, heads: seq<int>, F: Members, nil: int, m': seq<Word>, b: int, k: Member, q: int)
    requires Lists(m, heads, F, nil) && CanPush(m, F, nil, b, k) && q in F
    requires PushWrites(m, m', nil, heads[k.cls], b)
    ensures At(m', q + 2) == At(m, q + 2) && q != b
    ensures At(m', q + 3) == if q == heads[k.cls] then b else At(m, q + 3)
    ensures At(m, q + 2) != heads[k.cls] || q == At(m, heads[k.cls] + 3) || heads[k.cls] == nil
  {
    assert HeadOk(m, heads, F, nil, k.cls) && Linked(m, heads, F, nil, q);
    assert Placed(m, nil, b) && Placed(m, nil, q);
  }

  lemma PushLinked(m: seq<Word>, heads: seq<int>, F: Members, nil: int, m': seq<Word>, b: int, k: Member, q: int)
    requires Lists(m, heads, F, nil) && CanPush(m, F, nil, b, k) && q in F[b := k]
    requires PushWrites(m, m', nil, heads[k.cls], b)
    ensures Linked(m', heads[k.cls := b], F[b := k], nil, q)
  {
    var head := heads[k.cls];
    assert HeadOk(m, heads, F, nil, k.cls);
    if q == b {
      if head != nil { assert Linked(m, heads, F, nil, head); }
    } else {
      assert Linked(m, heads, F, nil, q);
      PushWords(m, heads, F, nil, m', b, k, q);
      var n2, p2 := At(m, q + 2), At(m, q + 3);
      if n2 != nil { PushWords(m, heads, F, nil, m', b, k, n2); }
      if p2 != nil { PushWords(m, heads, F, nil, m', b, k, p2); }
    }
  }

  lemma PushHead(m: seq<Word>, heads: seq<int>, F: Members, nil: int, m': seq<Word>, b: int, k: Member, c: int)
    requires Lists(m, heads, F, nil) && CanPush(m, F, nil, b, k) && 0 <= c < CLASSES
    requires PushWrites(m, m', nil, heads[k.cls], b)
    ensures HeadOk(m', heads[k.cls := b], F[b := k], nil, c)
  {
    assert HeadOk(m, heads, F, nil, c) && HeadOk(m, heads, F, nil, k.cls);
  }

  lemma PushApart(F: Members, nil: int, m: seq<Word>, b: int, k: Member)
    requires forall b, c :: b in F && c in F && b < c ==> b + 3 < c
    requires CanPush(m, F, nil, b, k)
    ensures var F' := F[b := k]; forall p, q :: p in F' && q in F' && p < q ==> p + 3 < q
  {}

  lemma PushKeeps(m: seq<Word>, heads: seq<int>, F: Members, nil: int, m': seq<Word>, b: int, k: Member)
    requires Lists(m, heads, F, nil) && CanPush(m, F, nil, b, k)
    requires PushWrites(m, m', nil, heads[k.cls], b)
    ensures Lists(m', heads[k.cls := b], F[b := k], nil)
  {
    var heads', F' := heads[k.cls := b], F[b := k];
    forall q | q in F' ensures Linked(m', heads', F', nil, q) {
      PushLinked(m, heads, F, nil, m', b, k, q);
    }
    forall c | 0 <= c < CLASSES ensures HeadOk(m', heads', F', nil, c) {
      PushHead(m, heads, F, nil, m', b, k, c);
    }
    PushApart(F, nil, m, b, k);
  }

  /** Finitely many ranks have a strict upper bound. */
  lemma {:induction false} RankBound(F: Members, S: set<int>) returns (top: int)
    ensures forall q :: q in S && q in F ==> F[q].rank < top
  {
    if S == {} {
      top := 0;
    } else {
      if forall q :: q !in S { assert false; }
      var b :| b in S;
      top := RankBound(F, S - {b});
      if b in F && F[b].rank >= top { top := F[b].rank + 1; }
    }
  }

  // ------------------------------------------------------------------ what the lists contain

  /** The blocks met when following next_free from `b`, as long as they are in `G`. */
  ghost function Follow(m: seq<Word>, G: set<int>, b: int): (r: seq<int>)
    decreases G
  {
    if b !in G then [] else [b] + Follow(m, G - {b}, At(m, b + 2))
  }

  /** `G` holds every member that can still be met from `b`. */
  ghost predicate Below(F: Members, G: set<int>, b: int) {
    G <= F.Keys && (b in F ==> forall q :: q in F && F[q].rank <= F[b].rank ==> q in G)
  }

  /** Following next_free visits members of one class, none twice, until it reaches block_null. */
  lemma {:induction false} FollowSound(m: seq<Word>, heads: seq<int>, F: Members, nil: int, G: set<int>, b: int)
    requires Lists(m, heads, F, nil) && (b == nil || b in F) && Below(F, G, b)
    ensures forall i :: 0 <= i < |Follow(m, G, b)| ==>
              var q := Follow(m, G, b)[i]; q in F && b in F && F[q].cls == F[b].cls && F[q].rank <= F[b].rank
    ensures forall i, j :: 0 <= i < j < |Follow(m, G, b)| ==> Follow(m, G, b)[i] != Follow(m, G, b)[j]
    ensures b != nil ==> |Follow(m, G, b)| > 0 && At(m, Follow(m, G, b)[|Follow(m, G, b)| - 1] + 2) == nil
    decreases G
  {
    if b in F {
      assert Linked(m, heads, F, nil, b);
      var nx := At(m, b + 2);
      if nx == nil { assert nx !in F; }
      FollowSound(m, heads, F, nil, G - {b}, nx);
      var rest := Follow(m, G - {b}, nx);
      assert Follow(m, G, b) == [b] + rest;
      assert nx == nil ==> rest == [];
      assert forall i :: 0 <= i < |rest| ==> F[rest[i]].rank < F[b].rank;
    } else {
      assert nil !in F && Follow(m, G, b) == [];
    }
  }

  /** What is met is followed by its next_free. */
  lemma {:induction false} FollowStep(m: seq<Word>, heads: seq<int>, F: Members, nil: int, G: set<int>, b: int, q: int)
    requires Lists(m, heads, F, nil) && b in F && Below(F, G, b)
    requires q in Follow(m, G, b) && At(m, q + 2) != nil
    ensures At(m, q + 2) in Follow(m, G, b)
    decreases G
  {
    assert Linked(m, heads, F, nil, b);
    var nx := At(m, b + 2);
    var rest := Follow(m, G - {b}, nx);
    assert Follow(m, G, b) == [b] + rest;
    if q == b {
      assert rest[0] == nx;
    } else if nx != nil {
      FollowStep(m, heads, F, nil, G - {b}, nx, q);
    }
  }

  /** Every member is met from the head of its class, which is therefore not block_null. */
  lemma {:induction false} FollowComplete(m: seq<Word>, heads: seq<int>, F: Members, nil: int, b: int, above: set<int>)
    requires Lists(m, heads, F, nil) && b in F
    requires forall q :: q in F && F[q].rank > F[b].rank ==> q in above
    ensures 0 <= F[b].cls < CLASSES && heads[F[b].cls] in F
    ensures b in Follow(m, F.Keys, heads[F[b].cls])
    decreases above
  {
    assert Linked(m, heads, F, nil, b);
    var pv, c := At(m, b + 3), F[b].cls;
    if pv != nil {
      assert Linked(m, heads, F, nil, pv);
      FollowComplete(m, heads, F, nil, pv, above - {pv});
      FollowStep(m, heads, F, nil, F.Keys, heads[c], pv);
    } else {
      assert Follow(m, F.Keys, b)[0] == b;
    }
  }

  /** The list of class `c`, read through the links, holds exactly the members filed under `c`. */
  lemma ListIsClass(m: seq<Word>, heads: seq<int>, F: Members, nil: int, c: int)
    requires Lists(m, heads, F, nil) && 0 <= c < CLASSES
    ensures forall b :: b in Follow(m, F.Keys, heads[c]) <==> b in F && F[b].cls == c
    ensures forall i, j :: 0 <= i < j < |Follow(m, F.Keys, heads[c])| ==>
      Follow(m, F.Keys, heads[c])[i] != Follow(m, F.Keys, heads[c])[j]
    ensures heads[c] == nil <==> forall b :: b in F ==> F[b].cls != c
  {
    assert HeadOk(m, heads, F, nil, c);
    assert nil !in F;
    FollowSound(m, heads, F, nil, F.Keys, heads[c]);
    forall b | b in F && F[b].cls == c ensures b in Follow(m, F.Keys, heads[c]) && heads[c] != nil {
      FollowComplete(m, heads, F, nil, b, F.Keys);
    }
  }
}
