/**
 * What `Context.commit` of database.py does to the base layer, stated over the
 * stack as it was before the commit: the base layer `b0` and the transaction
 * layers `uppers` above it (bottom first).
 *
 * The commit walks the transaction layers from the top, and for every key not
 * yet seen applies the layer's deletion or assignment to the base layer. The
 * base layer's `decrease` withdraws its own assignment of the key when it has
 * one; otherwise it consults the context while the layer being folded is still
 * on the stack, so the value it withdraws is the value the key holds at the
 * top of the stack, which the base layer never counted.
 */
module Fold {
  import opened Frames
  import opened Stack

  /** The value whose count the base layer's `decrease` withdraws when the
      commit folds `k`: the base's own assignment if it has one, otherwise the
      key's value as the unfolded stack resolves it. */
  function CommitDisplaced(b0: Frame, uppers: seq<Frame>, k: Key): Option<Value>
  {
    if k in b0.data then Some(b0.data[k]) else Get([b0] + uppers, k)
  }

  /** The value the commit assigns `k` in the base layer, if it assigns one. */
  function CommitAssigned(uppers: seq<Frame>, k: Key): Option<Value>
  {
    match Resolve(uppers, k)
    case Assigned(v) => Some(v)
    case _ => None
  }

  /** How many of the folded keys `seen` had a count of `v` withdrawn. */
  function Dropped(b0: Frame, uppers: seq<Frame>, seen: set<Key>, v: Value): nat
  {
    |set k | k in seen && CommitDisplaced(b0, uppers, k) == Some(v)|
  }

  /** How many of the folded keys `seen` had a count of `v` added. */
  function Added(uppers: seq<Frame>, seen: set<Key>, v: Value): nat
  {
    |set k | k in seen && CommitAssigned(uppers, k) == Some(v)|
  }

  lemma NothingFolded(b0: Frame, uppers: seq<Frame>, v: Value)
    ensures Dropped(b0, uppers, {}, v) == 0 && Added(uppers, {}, v) == 0
  {
    assert (set k | k in {} && CommitDisplaced(b0, uppers, k) == Some(v)) == {};
    assert (set k | k in {} && CommitAssigned(uppers, k) == Some(v)) == {};
  }

  lemma DroppedGrows(b0: Frame, uppers: seq<Frame>, seen: set<Key>, k: Key, v: Value)
    requires k !in seen
    ensures Dropped(b0, uppers, seen + {k}, v) ==
            Dropped(b0, uppers, seen, v) + (if CommitDisplaced(b0, uppers, k) == Some(v) then 1 else 0)
  {
    var a := set j | j in seen && CommitDisplaced(b0, uppers, j) == Some(v);
    var b := set j | j in seen + {k} && CommitDisplaced(b0, uppers, j) == Some(v);
    if CommitDisplaced(b0, uppers, k) == Some(v) { assert b == a + {k}; } else { assert b == a; }
  }

  lemma AddedGrows(uppers: seq<Frame>, seen: set<Key>, k: Key, v: Value)
    requires k !in seen
    ensures Added(uppers, seen + {k}, v) ==
            Added(uppers, seen, v) + (if CommitAssigned(uppers, k) == Some(v) then 1 else 0)
  {
    var a := set j | j in seen && CommitAssigned(uppers, j) == Some(v);
    var b := set j | j in seen + {k} && CommitAssigned(uppers, j) == Some(v);
    if CommitAssigned(uppers, k) == Some(v) { assert b == a + {k}; } else { assert b == a; }
  }

  /** The commit's progress after folding the keys `seen`: they carry the
      transaction's decision, every other key the base layer's old one. */
  ghost predicate FoldedDecisions(b0: Frame, uppers: seq<Frame>, base: Frame, seen: set<Key>)
  {
    && (forall k :: k in seen ==> base.Lookup(k) == Resolve(uppers, k))
    && (forall k :: k !in seen ==> base.Lookup(k) == b0.Lookup(k))
  }

  /** The base layer's counts after folding the keys `seen` literally. */
  ghost predicate FoldedCounts(b0: Frame, uppers: seq<Frame>, base: Frame, seen: set<Key>)
  {
    forall v :: base.NumEqualTo(v) == b0.NumEqualTo(v) - Dropped(b0, uppers, seen, v) + Added(uppers, seen, v)
  }

  /** Which keys the walk has seen once the layers from `n` up are folded. */
  lemma ResolveFrom(uppers: seq<Frame>, n: int, k: Key)
    requires 1 <= n <= |uppers|
    ensures Resolve(uppers[n - 1..], k) != Untouched <==>
            (Resolve(uppers[n..], k) != Untouched || k in uppers[n - 1].deleted || k in uppers[n - 1].data)
  {
    assert uppers[n - 1..] == [uppers[n - 1]] + uppers[n..];
    ResolveConcat([uppers[n - 1]], uppers[n..], k);
    assert [uppers[n - 1]][..0] == [];
  }

  /** When the commit reaches key `k` in layer `n - 1` (the top of the stack it
      is folding), `k` has not been folded from a higher layer and the base
      still says about it what it said before: the context resolves `k` as the
      unfolded stack did, and the base's `decrease` withdraws `CommitDisplaced`. */
  lemma {:induction false} CommitSees(b0: Frame, uppers: seq<Frame>, n: int, base: Frame, k: Key)
    requires 1 <= n <= |uppers| && uppers[n - 1].Lookup(k) != Untouched
    requires Resolve(uppers[n..], k) == Untouched
    requires base.Lookup(k) == b0.Lookup(k) && base.WellFormed() && b0.WellFormed()
    ensures Resolve(uppers, k) == uppers[n - 1].Lookup(k)
    ensures Get([base] + uppers[..n], k) == Get([b0] + uppers, k)
    ensures base.Displaced(k, Get([base] + uppers[..n], k)) == CommitDisplaced(b0, uppers, k)
  {
    assert uppers == uppers[..n] + uppers[n..];
    ResolveConcat(uppers[..n], uppers[n..], k);
    var cur := [base] + uppers[..n];
    assert cur[|cur| - 1] == uppers[..n][n - 1] == uppers[n - 1];
    assert Resolve(cur, k) == uppers[n - 1].Lookup(k);
    ResolveConcat([b0], uppers, k);
  }

  /** Folding a deletion the walk meets first keeps the literal commit's books. */
  lemma FoldUnsetStep(b0: Frame, uppers: seq<Frame>, n: int, base: Frame, seen: set<Key>, k: Key)
    requires 1 <= n <= |uppers| && k in uppers[n - 1].deleted && k !in seen
    requires Resolve(uppers[n..], k) == Untouched
    requires FoldedDecisions(b0, uppers, base, seen) && FoldedCounts(b0, uppers, base, seen)
    requires base.WellFormed() && b0.WellFormed()
    ensures FoldedDecisions(b0, uppers, base.Unset(k, Get([base] + uppers[..n], k)), seen + {k})
    ensures FoldedCounts(b0, uppers, base.Unset(k, Get([base] + uppers[..n], k)), seen + {k})
  {
    CommitSees(b0, uppers, n, base, k);
    var base' := base.Unset(k, Get([base] + uppers[..n], k));
    forall v ensures base'.NumEqualTo(v) ==
      b0.NumEqualTo(v) - Dropped(b0, uppers, seen + {k}, v) + Added(uppers, seen + {k}, v)
    {
      DroppedGrows(b0, uppers, seen, k, v);
      AddedGrows(uppers, seen, k, v);
    }
  }

  /** Folding an assignment the walk meets first keeps the literal commit's books. */
  lemma FoldSetStep(b0: Frame, uppers: seq<Frame>, n: int, base: Frame, seen: set<Key>, k: Key)
    requires 1 <= n <= |uppers| && k in uppers[n - 1].data && uppers[n - 1].WellFormed() && k !in seen
    requires Resolve(uppers[n..], k) == Untouched
    requires FoldedDecisions(b0, uppers, base, seen) && FoldedCounts(b0, uppers, base, seen)
    requires base.WellFormed() && b0.WellFormed()
    ensures FoldedDecisions(b0, uppers, base.Set(k, uppers[n - 1].data[k], Get([base] + uppers[..n], k)), seen + {k})
    ensures FoldedCounts(b0, uppers, base.Set(k, uppers[n - 1].data[k], Get([base] + uppers[..n], k)), seen + {k})
  {
    CommitSees(b0, uppers, n, base, k);
    var v0 := uppers[n - 1].data[k];
    var base' := base.Set(k, v0, Get([base] + uppers[..n], k));
    assert CommitAssigned(uppers, k) == Some(v0);
    forall v ensures base'.NumEqualTo(v) ==
      b0.NumEqualTo(v) - Dropped(b0, uppers, seen + {k}, v) + Added(uppers, seen + {k}, v)
    {
      DroppedGrows(b0, uppers, seen, k, v);
      AddedGrows(uppers, seen, k, v);
    }
  }

  /** Once every transaction layer is folded, the base layer alone says about
      every key what the whole stack said. */
  lemma FoldedAll(b0: Frame, uppers: seq<Frame>, base: Frame, seen: set<Key>)
    requires forall j :: j in seen <==> Resolve(uppers, j) != Untouched
    requires FoldedDecisions(b0, uppers, base, seen)
    ensures seen == Mentioned(uppers)
    ensures forall k :: Resolve([base], k) == base.Lookup(k) == Resolve([b0] + uppers, k)
  {
    forall k ensures k in seen <==> k in Mentioned(uppers) {
      ResolveMentioned(uppers, k);
    }
    forall k ensures Resolve([base], k) == base.Lookup(k) == Resolve([b0] + uppers, k) {
      assert [base][..0] == [] && [b0][..0] == [];
      ResolveConcat([b0], uppers, k);
    }
  }

  /**
   * A key the base layer did not assign contributes nothing to the literal
   * commit's counts of any value other than "NULL": the value withdrawn and
   * the value added are the same. The transaction's own +1 for that value is
   * discarded with its layer, so the count ends one short.
   */
  lemma NewKeyCountsCancel(b0: Frame, uppers: seq<Frame>, k: Key, v: Value)
    requires k !in b0.data && k in Mentioned(uppers) && v != NULL
    ensures CommitDisplaced(b0, uppers, k) == Some(v) <==> CommitAssigned(uppers, k) == Some(v)
  {
    ResolveMentioned(uppers, k);
    ResolveConcat([b0], uppers, k);
  }
}
