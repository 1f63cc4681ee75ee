/**
 * The transaction engine: the `Context` class of database.py, a stack of
 * layers with the base layer at index 0. `get` and `numequalto` scan the stack;
 * `set` and `unset` change the top layer only; `begin` and `rollback` push and
 * pop; `commit` folds every transaction layer into the base.
 *
 * The results the source prints become return values: an `Option` for `get`
 * (`None` where the source prints "NULL" for a key nobody mentions), an `int`
 * for `numequalto`, a `Status` for `rollback` and `commit`.
 */
module Database {
  import opened Frames
  import opened Stack
  import opened Fold

  datatype Status = Success | InvalidRollback | InvalidCommit

  class Context {
    var frames: seq<Frame>

    /** The stack is never empty and no layer both assigns and deletes a key. */
    ghost predicate Valid()
      reads this
    {
      |frames| >= 1 && AllWellFormed(frames)
    }

    /** The count invariant over every prefix of the stack. */
    ghost predicate CountsHold()
      reads this
    {
      PrefixCounts(frames)
    }

    constructor ()
      ensures Valid() && CountsHold()
      ensures frames == [EmptyFrame]
    {
      frames := [EmptyFrame];
      InitialCounts();
    }

    /** The innermost layer; whatever it says about a key is what the whole
        context says. */
    function CurrentFrame(): (f: Frame)
      reads this
      requires Valid()
      ensures forall k :: f.Lookup(k) != Untouched ==> Resolve(frames, k) == f.Lookup(k)
    {
      frames[|frames| - 1]
    }

    /** Scans the layers from the top: a deletion yields "NULL", an assignment
        its value; a key no layer mentions yields nothing. */
    method Get(k: Key) returns (value: Option<Value>)
      requires Valid()
      ensures value == Stack.Get(frames, k)
    {
      value := None;
      var i := |frames|;
      assert frames[..i] == frames;
      while i > 0
        invariant 0 <= i <= |frames|
        invariant Resolve(frames[..i], k) == Resolve(frames, k)
        invariant value == None
      {
        var frame := frames[i - 1];
        assert frames[..i][..i - 1] == frames[..i - 1];
        if frame.IsUnset(k) {
          value := Some(NULL);
          break;
        }
        value := frame.Get(k);
        if value.Some? {
          break;
        }
        i := i - 1;
      }
    }

    /** Sums the layers' deltas for `v`; while the count invariant holds that is
        the number of keys whose value is `v`, 0 for a value nobody holds. */
    method NumEqualTo(v: Value) returns (count: int)
      requires Valid()
      ensures count == Total(frames, v)
      ensures CountsHold() && v != NULL ==> count == |KeysWith(frames, v)|
    {
      count := 0;
      var i := |frames|;
      assert frames[..i] == frames;
      while i > 0
        invariant 0 <= i <= |frames|
        invariant count + Total(frames[..i], v) == Total(frames, v)
      {
        assert frames[..i][..i - 1] == frames[..i - 1];
        count := count + frames[i - 1].NumEqualTo(v);
        i := i - 1;
      }
      assert frames[..|frames|] == frames;
    }

    method Set(k: Key, v: Value)
      requires Valid()
      modifies this
      ensures Valid() && frames == SetTop(old(frames), k, v)
      ensures Stack.Get(frames, k) == Some(v)
      ensures old(CountsHold()) ==> CountsHold()
    {
      var current := Get(k);
      var frame := CurrentFrame();
      if CountsHold() {
        SetTopKeepsCounts(frames, k, v);
      }
      frames := frames[|frames| - 1 := frame.Set(k, v, current)];
    }

    method Unset(k: Key)
      requires Valid()
      modifies this
      ensures Valid() && frames == UnsetTop(old(frames), k)
      ensures Stack.Get(frames, k) == Some(NULL)
      ensures old(CountsHold()) ==> CountsHold()
    {
      var current := Get(k);
      var frame := CurrentFrame();
      if CountsHold() {
        UnsetTopKeepsCounts(frames, k);
      }
      frames := frames[|frames| - 1 := frame.Unset(k, current)];
    }

    method Begin()
      requires Valid()
      modifies this
      ensures Valid() && frames == Push(old(frames))
      ensures forall k :: Stack.Get(frames, k) == Stack.Get(old(frames), k)
      ensures forall v :: Total(frames, v) == Total(old(frames), v)
      ensures old(CountsHold()) ==> CountsHold()
    {
      if CountsHold() {
        PushKeepsCounts(frames);
      }
      frames := frames + [EmptyFrame];
    }

    method Rollback() returns (status: Status)
      requires Valid()
      modifies this
      ensures Valid()
      ensures |old(frames)| == 1 ==> status == InvalidRollback && frames == old(frames)
      ensures |old(frames)| > 1 ==> status == Success && frames == Pop(old(frames))
      ensures old(CountsHold()) ==> CountsHold()
    {
      if |frames| == 1 {
        status := InvalidRollback;
      } else {
        if CountsHold() {
          PopKeepsCounts(frames);
        }
        frames := frames[..|frames| - 1];
        status := Success;
      }
    }

    /**
     * Folds every transaction layer into the base, walking them from the top
     * and letting the first (highest) decision met for each key win; deletions
     * of a layer are folded before its assignments. The base layer's
     * `decrease` resolves each key through the stack as it stands, the layer
     * being folded still on it, so its counts end as `FoldedCounts` says and
     * not as the count invariant would need.
     */
    method Commit() returns (status: Status)
      requires Valid()
      modifies this
      ensures Valid() && |frames| == 1
      ensures |old(frames)| == 1 ==> status == InvalidCommit && frames == old(frames)
      ensures |old(frames)| > 1 ==> status == Success
      ensures forall k :: frames[0].Lookup(k) == Resolve(old(frames), k)
      ensures forall k :: Stack.Get(frames, k) == Stack.Get(old(frames), k)
      ensures FoldedCounts(old(frames[0]), old(frames[1..]), frames[0], Mentioned(old(frames[1..])))
    {
      ghost var b0 := frames[0];
      var uppers := frames[1..];
      assert frames == [b0] + uppers;
      var seen: set<Key> := {};
      var n := |uppers|;
      if n == 0 {
        status := InvalidCommit;
        FoldedAll(b0, uppers, b0, seen);
        return;
      }
      while n > 0
        invariant 0 <= n <= |uppers|
        invariant |frames| == n + 1 && frames[1..] == uppers[..n]
        invariant Valid()
        invariant forall j :: j in seen <==> Resolve(uppers[n..], j) != Untouched
        invariant FoldedDecisions(b0, uppers, frames[0], seen) && FoldedCounts(b0, uppers, frames[0], seen)
      {
        seen := FoldLayer(uppers[n - 1], b0, uppers, n, seen);
        n := n - 1;
      }
      assert uppers[0..] == uppers;
      FoldedAll(b0, uppers, frames[0], seen);
      assert frames == [frames[0]];
      status := Success;
    }

    /** Folds the top layer, layer `n - 1` of `uppers`, into the base and pops it. */
    method FoldLayer(frame: Frame, ghost b0: Frame, ghost uppers: seq<Frame>, ghost n: int, seen0: set<Key>)
      returns (seen: set<Key>)
      requires Valid() && b0.WellFormed() && 1 <= n <= |uppers| && frame == uppers[n - 1]
      requires |frames| == n + 1 && frames[1..] == uppers[..n]
      requires forall j :: j in seen0 <==> Resolve(uppers[n..], j) != Untouched
      requires FoldedDecisions(b0, uppers, frames[0], seen0) && FoldedCounts(b0, uppers, frames[0], seen0)
      modifies this
      ensures Valid() && |frames| == n && frames[1..] == uppers[..n - 1]
      ensures forall j :: j in seen <==> Resolve(uppers[n - 1..], j) != Untouched
      ensures FoldedDecisions(b0, uppers, frames[0], seen) && FoldedCounts(b0, uppers, frames[0], seen)
    {
      assert frame == frames[n];
      seen := FoldDeletions(frame, b0, uppers, n, seen0);
      seen := FoldAssignments(frame, b0, uppers, n, seen);
      forall j ensures j in seen <==> Resolve(uppers[n - 1..], j) != Untouched {
        ResolveFrom(uppers, n, j);
      }
      assert frames[..n][1..] == uppers[..n - 1];
      frames := frames[..|frames| - 1];
    }

    /** The first half of folding layer `n - 1` of `uppers` (the top of the
        stack) into the base: each deletion whose key no higher layer decided
        becomes a deletion in the base. */
    method FoldDeletions(frame: Frame, ghost b0: Frame, ghost uppers: seq<Frame>, ghost n: int, seen0: set<Key>)
      returns (seen: set<Key>)
      requires Valid() && b0.WellFormed() && 1 <= n <= |uppers| && frame == uppers[n - 1]
      requires |frames| == n + 1 && frames[1..] == uppers[..n]
      requires forall j :: j in seen0 <==> Resolve(uppers[n..], j) != Untouched
      requires FoldedDecisions(b0, uppers, frames[0], seen0) && FoldedCounts(b0, uppers, frames[0], seen0)
      modifies this
      ensures Valid() && |frames| == n + 1 && frames[1..] == uppers[..n]
      ensures forall j :: j in seen <==> Resolve(uppers[n..], j) != Untouched || j in frame.deleted
      ensures FoldedDecisions(b0, uppers, frames[0], seen) && FoldedCounts(b0, uppers, frames[0], seen)
    {
      seen := seen0;
      var todo := frame.AllDeleted();
      while todo != {}
        invariant todo <= frame.deleted
        invariant |frames| == n + 1 && frames[1..] == uppers[..n]
        invariant Valid()
        invariant forall j :: j in seen <==> Resolve(uppers[n..], j) != Untouched || j in frame.deleted - todo
        invariant FoldedDecisions(b0, uppers, frames[0], seen) && FoldedCounts(b0, uppers, frames[0], seen)
      {
        var k :| k in todo;
        todo := todo - {k};
        if k !in seen {
          assert frames == [frames[0]] + uppers[..n];
          var current := Get(k);
          FoldUnsetStep(b0, uppers, n, frames[0], seen, k);
          frames := frames[0 := frames[0].Unset(k, current)];
          seen := seen + {k};
        }
      }
    }

    /** The second half: each assignment whose key neither a higher layer nor
        this layer's deletions decided becomes an assignment in the base. */
    method FoldAssignments(frame: Frame, ghost b0: Frame, ghost uppers: seq<Frame>, ghost n: int, seen0: set<Key>)
      returns (seen: set<Key>)
      requires Valid() && b0.WellFormed() && 1 <= n <= |uppers| && frame == uppers[n - 1] && frame.WellFormed()
      requires |frames| == n + 1 && frames[1..] == uppers[..n]
      requires forall j :: j in seen0 <==> Resolve(uppers[n..], j) != Untouched || j in frame.deleted
      requires FoldedDecisions(b0, uppers, frames[0], seen0) && FoldedCounts(b0, uppers, frames[0], seen0)
      modifies this
      ensures Valid() && |frames| == n + 1 && frames[1..] == uppers[..n]
      ensures forall j :: j in seen <==> Resolve(uppers[n..], j) != Untouched || j in frame.deleted || j in frame.data
      ensures FoldedDecisions(b0, uppers, frames[0], seen) && FoldedCounts(b0, uppers, frames[0], seen)
    {
      seen := seen0;
      var keys := frame.Keys();
      while keys != {}
        invariant keys <= frame.data.Keys
        invariant |frames| == n + 1 && frames[1..] == uppers[..n]
        invariant Valid()
        invariant forall j :: j in seen <==>
                    Resolve(uppers[n..], j) != Untouched || j in frame.deleted || j in frame.data.Keys - keys
        invariant FoldedDecisions(b0, uppers, frames[0], seen) && FoldedCounts(b0, uppers, frames[0], seen)
      {
        var k :| k in keys;
        keys := keys - {k};
        if k !in seen {
          assert frames == [frames[0]] + uppers[..n];
          var current := Get(k);
          FoldSetStep(b0, uppers, n, frames[0], seen, k);
          frames := frames[0 := frames[0].Set(k, frame.Get(k).value, current)];
          seen := seen + {k};
        }
      }
    }

    /**
     * The commit with the count bookkeeping the transaction engine intends:
     * every transaction layer's net decision per key is merged first and then
     * applied to the base layer as if it were the only layer, so that its
     * `decrease` resolves each key through the base alone. Every `get` and
     * every `numequalto` answer is the same before and after.
     */
    method CommitOntoBase() returns (status: Status)
      requires Valid()
      modifies this
      ensures Valid() && |frames| == 1
      ensures |old(frames)| == 1 ==> status == InvalidCommit && frames == old(frames)
      ensures |old(frames)| > 1 ==> status == Success
      ensures forall k :: frames[0].Lookup(k) == Resolve(old(frames), k)
      ensures forall k :: Stack.Get(frames, k) == Stack.Get(old(frames), k)
      ensures old(CountsHold()) ==> CountsHold()
      ensures old(CountsHold()) ==> forall v :: v != NULL ==> Total(frames, v) == Total(old(frames), v)
    {
      ghost var fs0 := frames;
      ghost var counted := CountsHold();
      var base := frames[0];
      var uppers := frames[1..];
      assert frames == [base] + uppers;
      if |uppers| == 0 {
        status := InvalidCommit;
        FoldedAll(base, uppers, base, {});
        return;
      }
      if counted {
        assert frames[..1] == [base];
      }
      var pending := Mentioned(uppers);
      while pending != {}
        invariant pending <= Mentioned(uppers)
        invariant base.WellFormed()
        invariant FoldedDecisions(fs0[0], uppers, base, Mentioned(uppers) - pending)
        invariant counted ==> CountsExact([base])
      {
        var k :| k in pending;
        ghost var done := Mentioned(uppers) - pending;
        pending := pending - {k};
        assert Mentioned(uppers) - pending == done + {k};
        ResolveMentioned(uppers, k);
        var current := Stack.Get([base], k);
        var decision := Resolve(uppers, k);
        ghost var before := base;
        if decision == Deleted {
          base := base.Unset(k, current);
          if counted {
            UnsetTopCounts([before], k);
            assert [base] == UnsetTop([before], k);
          }
        } else {
          base := base.Set(k, decision.value, current);
          if counted {
            SetTopCounts([before], k, decision.value);
            assert [base] == SetTop([before], k, decision.value);
          }
        }
      }
      forall j ensures j in Mentioned(uppers) <==> Resolve(uppers, j) != Untouched {
        ResolveMentioned(uppers, j);
      }
      FoldedAll(fs0[0], uppers, base, Mentioned(uppers));
      frames := [base];
      status := Success;
      if counted {
        SingleLayerCounts(base);
        assert fs0[..|fs0|] == fs0;
        forall v | v != NULL ensures Total(frames, v) == Total(fs0, v) {
          KeysWithSame(fs0, frames, v);
        }
      }
    }
  }

  /** The stack after `begin; set a 10` on a fresh context, and what the
      literal commit's bookkeeping does with it. */
  lemma OneAssignmentInTransaction()
    ensures var fs := SetTop(Push([EmptyFrame]), "a", "10");
            && fs == [EmptyFrame, Frame(map["a" := "10"], {}, map["10" := 1])]
            && Total(fs, "10") == 1
            && Mentioned(fs[1..]) == {"a"}
            && Dropped(fs[0], fs[1..], {"a"}, "10") == 1
            && Added(fs[1..], {"a"}, "10") == 1
  {
    var pushed := Push([EmptyFrame]);
    assert pushed == [EmptyFrame, EmptyFrame];
    assert pushed[..1] == [EmptyFrame] && [EmptyFrame][..0] == [];
    assert EmptyFrame.Lookup("a") == Untouched;
    assert Resolve([EmptyFrame], "a") == Untouched;
    assert Resolve(pushed, "a") == Resolve(pushed[..1], "a");
    assert Get(pushed, "a") == None;
    var top := Frame(map["a" := "10"], {}, map["10" := 1]);
    var fs := SetTop(pushed, "a", "10");
    assert EmptyFrame.Decrease("a", None) == EmptyFrame;
    assert EmptyFrame.Increase("10") == Frame(map[], {}, map["10" := 1]);
    var none: set<Key> := {};
    assert none - {"a"} == none;
    assert EmptyFrame.Set("a", "10", None) == top;
    assert fs == [EmptyFrame, top];
    assert fs[..1] == [EmptyFrame] && fs[1..] == [top] && [top][..0] == [];
    assert Total([EmptyFrame], "10") == 0;
    assert top.NumEqualTo("10") == 1;
    assert Total(fs, "10") == Total([EmptyFrame], "10") + 1;
    assert Mentioned([top]) == {"a"};
    assert Resolve([top], "a") == Assigned("10");
    ResolveConcat([EmptyFrame], [top], "a");
    assert CommitDisplaced(EmptyFrame, [top], "a") == Some("10");
    assert CommitAssigned([top], "a") == Some("10");
    NothingFolded(EmptyFrame, [top], "10");
    DroppedGrows(EmptyFrame, [top], {}, "a", "10");
    AddedGrows([top], {}, "a", "10");
    assert {} + {"a"} == {"a"};
    assert Dropped(EmptyFrame, [top], {"a"}, "10") == 1;
    assert Added([top], {"a"}, "10") == 1;
  }

  /** `begin; set a 10; commit; get a; numequalto 10` on a fresh context: the
      key holds 10, yet the literal commit leaves the count of 10 at 0. */
  method CommitMiscount() returns (value: Option<Value>, count: int)
    ensures value == Some("10") && count == 0
  {
    var db := new Context();
    db.Begin();
    db.Set("a", "10");
    OneAssignmentInTransaction();
    var status := db.Commit();
    value := db.Get("a");
    count := db.NumEqualTo("10");
    assert [db.frames[0]][..0] == [];
  }

  /** The same session with the corrected commit counts the key. */
  method CommitOntoBaseCounts() returns (value: Option<Value>, count: int)
    ensures value == Some("10") && count == 1
  {
    var db := new Context();
    db.Begin();
    db.Set("a", "10");
    OneAssignmentInTransaction();
    var status := db.CommitOntoBase();
    value := db.Get("a");
    count := db.NumEqualTo("10");
  }
}
