/**
 * The stack of layers the `Context` class of database.py keeps, as a value:
 * index 0 is the base layer, the last element the innermost open transaction.
 * The functions here say what a key resolves to, what the layers' counts add
 * up to and how each context operation changes the stack; the lemmas prove the
 * invariant the counts exist for.
 */
module Stack {
  import opened Frames

  /** What the whole stack says about `k`: the say of the topmost layer that
      assigns or deletes it. */
  function Resolve(fs: seq<Frame>, k: Key): Decision
  {
    if |fs| == 0 then Untouched
    else match fs[|fs| - 1].Lookup(k)
      case Untouched => Resolve(fs[..|fs| - 1], k)
      case d => d
  }

  /** The context's `get`: "NULL" for a deleted key, the value of an assigned
      one, nothing for a key no layer mentions. */
  function Get(fs: seq<Frame>, k: Key): Option<Value>
  {
    match Resolve(fs, k)
    case Deleted => Some(NULL)
    case Assigned(v) => Some(v)
    case Untouched => None
  }

  /** Every key some layer of the stack assigns or deletes. */
  function Mentioned(fs: seq<Frame>): set<Key>
  {
    if |fs| == 0 then {}
    else Mentioned(fs[..|fs| - 1]) + fs[|fs| - 1].Keys() + fs[|fs| - 1].AllDeleted()
  }

  /** The sum of the layers' count deltas for `v`: what `numequalto` reports. */
  function Total(fs: seq<Frame>, v: Value): int
  {
    if |fs| == 0 then 0
    else Total(fs[..|fs| - 1], v) + fs[|fs| - 1].NumEqualTo(v)
  }

  /** The keys whose effective value is `v`, found by brute force. */
  function KeysWith(fs: seq<Frame>, v: Value): set<Key>
  {
    set k | k in Mentioned(fs) && Resolve(fs, k) == Assigned(v)
  }

  predicate AllWellFormed(fs: seq<Frame>)
  {
    forall j :: 0 <= j < |fs| ==> fs[j].WellFormed()
  }

  /** The count invariant: for every value other than the "NULL" sentinel, the
      summed deltas are the number of keys holding it. */
  ghost predicate CountsExact(fs: seq<Frame>)
  {
    forall v :: v != NULL ==> Total(fs, v) == |KeysWith(fs, v)|
  }

  /** The count invariant holds of every prefix of the stack, so that it
      survives popping layers off. */
  ghost predicate PrefixCounts(fs: seq<Frame>)
  {
    forall i :: 0 <= i <= |fs| ==> CountsExact(fs[..i])
  }

  // ---------------------------------------------------------------------------
  // What `Resolve` means

  /** The say of the topmost layer that mentions `k` is the stack's say. */
  lemma {:induction false} ResolveIsTopmost(fs: seq<Frame>, k: Key, j: int)
    requires 0 <= j < |fs| && fs[j].Lookup(k) != Untouched
    requires forall l :: j < l < |fs| ==> fs[l].Lookup(k) == Untouched
    ensures Resolve(fs, k) == fs[j].Lookup(k)
  {
    if j < |fs| - 1 {
      var p := fs[..|fs| - 1];
      assert fs[|fs| - 1].Lookup(k) == Untouched;
      assert forall l :: j < l < |p| ==> p[l] == fs[l];
      ResolveIsTopmost(p, k, j);
    }
  }

  /** A key resolves to nothing exactly when no layer mentions it. */
  lemma {:induction false} ResolveUntouched(fs: seq<Frame>, k: Key)
    ensures Resolve(fs, k) == Untouched <==> forall l :: 0 <= l < |fs| ==> fs[l].Lookup(k) == Untouched
  {
    if |fs| > 0 {
      var p := fs[..|fs| - 1];
      ResolveUntouched(p, k);
      assert forall l :: 0 <= l < |p| ==> p[l] == fs[l];
    }
  }

  lemma {:induction false} ResolveMentioned(fs: seq<Frame>, k: Key)
    ensures Resolve(fs, k) != Untouched <==> k in Mentioned(fs)
  {
    if |fs| > 0 {
      ResolveMentioned(fs[..|fs| - 1], k);
    }
  }

  /** Layers stacked on top decide first; below them only keys they leave alone. */
  lemma {:induction false} ResolveConcat(s: seq<Frame>, t: seq<Frame>, k: Key)
    ensures Resolve(s + t, k) == if Resolve(t, k) != Untouched then Resolve(t, k) else Resolve(s, k)
  {
    if |t| == 0 {
      assert s + t == s;
    } else {
      assert (s + t)[..|s + t| - 1] == s + t[..|t| - 1];
      ResolveConcat(s, t[..|t| - 1], k);
    }
  }

  lemma InKeysWith(fs: seq<Frame>, v: Value, k: Key)
    ensures k in KeysWith(fs, v) <==> Resolve(fs, k) == Assigned(v)
  {
    ResolveMentioned(fs, k);
  }

  /** When two stacks resolve every key but `k` alike, their counts of keys
      holding `w` differ only by what `k` resolves to. */
  lemma KeysWithChange(fs: seq<Frame>, gs: seq<Frame>, k: Key, w: Value)
    requires forall j :: j != k ==> Resolve(gs, j) == Resolve(fs, j)
    ensures |KeysWith(gs, w)| ==
            |KeysWith(fs, w)| - (if Resolve(fs, k) == Assigned(w) then 1 else 0)
                              + (if Resolve(gs, k) == Assigned(w) then 1 else 0)
  {
    var a, b := KeysWith(fs, w), KeysWith(gs, w);
    forall j ensures j in a - {k} <==> j in b - {k} {
      InKeysWith(fs, w, j);
      InKeysWith(gs, w, j);
    }
    assert a - {k} == b - {k};
    InKeysWith(fs, w, k);
    InKeysWith(gs, w, k);
    if k in a { assert a == (a - {k}) + {k}; } else { assert a == a - {k}; }
    if k in b { assert b == (b - {k}) + {k}; } else { assert b == b - {k}; }
  }

  lemma KeysWithSame(fs: seq<Frame>, gs: seq<Frame>, w: Value)
    requires forall j :: Resolve(gs, j) == Resolve(fs, j)
    ensures KeysWith(gs, w) == KeysWith(fs, w)
  {
    forall j ensures j in KeysWith(gs, w) <==> j in KeysWith(fs, w) {
      InKeysWith(fs, w, j);
      InKeysWith(gs, w, j);
    }
  }

  // ---------------------------------------------------------------------------
  // The context's operations on the stack

  /** `begin`: a new empty layer on top. */
  function Push(fs: seq<Frame>): (r: seq<Frame>)
    ensures |r| == |fs| + 1 && r[..|fs|] == fs
    ensures forall k :: Resolve(r, k) == Resolve(fs, k) && Get(r, k) == Get(fs, k)
    ensures forall v :: Total(r, v) == Total(fs, v)
    ensures AllWellFormed(fs) ==> AllWellFormed(r)
  {
    var r := fs + [EmptyFrame];
    assert r[..|fs|] == fs;
    r
  }

  /** `rollback` past the base: the top layer dropped. */
  function Pop(fs: seq<Frame>): (r: seq<Frame>)
    requires |fs| > 1
    ensures |r| == |fs| - 1 >= 1 && fs == r + [fs[|fs| - 1]]
    ensures AllWellFormed(fs) ==> AllWellFormed(r)
  {
    fs[..|fs| - 1]
  }

  /** `set`: the top layer assigns `v` to `k`, its decrement rule fed by what the
      whole stack resolves `k` to. */
  function SetTop(fs: seq<Frame>, k: Key, v: Value): (r: seq<Frame>)
    requires |fs| >= 1
    ensures |r| == |fs| && r[..|fs| - 1] == fs[..|fs| - 1]
    ensures Resolve(r, k) == Assigned(v) && Get(r, k) == Some(v)
    ensures forall j :: j != k ==> Resolve(r, j) == Resolve(fs, j)
    ensures AllWellFormed(fs) ==> AllWellFormed(r)
  {
    var n := |fs|;
    var r := fs[n - 1 := fs[n - 1].Set(k, v, Get(fs, k))];
    assert r[..n - 1] == fs[..n - 1];
    r
  }

  /** `unset`: the top layer deletes `k`, with the same decrement rule. */
  function UnsetTop(fs: seq<Frame>, k: Key): (r: seq<Frame>)
    requires |fs| >= 1
    ensures |r| == |fs| && r[..|fs| - 1] == fs[..|fs| - 1]
    ensures Resolve(r, k) == Deleted && Get(r, k) == Some(NULL)
    ensures forall j :: j != k ==> Resolve(r, j) == Resolve(fs, j)
    ensures AllWellFormed(fs) ==> AllWellFormed(r)
  {
    var n := |fs|;
    var r := fs[n - 1 := fs[n - 1].Unset(k, Get(fs, k))];
    assert r[..n - 1] == fs[..n - 1];
    r
  }

  // ---------------------------------------------------------------------------
  // The count invariant

  /** On a well-formed top layer, the value `decrease` withdraws is a value
      other than "NULL" exactly when the key currently holds that value. */
  lemma DisplacedIsHeld(fs: seq<Frame>, k: Key, w: Value)
    requires |fs| >= 1 && fs[|fs| - 1].WellFormed() && w != NULL
    ensures fs[|fs| - 1].Displaced(k, Get(fs, k)) == Some(w) <==> Resolve(fs, k) == Assigned(w)
  {
  }

  lemma SetTopCounts(fs: seq<Frame>, k: Key, v: Value)
    requires |fs| >= 1 && fs[|fs| - 1].WellFormed() && CountsExact(fs)
    ensures CountsExact(SetTop(fs, k, v))
  {
    var r := SetTop(fs, k, v);
    forall w | w != NULL ensures Total(r, w) == |KeysWith(r, w)| {
      DisplacedIsHeld(fs, k, w);
      KeysWithChange(fs, r, k, w);
    }
  }

  lemma UnsetTopCounts(fs: seq<Frame>, k: Key)
    requires |fs| >= 1 && fs[|fs| - 1].WellFormed() && CountsExact(fs)
    ensures CountsExact(UnsetTop(fs, k))
  {
    var r := UnsetTop(fs, k);
    forall w | w != NULL ensures Total(r, w) == |KeysWith(r, w)| {
      DisplacedIsHeld(fs, k, w);
      KeysWithChange(fs, r, k, w);
    }
  }

  /** A change confined to the top layer that keeps the whole stack's counts
      right keeps every prefix's counts right. */
  lemma TopChangePrefixCounts(fs: seq<Frame>, r: seq<Frame>)
    requires |fs| >= 1 && |r| == |fs| && r[..|fs| - 1] == fs[..|fs| - 1]
    requires PrefixCounts(fs) && CountsExact(r)
    ensures PrefixCounts(r)
  {
    forall i | 0 <= i <= |r| ensures CountsExact(r[..i]) {
      if i == |r| {
        assert r[..i] == r;
      } else {
        assert r[..i] == r[..|fs| - 1][..i];
        assert fs[..i] == fs[..|fs| - 1][..i];
      }
    }
  }

  lemma SetTopKeepsCounts(fs: seq<Frame>, k: Key, v: Value)
    requires |fs| >= 1 && AllWellFormed(fs) && PrefixCounts(fs)
    ensures PrefixCounts(SetTop(fs, k, v))
  {
    assert fs[..|fs|] == fs;
    SetTopCounts(fs, k, v);
    TopChangePrefixCounts(fs, SetTop(fs, k, v));
  }

  lemma UnsetTopKeepsCounts(fs: seq<Frame>, k: Key)
    requires |fs| >= 1 && AllWellFormed(fs) && PrefixCounts(fs)
    ensures PrefixCounts(UnsetTop(fs, k))
  {
    assert fs[..|fs|] == fs;
    UnsetTopCounts(fs, k);
    TopChangePrefixCounts(fs, UnsetTop(fs, k));
  }

  lemma PushKeepsCounts(fs: seq<Frame>)
    requires PrefixCounts(fs)
    ensures PrefixCounts(Push(fs))
  {
    var r := Push(fs);
    forall i | 0 <= i <= |r| ensures CountsExact(r[..i]) {
      if i == |r| {
        assert r[..i] == r;
        assert fs[..|fs|] == fs;
        forall w ensures KeysWith(r, w) == KeysWith(fs, w) {
          KeysWithSame(fs, r, w);
        }
      } else {
        assert r[..i] == fs[..i];
      }
    }
  }

  lemma PopKeepsCounts(fs: seq<Frame>)
    requires |fs| > 1 && PrefixCounts(fs)
    ensures PrefixCounts(Pop(fs))
  {
    var r := Pop(fs);
    forall i | 0 <= i <= |r| ensures CountsExact(r[..i]) {
      assert r[..i] == fs[..i];
    }
  }

  /** The context as created: one empty base layer, counts trivially right. */
  lemma InitialCounts()
    ensures PrefixCounts([EmptyFrame])
  {
    var fs := [EmptyFrame];
    assert fs[..0] == [] && fs[..1] == fs;
    assert Mentioned(fs) == {};
    forall v ensures Total(fs, v) == 0 && KeysWith(fs, v) == {} {
      assert Total(fs, v) == Total([], v) + EmptyFrame.NumEqualTo(v);
    }
  }

  /** A stack of one layer whose counts are right has every prefix's right. */
  lemma SingleLayerCounts(b: Frame)
    requires CountsExact([b])
    ensures PrefixCounts([b])
  {
    var fs := [b];
    assert fs[..0] == [] && fs[..1] == fs;
    assert Mentioned([]) == {};
    forall v ensures Total([], v) == 0 && KeysWith([], v) == {} {
    }
  }

  /** Why the count invariant leaves out "NULL": `get` answers "NULL" for a
      deleted key and `decrease` takes that for a value, so deleting a key
      twice in one layer drives the count of "NULL" below zero while no key
      holds it. */
  lemma NullCountGoesNegative()
    ensures var fs := UnsetTop(UnsetTop([EmptyFrame], "a"), "a");
            && Get(fs, "a") == Some(NULL)
            && Total(fs, NULL) == -1
            && KeysWith(fs, NULL) == {}
  {
    assert [EmptyFrame][..0] == [];
    assert EmptyFrame.Lookup("a") == Untouched;
    assert Resolve([EmptyFrame], "a") == Resolve([], "a");
    assert Get([EmptyFrame], "a") == None;
    var once := Frame(map[], {"a"}, map[]);
    assert EmptyFrame.Unset("a", None) == once;
    assert UnsetTop([EmptyFrame], "a") == [once];
    assert Get([once], "a") == Some(NULL);
    var twice := Frame(map[], {"a"}, map[NULL := -1]);
    assert once.Unset("a", Some(NULL)) == twice;
    var fs := [twice];
    assert UnsetTop([once], "a") == fs;
    assert fs[..0] == [];
    assert Total(fs, NULL) == -1;
    forall k ensures k !in KeysWith(fs, NULL) {
      InKeysWith(fs, NULL, k);
    }
  }

  // ---------------------------------------------------------------------------
  // Sequences of operations

  /** The context operations that keep the count invariant (commit is left
      out of this language on purpose: it does not keep it). */
  datatype Op = SetOp(key: Key, value: Value) | UnsetOp(key: Key) | BeginOp | RollbackOp

  function Step(fs: seq<Frame>, op: Op): (r: seq<Frame>)
    requires |fs| >= 1
    ensures |r| >= 1
  {
    match op
    case SetOp(k, v) => SetTop(fs, k, v)
    case UnsetOp(k) => UnsetTop(fs, k)
    case BeginOp => Push(fs)
    case RollbackOp => if |fs| == 1 then fs else Pop(fs)
  }

  /** Runs the operations in order; the stack never becomes empty, and a run
      of assignments and deletions only touches the top layer. */
  function Run(fs: seq<Frame>, ops: seq<Op>): (r: seq<Frame>)
    requires |fs| >= 1
    ensures |r| >= 1
    ensures (forall i :: 0 <= i < |ops| ==> ops[i].SetOp? || ops[i].UnsetOp?) ==>
              |r| == |fs| && r[..|fs| - 1] == fs[..|fs| - 1]
    decreases |ops|
  {
    if ops == [] then fs else Run(Step(fs, ops[0]), ops[1..])
  }

  /** Whatever the interleaving of assignments, deletions, begins and
      rollbacks, the incrementally kept counts equal the brute-force count. */
  lemma {:induction false} RunKeepsCounts(fs: seq<Frame>, ops: seq<Op>)
    requires |fs| >= 1 && AllWellFormed(fs) && PrefixCounts(fs)
    ensures AllWellFormed(Run(fs, ops)) && PrefixCounts(Run(fs, ops))
    ensures forall v :: v != NULL ==> Total(Run(fs, ops), v) == |KeysWith(Run(fs, ops), v)|
    decreases |ops|
  {
    var r := Run(fs, ops);
    if ops != [] {
      var next := Step(fs, ops[0]);
      match ops[0] {
        case SetOp(k, v) => SetTopKeepsCounts(fs, k, v);
        case UnsetOp(k) => UnsetTopKeepsCounts(fs, k);
        case BeginOp => PushKeepsCounts(fs);
        case RollbackOp => if |fs| > 1 { PopKeepsCounts(fs); }
      }
      RunKeepsCounts(next, ops[1..]);
    }
    assert r[..|r|] == r;
  }

  /** `begin`, any assignments and deletions, then `rollback` gives back the
      stack exactly, so every `get` and `numequalto` answer is as before. */
  lemma {:induction false} RollbackRestores(fs: seq<Frame>, ops: seq<Op>)
    requires |fs| >= 1
    requires forall i :: 0 <= i < |ops| ==> ops[i].SetOp? || ops[i].UnsetOp?
    ensures Step(Run(Push(fs), ops), RollbackOp) == fs
  {
    var pushed := Push(fs);
    var r := Run(pushed, ops);
    assert r[..|fs|] == pushed[..|fs|] == fs;
  }
}
