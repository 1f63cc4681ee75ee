/**
 * One transaction layer of the store: the `Frame` class of database.py.
 *
 * A layer holds the keys it assigns, the keys it deletes, and for every value
 * the signed change this layer alone makes to the number of keys holding that
 * value. The layer's back-reference to its owning context is replaced by a
 * parameter: `current` is what the context's `get` answers for the key, and the
 * context computes it and passes it in.
 */
module Frames {

  type Key = string
  type Value = string

  /** The string the context's `get` yields for a key some layer has deleted. */
  const NULL: Value := "NULL"

  datatype Option<T> = None | Some(value: T)

  /** What one layer says about a key, asked in the order the context asks it:
      first "is it deleted here?", then "is it assigned here?". */
  datatype Decision = Untouched | Deleted | Assigned(value: Value)

  datatype Frame = Frame(data: map<Key, Value>, deleted: set<Key>, numbers: map<Value, int>)
  {
    /** No key is both assigned and deleted in one layer. */
    predicate WellFormed()
    {
      data.Keys !! deleted
    }

    /** The layer's deleted keys; on a well-formed layer none is assigned. */
    function AllDeleted(): (r: set<Key>)
      ensures forall k :: k in r <==> k in deleted
      ensures WellFormed() ==> forall k :: k in r ==> k !in data
    {
      deleted
    }

    /** Whether this layer deletes `k`. */
    predicate IsUnset(k: Key)
      ensures IsUnset(k) <==> k in AllDeleted()
    {
      k in deleted
    }

    /** This layer's own assignment of `k`; a key it deletes has none. */
    function Get(k: Key): (r: Option<Value>)
      ensures r.Some? <==> k in data
      ensures r.Some? ==> data[k] == r.value
      ensures IsUnset(k) && WellFormed() ==> r == None
    {
      if k in data then Some(data[k]) else None
    }

    /** The keys this layer assigns, and on a well-formed layer none of them
        deleted here. */
    function Keys(): (r: set<Key>)
      ensures forall k :: k in r <==> k in data
      ensures WellFormed() ==> r !! AllDeleted()
    {
      data.Keys
    }

    /** This layer's change to the number of keys holding `v`; a value the
        layer never recorded reads as 0. */
    function NumEqualTo(v: Value): (r: int)
      ensures v in numbers ==> r == numbers[v]
      ensures r != 0 ==> v in numbers
    {
      if v in numbers then numbers[v] else 0
    }

    /** This layer's own say about `k`, as the context's `get` reads a layer. */
    function Lookup(k: Key): Decision
    {
      if IsUnset(k) then Deleted
      else match Get(k)
        case Some(v) => Assigned(v)
        case None => Untouched
    }

    /** The value whose count `decrease` takes one from: the layer's own earlier
        assignment of `k` when it has one, otherwise the key's value as the
        owning context currently resolves it. */
    function Displaced(k: Key, current: Option<Value>): Option<Value>
    {
      if k in data then Some(data[k]) else current
    }

    /** Counts one more key holding `v`; assignments and deletions are untouched. */
    function Increase(v: Value): (r: Frame)
      ensures r.data == data && r.deleted == deleted
      ensures forall w :: r.NumEqualTo(w) == NumEqualTo(w) + (if w == v then 1 else 0)
    {
      this.(numbers := numbers[v := NumEqualTo(v) + 1])
    }

    /** Withdraws the count of the value `k` held before this change, if it held one. */
    function Decrease(k: Key, current: Option<Value>): (r: Frame)
      ensures r.data == data && r.deleted == deleted
      ensures forall w :: r.NumEqualTo(w) == NumEqualTo(w) - (if Displaced(k, current) == Some(w) then 1 else 0)
      ensures current == None && k !in data ==> r == this
    {
      if k in data then
        this.(numbers := numbers[data[k] := NumEqualTo(data[k]) - 1])
      else if current.Some? then
        this.(numbers := numbers[current.value := NumEqualTo(current.value) - 1])
      else
        this
    }

    /** Assigns `v` to `k` in this layer. */
    function Set(k: Key, v: Value, current: Option<Value>): (r: Frame)
      ensures r.Lookup(k) == Assigned(v) && r.Get(k) == Some(v) && !r.IsUnset(k)
      ensures forall j :: j != k ==> r.Lookup(j) == Lookup(j)
      ensures WellFormed() ==> r.WellFormed()
      ensures forall w ::
                r.NumEqualTo(w) ==
                NumEqualTo(w) - (if Displaced(k, current) == Some(w) then 1 else 0) + (if w == v then 1 else 0)
    {
      var f := Decrease(k, current).Increase(v);
      f.(deleted := f.deleted - {k}, data := f.data[k := v])
    }

    /** Deletes `k` in this layer, shadowing whatever lower layers say. */
    function Unset(k: Key, current: Option<Value>): (r: Frame)
      ensures r.Lookup(k) == Deleted && r.IsUnset(k) && r.Get(k) == None
      ensures forall j :: j != k ==> r.Lookup(j) == Lookup(j)
      ensures WellFormed() ==> r.WellFormed()
      ensures forall w :: r.NumEqualTo(w) == NumEqualTo(w) - (if Displaced(k, current) == Some(w) then 1 else 0)
    {
      var f := Decrease(k, current);
      f.(deleted := f.deleted + {k}, data := f.data - {k})
    }
  }

  /** A freshly begun layer. */
  const EmptyFrame: Frame := Frame(map[], {}, map[])
}
