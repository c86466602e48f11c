// AndersPtsSet: a points-to set, a sparse set of node ids. The sparse bit
// vector it wraps is modelled by the set of ids whose bit is on.
module PtsSet {

  class AndersPtsSet {
    var bitvec: set<nat>

    constructor ()
      ensures bitvec == {}
    {
      bitvec := {};
    }

    method Has(idx: nat) returns (b: bool)
      ensures b <==> idx in bitvec
    {
      b := idx in bitvec;
    }

    /** test_and_set: true exactly when idx was not yet in the set. */
    method Insert(idx: nat) returns (added: bool)
      modifies this
      ensures added <==> idx !in old(bitvec)
      ensures bitvec == old(bitvec) + {idx}
    {
      added := idx !in bitvec;
      bitvec := bitvec + {idx};
    }

    /** Inserts the ids b..e of another set's iterator, one at a time; true
        exactly when at least one of them was new. */
    method InsertRange(elems: seq<nat>) returns (ret: bool)
      modifies this
      ensures ret <==> exists k :: 0 <= k < |elems| && elems[k] !in old(bitvec)
      ensures bitvec == old(bitvec) + set k | 0 <= k < |elems| :: elems[k]
    {
      ret := false;
      var i := 0;
      while i < |elems|
        invariant 0 <= i <= |elems|
        invariant bitvec == old(bitvec) + set k | 0 <= k < i :: elems[k]
        invariant ret <==> exists k :: 0 <= k < i && elems[k] !in old(bitvec)
      {
        var added := Insert(elems[i]);
        ret := ret || added;
        i := i + 1;
      }
    }

    method Reset(idx: nat)
      modifies this
      ensures bitvec == old(bitvec) - {idx}
    {
      bitvec := bitvec - {idx};
    }

    /** True when this set is a superset of `other`. */
    method Contains(other: AndersPtsSet) returns (b: bool)
      ensures b <==> other.bitvec <= bitvec
    {
      b := other.bitvec <= bitvec;
    }

    /** True when the two sets share an element. */
    method IntersectWith(other: AndersPtsSet) returns (b: bool)
      ensures b <==> exists x :: x in bitvec && x in other.bitvec
    {
      b := bitvec * other.bitvec != {};
      if b {
        var x :| x in bitvec * other.bitvec;
        assert x in bitvec && x in other.bitvec;
      } else {
        forall x | x in bitvec
          ensures x !in other.bitvec
        {
          assert x !in bitvec * other.bitvec;
        }
      }
    }

    /** `bitvec |= other.bitvec`: true exactly when the set grew. */
    method UnionWith(other: AndersPtsSet) returns (changed: bool)
      modifies this
      ensures bitvec == old(bitvec) + old(other.bitvec)
      ensures changed <==> !(old(other.bitvec) <= old(bitvec))
      ensures other.bitvec <= bitvec
    {
      changed := !(other.bitvec <= bitvec);
      bitvec := bitvec + other.bitvec;
    }

    method Clear()
      modifies this
      ensures bitvec == {}
    {
      bitvec := {};
    }

    method GetSize() returns (n: nat)
      ensures n == |bitvec|
    {
      n := |bitvec|;
    }

    method IsEmpty() returns (b: bool)
      ensures b <==> bitvec == {}
      ensures b <==> |bitvec| == 0
    {
      b := bitvec == {};
    }

    method Equals(rhs: AndersPtsSet) returns (b: bool)
      ensures b <==> bitvec == rhs.bitvec
    {
      b := bitvec == rhs.bitvec;
    }

    method NotEquals(rhs: AndersPtsSet) returns (b: bool)
      ensures b <==> bitvec != rhs.bitvec
    {
      b := bitvec != rhs.bitvec;
    }
  }
}
