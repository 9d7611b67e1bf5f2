/**
 * ContainedRangeMap as objects on the heap: each node owns its children, and StoreRange moves
 * whole children to a new node. Every operation is proved equal to its meaning on trees.
 */
module ContainedRangeMaps {
  import opened Addresses
  import opened Options
  import opened ContainedRanges

  /** The children, filed under their high addresses, stand for the trees of `forest`; `repr` holds their objects. */
  ghost predicate Children<E>(keys: seq<Address>, kids: seq<ContainedRangeMap<E>>, forest: seq<Tree<E>>,
                              repr: set<ContainedRangeMap<E>>)
    reads repr
    decreases repr, 1
  {
    && |keys| == |kids| == |forest|
    && (forall i :: 0 <= i < |kids| ==>
          && kids[i] in repr && kids[i].Repr <= repr && kids[i].Valid()
          && forest[i] == Node(kids[i].base, keys[i], kids[i].entry, kids[i].forest))
    && (forall i, j :: 0 <= i < j < |kids| ==> kids[i].Repr !! kids[j].Repr)
  }

  class ContainedRangeMap<E> {
    const base: Address
    const entry: E
    // The std::map from high addresses to children, in order of key. A null map is an empty one.
    var keys: seq<Address>
    var kids: seq<ContainedRangeMap<E>>

    ghost var Repr: set<ContainedRangeMap<E>>
    // The trees that the children stand for.
    ghost var forest: seq<Tree<E>>

    ghost predicate Valid()
      reads this, Repr
      decreases Repr, 0
    {
      this in Repr && Children(keys, kids, forest, Repr - {this})
    }

    /** A node with the given children; the root is made with none. */
    constructor (base: Address, entry: E, keys: seq<Address>, kids: seq<ContainedRangeMap<E>>,
                 ghost repr: set<ContainedRangeMap<E>>, ghost forest: seq<Tree<E>>)
      requires Children(keys, kids, forest, repr)
      ensures Valid() && Repr == repr + {this} && this.forest == forest
      ensures this.base == base && this.entry == entry
    {
      this.base, this.entry, this.keys, this.kids := base, entry, keys, kids;
      this.Repr, this.forest := repr + {this}, forest;
      new;
      assert Repr - {this} == repr;
    }

    /** std::map::lower_bound on the keys. */
    method KeyLowerBound(key: Address) returns (k: nat)
      requires Valid()
      ensures k == LowerBound(forest, key)
    {
      k := 0;
      while k < |keys| && keys[k] < key
        invariant k <= |keys|
        invariant LowerBound(forest, key) == k + LowerBound(forest[k..], key)
      {
        assert forest[k..][1..] == forest[k + 1..];
        k := k + 1;
      }
    }

    method RetrieveRange(address: Address) returns (r: Option<E>)
      requires Valid()
      ensures r == Retrieve(forest, address)
      decreases Repr
    {
      var k := KeyLowerBound(address);
      if k == |keys| || address < kids[k].base {
        return None;
      }
      r := kids[k].RetrieveRange(address);
      if r.None? {
        r := Some(kids[k].entry);
      }
    }

    method Clear()
      requires Valid()
      modifies this
      ensures Valid() && forest == [] && Repr == old(Repr)
    {
      keys, kids, forest := [], [], [];
    }

    /** Where the new range goes among the children. */
    method FindPlace(base: Address, high: Address) returns (p: Place)
      requires Valid() && base <= high
      ensures p == Locate(forest, base, high)
    {
      var lo := KeyLowerBound(base);
      var hi := KeyLowerBound(high);
      if lo == hi && lo < |keys| && base >= kids[lo].base {
        return if kids[lo].base == base && keys[lo] == high then Nowhere else Below(lo);
      }
      var containsHigh := hi < |keys| && high >= kids[hi].base;
      if (lo < |keys| && base > kids[lo].base) || (containsHigh && high < keys[hi]) {
        return Nowhere;
      }
      LowerBoundMonotone(forest, base, high, lo, hi);
      return Here(lo, if containsHigh then hi + 1 else hi);
    }

    method StoreRange(base: Address, size: Address, entry: E) returns (ok: bool)
      requires Valid()
      modifies Repr
      ensures Valid() && fresh(Repr - old(Repr)) && old(Repr) <= Repr
      ensures ok == Store(old(forest), base, size, entry).Some?
      ensures forest == if ok then Store(old(forest), base, size, entry).value else old(forest)
      decreases Repr
    {
      var high := Minus(Plus(base, size), 1);
      if size <= 0 || high < base {
        return false;
      }
      var p := FindPlace(base, high);
      match p
      case Nowhere =>
        return false;
      case Below(k) =>
        ok := StoreBelow(k, base, size, entry);
      case Here(lo, end) =>
        TakeOver(lo, end, base, high, entry);
        return true;
    }

    /** Pass the new range on to child `k`. */
    method StoreBelow(k: nat, base: Address, size: Address, entry: E) returns (ok: bool)
      requires Valid() && k < |forest| && 0 < size && base <= Minus(Plus(base, size), 1)
      modifies Repr
      ensures Valid() && fresh(Repr - old(Repr)) && old(Repr) <= Repr
      ensures var below := StoreIn(old(forest)[k].kids, Range(base, Minus(Plus(base, size), 1), entry));
              && ok == below.Some?
              && forest == if ok then old(forest)[k := old(forest)[k].(kids := below.value)] else old(forest)
      decreases Repr, 0
    {
      hide StoreIn;
      ok := kids[k].StoreRange(base, size, entry);
      Repr := Repr + kids[k].Repr;
      forest := forest[k := forest[k].(kids := kids[k].forest)];
      forall i | 0 <= i < |kids| && i != k
        ensures kids[i].Valid() && kids[i].Repr == old(kids[i].Repr) && kids[i].forest == old(kids[i].forest)
      {
        assert old(kids[i].Valid());
        assert old(kids[i].Repr !! kids[k].Repr);
      }
    }

    /** Move the children lo..end to a new child that covers [base, high]. */
    method TakeOver(lo: nat, end: nat, base: Address, high: Address, entry: E)
      requires Valid() && lo <= end <= |forest|
      modifies this
      ensures Valid() && fresh(Repr - old(Repr)) && old(Repr) <= Repr
      ensures forest == Regroup(old(forest), lo, end, Range(base, high, entry))
    {
      ghost var own := Reprs(kids[lo..end], Repr - {this});
      SliceChildren(keys, kids, forest, Repr - {this}, lo, end);
      forall i | 0 <= i < |kids| && !(lo <= i < end) ensures kids[i].Repr !! own {
        ReprsApart(kids, lo, end, i, Repr - {this});
      }
      var child := new ContainedRangeMap(base, entry, keys[lo..end], kids[lo..end], own, forest[lo..end]);
      SpliceChildren(keys, kids, forest, Repr - {this}, lo, end, child, high);
      kids := Splice(kids, lo, end, child);
      keys := Splice(keys, lo, end, high);
      forest := Regroup(forest, lo, end, Range(base, high, entry));
      Repr := Repr + {child};
      assert Repr - {this} == old(Repr) - {this} + {child};
    }
  }

  /** The children with lo..end moved below a new child. */
  lemma SpliceChildren<E>(keys: seq<Address>, kids: seq<ContainedRangeMap<E>>, forest: seq<Tree<E>>,
                          repr: set<ContainedRangeMap<E>>, lo: nat, end: nat,
                          child: ContainedRangeMap<E>, high: Address)
    requires Children(keys, kids, forest, repr) && lo <= end <= |kids|
    requires child.Valid() && child.Repr <= repr + {child} && child.forest == forest[lo..end]
    requires forall i :: 0 <= i < |kids| && !(lo <= i < end) ==> kids[i].Repr !! child.Repr
    ensures Children(Splice(keys, lo, end, high), Splice(kids, lo, end, child),
                     Regroup(forest, lo, end, Range(child.base, high, child.entry)), repr + {child})
  {
    var kids', keys' := Splice(kids, lo, end, child), Splice(keys, lo, end, high);
    var forest' := Regroup(forest, lo, end, Range(child.base, high, child.entry));
    forall i | 0 <= i < |kids'|
      ensures kids'[i] in repr + {child} && kids'[i].Repr <= repr + {child} && kids'[i].Valid()
      ensures forest'[i] == Node(kids'[i].base, keys'[i], kids'[i].entry, kids'[i].forest)
    {
      if i > lo {
        var m := i - 1 + (end - lo);
        assert kids'[i] == kids[m] && keys'[i] == keys[m] && forest'[i] == forest[m];
      }
    }
    forall i, j | 0 <= i < j < |kids'| ensures kids'[i].Repr !! kids'[j].Repr {
      var m := if j < lo then j else j - 1 + (end - lo);
      if j != lo {
        assert kids'[j] == kids[m];
      }
      if i > lo {
        assert kids'[i] == kids[i - 1 + (end - lo)];
      }
    }
  }

  /** All the objects of some children. */
  ghost function Reprs<E>(kids: seq<ContainedRangeMap<E>>,
                          repr: set<ContainedRangeMap<E>>): (r: set<ContainedRangeMap<E>>)
    requires forall i :: 0 <= i < |kids| ==> kids[i] in repr && kids[i].Repr <= repr
    reads repr
    ensures r <= repr
    ensures forall i :: 0 <= i < |kids| ==> kids[i].Repr <= r
    ensures forall o :: o in r ==> exists i :: 0 <= i < |kids| && o in kids[i].Repr
  {
    set o | o in repr && exists i :: 0 <= i < |kids| && o in kids[i].Repr
  }

  lemma ReprsApart<E>(kids: seq<ContainedRangeMap<E>>, lo: nat, end: nat, m: nat, repr: set<ContainedRangeMap<E>>)
    requires lo <= end <= |kids| && m < |kids| && !(lo <= m < end)
    requires forall i :: 0 <= i < |kids| ==> kids[i] in repr && kids[i].Repr <= repr
    requires forall i, j :: 0 <= i < j < |kids| ==> kids[i].Repr !! kids[j].Repr
    ensures kids[m].Repr !! Reprs(kids[lo..end], repr)
  {
    forall o | o in Reprs(kids[lo..end], repr) ensures o !in kids[m].Repr {
      var i :| 0 <= i < |kids[lo..end]| && o in kids[lo..end][i].Repr;
      assert o in kids[lo + i].Repr;
    }
  }

  /** Some of the children, with just their own objects. */
  lemma SliceChildren<E>(keys: seq<Address>, kids: seq<ContainedRangeMap<E>>, forest: seq<Tree<E>>,
                         repr: set<ContainedRangeMap<E>>, lo: nat, end: nat)
    requires Children(keys, kids, forest, repr) && lo <= end <= |kids|
    ensures Children(keys[lo..end], kids[lo..end], forest[lo..end], Reprs(kids[lo..end], repr))
  {
    hide Children, Child, ContainedRangeMap.Valid;
    SameLengths(keys, kids, forest, repr);
    ChildrenApart(keys, kids, forest, repr);
    SliceApart(kids, lo, end);
    SliceIn(keys, kids, forest, repr, lo, end);
    var own, part := Reprs(kids[lo..end], repr), kids[lo..end];
    forall i | 0 <= i < |part| ensures Child(keys[lo..end][i], part[i], forest[lo..end][i], own) {
      SliceChild(keys, kids, forest, repr, lo, end, i);
    }
    MakeChildren(keys[lo..end], part, forest[lo..end], own);
  }

  lemma SliceIn<E>(keys: seq<Address>, kids: seq<ContainedRangeMap<E>>, forest: seq<Tree<E>>,
                   repr: set<ContainedRangeMap<E>>, lo: nat, end: nat)
    requires Children(keys, kids, forest, repr) && lo <= end <= |kids|
    ensures forall i :: 0 <= i < end - lo ==> kids[lo..end][i] in repr && kids[lo..end][i].Repr <= repr
  {
    forall i | 0 <= i < end - lo ensures kids[lo..end][i] in repr && kids[lo..end][i].Repr <= repr {
      assert kids[lo..end][i] == kids[lo + i];
    }
  }

  lemma ChildrenApart<E>(keys: seq<Address>, kids: seq<ContainedRangeMap<E>>, forest: seq<Tree<E>>,
                         repr: set<ContainedRangeMap<E>>)
    requires Children(keys, kids, forest, repr)
    ensures forall i, j :: 0 <= i < j < |kids| ==> kids[i].Repr !! kids[j].Repr
  {
  }

  lemma SameLengths<E>(keys: seq<Address>, kids: seq<ContainedRangeMap<E>>, forest: seq<Tree<E>>,
                       repr: set<ContainedRangeMap<E>>)
    requires Children(keys, kids, forest, repr)
    ensures |keys| == |kids| == |forest|
  {
  }

  /** A child stands for a tree, with all its objects in `repr`. */
  ghost predicate Child<E>(key: Address, kid: ContainedRangeMap<E>, tree: Tree<E>, repr: set<ContainedRangeMap<E>>)
    reads repr
  {
    && kid in repr && kid.Repr <= repr && kid.Valid()
    && tree == Node(kid.base, key, kid.entry, kid.forest)
  }

  lemma MakeChildren<E>(keys: seq<Address>, kids: seq<ContainedRangeMap<E>>, forest: seq<Tree<E>>,
                        repr: set<ContainedRangeMap<E>>)
    requires |keys| == |kids| == |forest|
    requires forall i :: 0 <= i < |kids| ==> Child(keys[i], kids[i], forest[i], repr)
    requires forall i, j :: 0 <= i < j < |kids| ==> kids[i].Repr !! kids[j].Repr
    ensures Children(keys, kids, forest, repr)
  {
    forall i | 0 <= i < |kids|
      ensures kids[i] in repr && kids[i].Repr <= repr && kids[i].Valid()
              && forest[i] == Node(kids[i].base, keys[i], kids[i].entry, kids[i].forest)
    {
      assert Child(keys[i], kids[i], forest[i], repr);
    }
  }

  lemma SliceChild<E>(keys: seq<Address>, kids: seq<ContainedRangeMap<E>>, forest: seq<Tree<E>>,
                      repr: set<ContainedRangeMap<E>>, lo: nat, end: nat, i: nat)
    requires Children(keys, kids, forest, repr) && lo <= end <= |kids| && i < end - lo
    ensures Child(keys[lo..end][i], kids[lo..end][i], forest[lo..end][i], Reprs(kids[lo..end], repr))
  {
    assert kids[lo..end][i] == kids[lo + i] && kids[lo + i].Valid();
  }

  lemma SliceApart<E>(kids: seq<ContainedRangeMap<E>>, lo: nat, end: nat)
    requires lo <= end <= |kids| && forall i, j :: 0 <= i < j < |kids| ==> kids[i].Repr !! kids[j].Repr
    ensures forall i, j :: 0 <= i < j < end - lo ==> kids[lo..end][i].Repr !! kids[lo..end][j].Repr
  {
    forall i, j | 0 <= i < j < end - lo ensures kids[lo..end][i].Repr !! kids[lo..end][j].Repr {
      assert kids[lo..end][i] == kids[lo + i] && kids[lo..end][j] == kids[lo + j];
    }
  }
}
