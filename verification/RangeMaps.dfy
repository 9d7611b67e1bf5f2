/** RangeMap: disjoint address ranges, filed under their high addresses. */
module RangeMaps {
  import opened Addresses
  import opened Options

  /** A stored range; it includes both `base` and `high`. */
  datatype Range<E> = Range(base: Address, high: Address, entry: E)

  /** In order of key and disjoint. */
  ghost predicate Ordered<E>(rs: seq<Range<E>>) {
    && (forall i :: 0 <= i < |rs| ==> rs[i].base <= rs[i].high)
    && (forall i, j :: 0 <= i < j < |rs| ==> rs[i].high < rs[j].base)
  }

  ghost predicate IsLowerBound<E>(rs: seq<Range<E>>, key: int, k: nat) {
    && k <= |rs|
    && (forall i :: 0 <= i < k ==> rs[i].high < key)
    && (k < |rs| ==> key <= rs[k].high)
  }

  function LowerBound<E>(rs: seq<Range<E>>, key: Address): (k: nat)
    ensures IsLowerBound(rs, key, k)
  {
    if rs == [] || key <= rs[0].high then 0 else 1 + LowerBound(rs[1..], key)
  }

  /** RangeMap::StoreRange: None when the source returns false. */
  function Store<E>(rs: seq<Range<E>>, base: Address, size: Address, entry: E): (r: Option<seq<Range<E>>>) {
    var high := Minus(Plus(base, size), 1);
    if size <= 0 || high < base then None
    else
      var lo, hi := LowerBound(rs, base), LowerBound(rs, high);
      if lo != hi then None
      else if hi < |rs| && rs[hi].base <= high then None
      else Some(rs[..hi] + [Range(base, high, entry)] + rs[hi..])
  }

  /** RangeMap::RetrieveRange. */
  function Retrieve<E>(rs: seq<Range<E>>, address: Address): (r: Option<Range<E>>) {
    var k := LowerBound(rs, address);
    if k == |rs| || address < rs[k].base then None else Some(rs[k])
  }

  ghost predicate Overlaps<E>(r: Range<E>, base: int, high: int) {
    r.base <= high && base <= r.high
  }

  lemma InsertKeeps<E>(rs: seq<Range<E>>, k: nat, r: Range<E>)
    requires Ordered(rs) && r.base <= r.high && k <= |rs|
    requires (forall i :: 0 <= i < k ==> rs[i].high < r.base) && (k < |rs| ==> r.high < rs[k].base)
    ensures Ordered(rs[..k] + [r] + rs[k..])
    ensures forall x :: x in rs[..k] + [r] + rs[k..] <==> x in rs || x == r
    ensures forall i :: 0 <= i < |rs| ==> !Overlaps(rs[i], r.base, r.high)
  {
    InsertMembers(rs, k, r);
    forall i | 0 <= i < |rs| ensures !Overlaps(rs[i], r.base, r.high) {
      assert rs[i].base <= rs[i].high;
    }
  }

  lemma InsertMembers<E>(rs: seq<Range<E>>, k: nat, r: Range<E>)
    requires k <= |rs|
    ensures forall x :: x in rs[..k] + [r] + rs[k..] <==> x in rs || x == r
  {
    assert rs == rs[..k] + rs[k..];
  }

  lemma StoreUnfolds<E>(rs: seq<Range<E>>, base: Address, size: Address, entry: E)
    ensures 0 < size && base + size <= SPACE <==> 0 < size && base <= Minus(Plus(base, size), 1)
    ensures 0 < size && base + size <= SPACE ==> Minus(Plus(base, size), 1) == base + size - 1
    ensures !(0 < size && base + size <= SPACE) ==> Store(rs, base, size, entry).None?
    ensures 0 < size && base + size <= SPACE ==>
              var lo, hi := LowerBound(rs, base), LowerBound(rs, base + size - 1);
              Store(rs, base, size, entry) ==
              if lo != hi || (hi < |rs| && rs[hi].base <= base + size - 1) then None
              else Some(rs[..hi] + [Range(base, base + size - 1, entry)] + rs[hi..])
  {
  }

  /** StoreRange succeeds exactly for a nonempty range that does not wrap and overlaps no stored one, and adds it. */
  lemma StoreCorrect<E>(rs: seq<Range<E>>, base: Address, size: Address, entry: E)
    requires Ordered(rs)
    ensures Store(rs, base, size, entry).Some? <==>
              && 0 < size && base + size <= SPACE
              && forall i :: 0 <= i < |rs| ==> !Overlaps(rs[i], base, base + size - 1)
    ensures Store(rs, base, size, entry).Some? ==>
              var rs' := Store(rs, base, size, entry).value;
              && Ordered(rs')
              && forall x :: x in rs' <==> x in rs || x == Range(base, base + size - 1, entry)
  {
    StoreUnfolds(rs, base, size, entry);
    hide Store, LowerBound, Plus, Minus;
    if 0 < size && base + size <= SPACE {
      var high := base + size - 1;
      var lo, hi := LowerBound(rs, base), LowerBound(rs, high);
      if lo == hi && !(hi < |rs| && rs[hi].base <= high) {
        InsertKeeps(rs, hi, Range(base, high, entry));
      } else if lo != hi {
        assert lo < |rs| && Overlaps(rs[lo], base, high);
      }
    }
  }

  /** RetrieveRange finds the one stored range that contains the address, if any. */
  lemma RetrieveCorrect<E>(rs: seq<Range<E>>, address: Address, x: Range<E>)
    requires Ordered(rs)
    ensures Retrieve(rs, address) == Some(x) <==> x in rs && x.base <= address <= x.high
  {
    hide LowerBound;
    if x in rs && x.base <= address <= x.high {
      var i :| 0 <= i < |rs| && rs[i] == x;
      var k := LowerBound(rs, address);
      assert k <= i;
    }
  }
}
