/**
 * The meaning of ContainedRangeMap: a tree of address ranges, each inside its parent, where a new
 * range goes below the ranges that contain it and takes over the ranges that it contains.
 */
module ContainedRanges {
  import opened Addresses
  import opened Options

  /** A stored range, with the ranges stored inside it in order of address. */
  datatype Tree<E> = Node(base: Address, high: Address, entry: E, kids: seq<Tree<E>>)

  /** A stored range by itself; it includes both `base` and `high`. */
  datatype Range<E> = Range(base: Address, high: Address, entry: E)

  ghost predicate IsLowerBound<E>(kids: seq<Tree<E>>, key: int, k: nat) {
    && k <= |kids|
    && (forall i :: 0 <= i < k ==> kids[i].high < key)
    && (k < |kids| ==> key <= kids[k].high)
  }

  /** std::map::lower_bound: the first child whose key, its high address, is not below `key`. */
  function LowerBound<E>(kids: seq<Tree<E>>, key: Address): (k: nat)
    ensures IsLowerBound(kids, key, k)
  {
    if kids == [] || key <= kids[0].high then 0 else 1 + LowerBound(kids[1..], key)
  }

  lemma LowerBoundMonotone<E>(kids: seq<Tree<E>>, a: Address, b: Address, i: nat, j: nat)
    requires a <= b && IsLowerBound(kids, a, i) && IsLowerBound(kids, b, j)
    ensures i <= j
  {
  }

  /** `s` with s[lo..end] replaced by `x`. */
  function Splice<T>(s: seq<T>, lo: nat, end: nat, x: T): (r: seq<T>)
    requires lo <= end <= |s|
    ensures |r| == |s| - (end - lo) + 1 && r[lo] == x
    ensures forall i :: 0 <= i < lo ==> r[i] == s[i]
    ensures forall i :: lo < i < |r| ==> r[i] == s[i - 1 + (end - lo)]
  {
    s[..lo] + [x] + s[end..]
  }

  /** The children kids[lo..end] go below a new node. */
  function Regroup<E>(kids: seq<Tree<E>>, lo: nat, end: nat, r: Range<E>): seq<Tree<E>>
    requires lo <= end <= |kids|
  {
    Splice(kids, lo, end, Node(r.base, r.high, r.entry, kids[lo..end]))
  }

  /** Where a new range goes: nowhere, below one child, or here, taking over the children lo..end. */
  datatype Place = Nowhere | Below(k: nat) | Here(lo: nat, end: nat)

  function Locate<E>(kids: seq<Tree<E>>, base: Address, high: Address): (p: Place)
    requires base <= high
    ensures p.Below? ==> p.k < |kids|
    ensures p.Here? ==> p.lo <= p.end <= |kids|
  {
    var lo, hi := LowerBound(kids, base), LowerBound(kids, high);
    if lo == hi && lo < |kids| && base >= kids[lo].base then
      // Entirely within an existing child range; an identical range is refused.
      if kids[lo].base == base && kids[lo].high == high then Nowhere else Below(lo)
    else
      // The child at `hi` may be an irrelevant one that starts above the new range.
      var containsHigh := hi < |kids| && high >= kids[hi].base;
      if (lo < |kids| && base > kids[lo].base) || (containsHigh && high < kids[hi].high) then Nowhere
      else
        LowerBoundMonotone(kids, base, high, lo, hi);
        Here(lo, if containsHigh then hi + 1 else hi)
  }

  /** Store `r` among the children of one node or below; None when it is refused. */
  function StoreIn<E>(kids: seq<Tree<E>>, r: Range<E>): (result: Option<seq<Tree<E>>>)
    requires r.base <= r.high
    decreases kids
  {
    match Locate(kids, r.base, r.high)
    case Nowhere => None
    case Here(lo, end) => Some(Regroup(kids, lo, end, r))
    case Below(k) =>
      match StoreIn(kids[k].kids, r)
      case None => None
      case Some(below) => Some(kids[k := kids[k].(kids := below)])
  }

  /** ContainedRangeMap::StoreRange: None when the source returns false. */
  function Store<E>(kids: seq<Tree<E>>, base: Address, size: Address, entry: E): (r: Option<seq<Tree<E>>>) {
    var high := Minus(Plus(base, size), 1);
    if size <= 0 || high < base then None else StoreIn(kids, Range(base, high, entry))
  }

  /** ContainedRangeMap::RetrieveRange on the children of one node. */
  function Retrieve<E>(kids: seq<Tree<E>>, address: Address): (r: Option<E>)
    decreases kids
  {
    var k := LowerBound(kids, address);
    if k == |kids| || address < kids[k].base then None
    else
      match Retrieve(kids[k].kids, address)
      case None => Some(kids[k].entry)
      case Some(e) => Some(e)
  }

  // ---------------------------------------------------------------------------------------
  // The stored ranges as a set, and what the header promises about them
  // ---------------------------------------------------------------------------------------

  ghost function Top<E>(t: Tree<E>): Range<E> {
    Range(t.base, t.high, t.entry)
  }

  ghost function Items<E>(kids: seq<Tree<E>>): set<Range<E>>
    decreases kids, 1
  {
    if kids == [] then {} else TreeItems(kids[0]) + Items(kids[1..])
  }

  ghost function TreeItems<E>(t: Tree<E>): set<Range<E>>
    decreases t, 2
  {
    {Top(t)} + Items(t.kids)
  }

  predicate Apart<E>(x: Range<E>, y: Range<E>) {
    x.high < y.base || y.high < x.base
  }

  /** `x` contains `y` and is not the same range. */
  predicate Encloses<E>(x: Range<E>, y: Range<E>) {
    x.base <= y.base && y.high <= x.high && !(x.base == y.base && x.high == y.high)
  }

  predicate Compatible<E>(x: Range<E>, y: Range<E>) {
    Apart(x, y) || Encloses(x, y) || Encloses(y, x)
  }

  predicate Contains<E>(x: Range<E>, address: int) {
    x.base <= address <= x.high
  }

  /** Siblings are in order and disjoint; every node is well formed. */
  ghost predicate Forest<E>(kids: seq<Tree<E>>)
    decreases kids, 1
  {
    && (forall i :: 0 <= i < |kids| ==> WellFormed(kids[i]))
    && (forall i, j :: 0 <= i < j < |kids| ==> kids[i].high < kids[j].base)
  }

  /** The children lie strictly inside the node. */
  ghost predicate WellFormed<E>(t: Tree<E>)
    decreases t, 2
  {
    && t.base <= t.high
    && Forest(t.kids)
    && forall i :: 0 <= i < |t.kids| ==> Encloses(Top(t), Top(t.kids[i]))
  }

  // ---------------------------------------------------------------------------------------
  // Items
  // ---------------------------------------------------------------------------------------

  lemma {:induction false} InItems<E>(kids: seq<Tree<E>>, x: Range<E>)
    ensures x in Items(kids) <==> exists i :: 0 <= i < |kids| && x in TreeItems(kids[i])
  {
    if kids != [] {
      InItems(kids[1..], x);
      if x in Items(kids[1..]) {
        var i :| 0 <= i < |kids[1..]| && x in TreeItems(kids[1..][i]);
        assert x in TreeItems(kids[i + 1]);
      }
      if i :| 0 <= i < |kids| && x in TreeItems(kids[i]) {
        if i > 0 {
          assert x in TreeItems(kids[1..][i - 1]);
        }
      }
    }
  }

  lemma {:induction false} ItemsConcat<E>(a: seq<Tree<E>>, b: seq<Tree<E>>)
    ensures Items(a + b) == Items(a) + Items(b)
  {
    if a == [] {
      assert a + b == b;
    } else {
      ItemsConcat(a[1..], b);
      assert (a + b)[1..] == a[1..] + b;
    }
  }

  /** Everything stored below a node is strictly inside it. */
  lemma {:induction false} ItemsEnclosed<E>(t: Tree<E>, x: Range<E>)
    requires WellFormed(t) && x in Items(t.kids)
    ensures Encloses(Top(t), x) && x.base <= x.high
    decreases t
  {
    InItems(t.kids, x);
    var i :| 0 <= i < |t.kids| && x in TreeItems(t.kids[i]);
    assert Encloses(Top(t), Top(t.kids[i])) && WellFormed(t.kids[i]);
    if x != Top(t.kids[i]) {
      ItemsEnclosed(t.kids[i], x);
    }
  }

  lemma TreeItemsWithin<E>(t: Tree<E>, x: Range<E>)
    requires WellFormed(t) && x in TreeItems(t)
    ensures t.base <= x.base <= x.high <= t.high
  {
    if x != Top(t) {
      ItemsEnclosed(t, x);
    }
  }

  /** The stored ranges form a laminar family: any two are apart or one strictly contains the other. */
  lemma {:induction false} ItemsLaminar<E>(kids: seq<Tree<E>>, x: Range<E>, y: Range<E>)
    requires Forest(kids) && x in Items(kids) && y in Items(kids) && x != y
    ensures Compatible(x, y)
    decreases kids
  {
    InItems(kids, x);
    InItems(kids, y);
    var i :| 0 <= i < |kids| && x in TreeItems(kids[i]);
    var j :| 0 <= j < |kids| && y in TreeItems(kids[j]);
    TreeItemsWithin(kids[i], x);
    TreeItemsWithin(kids[j], y);
    if i == j {
      if x == Top(kids[i]) {
        ItemsEnclosed(kids[i], y);
      } else if y == Top(kids[i]) {
        ItemsEnclosed(kids[i], x);
      } else {
        ItemsLaminar(kids[i].kids, x, y);
      }
    }
  }

  // ---------------------------------------------------------------------------------------
  // StoreRange
  // ---------------------------------------------------------------------------------------

  /** The new range is nonempty, does not wrap, and is compatible with every stored range. */
  ghost predicate Storable<E>(kids: seq<Tree<E>>, base: Address, size: Address, entry: E) {
    0 < size && base + size <= SPACE && Fits(kids, Range(base, base + size - 1, entry))
  }

  ghost predicate Fits<E>(kids: seq<Tree<E>>, r: Range<E>) {
    forall x :: x in Items(kids) ==> Compatible(r, x)
  }

  /** `kids'` is a well formed tree of the ranges of `kids` and `r`. */
  ghost predicate Adds<E>(kids: seq<Tree<E>>, kids': seq<Tree<E>>, r: Range<E>) {
    Forest(kids') && Items(kids') == Items(kids) + {r}
  }

  /** A range inside child `k` is compatible with everything outside that child. */
  lemma InsideChild<E>(kids: seq<Tree<E>>, k: nat, r: Range<E>)
    requires Forest(kids) && k < |kids| && r.base <= r.high && Encloses(Top(kids[k]), r)
    ensures Fits(kids, r) <==> Fits(kids[k].kids, r)
  {
    forall x | x in Items(kids[k].kids) ensures x in Items(kids) {
      assert x in TreeItems(kids[k]);
      InItems(kids, x);
    }
    forall x | x in Items(kids) ensures Compatible(r, x) || x in Items(kids[k].kids) {
      InItems(kids, x);
      var i :| 0 <= i < |kids| && x in TreeItems(kids[i]);
      TreeItemsWithin(kids[i], x);
      if i == k && x != Top(kids[k]) {
        assert x in Items(kids[k].kids);
      }
    }
  }

  /** A child that the new range overlaps but does not nest with is itself a stored range. */
  lemma Clash<E>(kids: seq<Tree<E>>, k: nat, r: Range<E>)
    requires k < |kids| && !Compatible(r, Top(kids[k]))
    ensures !Fits(kids, r)
  {
    assert Top(kids[k]) in TreeItems(kids[k]);
    InItems(kids, Top(kids[k]));
  }

  lemma ItemsSplit<E>(kids: seq<Tree<E>>, k: nat)
    requires k < |kids|
    ensures Items(kids) == Items(kids[..k]) + TreeItems(kids[k]) + Items(kids[k + 1..])
  {
    assert kids == kids[..k] + kids[k..];
    ItemsConcat(kids[..k], kids[k..]);
    assert kids[k..][1..] == kids[k + 1..];
  }

  /** kids[lo..end] are strictly inside `r`; the others are apart from it. */
  ghost predicate Groups<E>(kids: seq<Tree<E>>, lo: nat, end: nat, r: Range<E>) {
    && r.base <= r.high && lo <= end <= |kids|
    && (forall i :: 0 <= i < lo ==> kids[i].high < r.base)
    && (forall i :: end <= i < |kids| ==> r.high < kids[i].base)
    && (forall i :: lo <= i < end ==> Encloses(r, Top(kids[i])))
  }

  lemma RegroupNode<E>(kids: seq<Tree<E>>, lo: nat, end: nat, r: Range<E>)
    requires Forest(kids) && Groups(kids, lo, end, r)
    ensures WellFormed(Node(r.base, r.high, r.entry, kids[lo..end]))
  {
    var t := Node(r.base, r.high, r.entry, kids[lo..end]);
    forall i | 0 <= i < |t.kids| ensures Encloses(Top(t), Top(t.kids[i])) && WellFormed(t.kids[i]) {
      assert t.kids[i] == kids[lo + i] && Encloses(r, Top(kids[lo + i]));
    }
  }

  lemma RegroupForest<E>(kids: seq<Tree<E>>, lo: nat, end: nat, r: Range<E>)
    requires Forest(kids) && Groups(kids, lo, end, r)
    ensures Forest(Regroup(kids, lo, end, r))
  {
    RegroupNode(kids, lo, end, r);
    hide WellFormed;
    var kids', t := Regroup(kids, lo, end, r), Node(r.base, r.high, r.entry, kids[lo..end]);
    forall i | 0 <= i < |kids'| ensures WellFormed(kids'[i]) {
      if i != lo {
        assert kids'[i] == kids[if i < lo then i else i - 1 + (end - lo)];
      }
    }
  }

  lemma ItemsCons<E>(t: Tree<E>, rest: seq<Tree<E>>)
    ensures Items([t] + rest) == TreeItems(t) + Items(rest)
  {
    assert ([t] + rest)[1..] == rest;
  }

  lemma RegroupItems<E>(kids: seq<Tree<E>>, lo: nat, end: nat, r: Range<E>)
    requires lo <= end <= |kids|
    ensures Items(Regroup(kids, lo, end, r)) == Items(kids) + {r}
  {
    var a, b, c, t := kids[..lo], kids[lo..end], kids[end..], Node(r.base, r.high, r.entry, kids[lo..end]);
    GroupItems(a, b, c, t);
    ThreeParts(kids, lo, end);
  }

  lemma ThreeParts<T>(s: seq<T>, lo: nat, end: nat)
    requires lo <= end <= |s|
    ensures s == s[..lo] + s[lo..end] + s[end..]
  {
  }

  lemma GroupItems<E>(a: seq<Tree<E>>, b: seq<Tree<E>>, c: seq<Tree<E>>, t: Tree<E>)
    requires t.kids == b
    ensures Items(a + [t] + c) == Items(a + b + c) + {Top(t)}
  {
    ItemsMiddle(a, [t], c);
    ItemsMiddle(a, b, c);
    assert [t] + [] == [t];
    ItemsCons(t, []);
  }

  lemma ItemsMiddle<E>(a: seq<Tree<E>>, b: seq<Tree<E>>, c: seq<Tree<E>>)
    ensures Items(a + b + c) == Items(a) + Items(b) + Items(c)
  {
    ItemsConcat(a + b, c);
    ItemsConcat(a, b);
  }

  lemma RegroupCompatible<E>(kids: seq<Tree<E>>, lo: nat, end: nat, r: Range<E>)
    requires Forest(kids) && Groups(kids, lo, end, r)
    ensures Fits(kids, r)
  {
    forall x | x in Items(kids) ensures Compatible(r, x) {
      InItems(kids, x);
      var i :| 0 <= i < |kids| && x in TreeItems(kids[i]);
      TreeItemsWithin(kids[i], x);
      if lo <= i < end && x != Top(kids[i]) {
        ItemsEnclosed(kids[i], x);
      }
    }
  }

  lemma RegroupCorrect<E>(kids: seq<Tree<E>>, lo: nat, end: nat, r: Range<E>)
    requires Forest(kids) && Groups(kids, lo, end, r)
    ensures Fits(kids, r) && Adds(kids, Regroup(kids, lo, end, r), r)
  {
    RegroupForest(kids, lo, end, r);
    RegroupItems(kids, lo, end, r);
    RegroupCompatible(kids, lo, end, r);
  }

  /** Adding `r` to what is stored inside child `k`. */
  lemma ReplaceBelow<E>(kids: seq<Tree<E>>, k: nat, below: seq<Tree<E>>, r: Range<E>)
    requires Forest(kids) && k < |kids| && Encloses(Top(kids[k]), r) && Adds(kids[k].kids, below, r)
    ensures Adds(kids, kids[k := kids[k].(kids := below)], r)
  {
    var t := kids[k].(kids := below);
    ReplaceWellFormed(kids[k], below, r);
    var kids' := kids[k := t];
    assert Forest(kids') by {
      assert forall i :: 0 <= i < |kids'| ==> WellFormed(kids'[i]);
      assert forall i :: 0 <= i < |kids'| ==> kids'[i].base == kids[i].base && kids'[i].high == kids[i].high;
    }
    ItemsSplit(kids, k);
    ItemsSplit(kids', k);
    assert kids'[..k] == kids[..k] && kids'[k + 1..] == kids[k + 1..];
  }

  lemma ReplaceWellFormed<E>(t: Tree<E>, below: seq<Tree<E>>, r: Range<E>)
    requires WellFormed(t) && Forest(below) && Encloses(Top(t), r)
    requires Items(below) == Items(t.kids) + {r}
    ensures WellFormed(t.(kids := below))
  {
    forall i | 0 <= i < |below| ensures Encloses(Top(t), Top(below[i])) {
      var x := Top(below[i]);
      assert x in TreeItems(below[i]);
      InItems(below, x);
      if x != r {
        ItemsEnclosed(t, x);
      }
    }
  }

  /** A child that starts inside the new range and ends beyond it. */
  lemma PartialHigh<E>(kids: seq<Tree<E>>, lo: nat, hi: nat, r: Range<E>)
    requires Forest(kids) && r.base <= r.high
    requires IsLowerBound(kids, r.base, lo) && IsLowerBound(kids, r.high, hi)
    requires hi < |kids| && kids[hi].base <= r.high < kids[hi].high
    requires !(lo == hi && r.base >= kids[lo].base)
    ensures !Fits(kids, r)
  {
    LowerBoundMonotone(kids, r.base, r.high, lo, hi);
    assert r.base < kids[hi].base;
    Clash(kids, hi, r);
  }

  /** Siblings in order and disjoint, whatever is below them. */
  ghost predicate Flat<E>(kids: seq<Tree<E>>) {
    && (forall i :: 0 <= i < |kids| ==> kids[i].base <= kids[i].high)
    && (forall i, j :: 0 <= i < j < |kids| ==> kids[i].high < kids[j].base)
  }

  /** When no child contains the new range and none partially overlaps it. */
  lemma StoreHere<E>(kids: seq<Tree<E>>, lo: nat, hi: nat, r: Range<E>)
    requires Flat(kids) && r.base <= r.high
    requires IsLowerBound(kids, r.base, lo) && IsLowerBound(kids, r.high, hi)
    requires !(lo == hi && lo < |kids| && r.base >= kids[lo].base)
    requires !(lo < |kids| && r.base > kids[lo].base)
    requires !(hi < |kids| && r.high >= kids[hi].base && r.high < kids[hi].high)
    ensures Groups(kids, lo, if hi < |kids| && r.high >= kids[hi].base then hi + 1 else hi, r)
  {
    LowerBoundMonotone(kids, r.base, r.high, lo, hi);
    var end := if hi < |kids| && r.high >= kids[hi].base then hi + 1 else hi;
    forall i | lo <= i < end ensures Encloses(r, Top(kids[i])) {
      if lo < i {
        assert kids[lo].high < kids[i].base;
      }
    }
    forall i | end <= i < |kids| ensures r.high < kids[i].base {
      if hi < i {
        assert kids[hi].high < kids[i].base;
      }
    }
  }

  /** The place found is right: it tells whether the range fits at this level. */
  lemma LocateCorrect<E>(kids: seq<Tree<E>>, r: Range<E>)
    requires Forest(kids) && r.base <= r.high
    ensures var p := Locate(kids, r.base, r.high);
            && (p.Nowhere? ==> !Fits(kids, r))
            && (p.Below? ==> Encloses(Top(kids[p.k]), r))
            && (p.Here? ==> Groups(kids, p.lo, p.end, r))
  {
    var lo, hi := LowerBound(kids, r.base), LowerBound(kids, r.high);
    if lo == hi && lo < |kids| && r.base >= kids[lo].base {
      if kids[lo].base == r.base && kids[lo].high == r.high {
        Clash(kids, lo, r);
      }
    } else if lo < |kids| && r.base > kids[lo].base {
      Clash(kids, lo, r);
    } else if hi < |kids| && r.high >= kids[hi].base && r.high < kids[hi].high {
      PartialHigh(kids, lo, hi, r);
    } else {
      assert Flat(kids);
      StoreHere(kids, lo, hi, r);
    }
  }

  /** What StoreRange should do with the children of one node. */
  ghost predicate Stores<E>(kids: seq<Tree<E>>, r: Range<E>, result: Option<seq<Tree<E>>>) {
    && (result.Some? <==> Fits(kids, r))
    && (result.Some? ==> Adds(kids, result.value, r))
  }

  /** Passing the range on to a child that contains it. */
  lemma StoresBelow<E>(kids: seq<Tree<E>>, k: nat, r: Range<E>, below: Option<seq<Tree<E>>>)
    requires Forest(kids) && k < |kids| && r.base <= r.high && Encloses(Top(kids[k]), r)
    requires Stores(kids[k].kids, r, below)
    ensures Stores(kids, r, if below.Some? then Some(kids[k := kids[k].(kids := below.value)]) else None)
  {
    InsideChild(kids, k, r);
    if below.Some? {
      ReplaceBelow(kids, k, below.value, r);
    }
  }

  lemma {:induction false} StoreInStores<E>(kids: seq<Tree<E>>, r: Range<E>)
    requires Forest(kids) && r.base <= r.high
    ensures Stores(kids, r, StoreIn(kids, r))
    decreases kids
  {
    StoresAt(kids, r);
    var p := Locate(kids, r.base, r.high);
    if p.Below? {
      InnerForest(kids, p.k, r);
      StoreInStores(kids[p.k].kids, r);
      StoresBelow(kids, p.k, r, StoreIn(kids[p.k].kids, r));
    }
  }

  lemma InnerForest<E>(kids: seq<Tree<E>>, k: nat, r: Range<E>)
    requires Forest(kids) && r.base <= r.high && k < |kids| && Locate(kids, r.base, r.high) == Below(k)
    ensures Forest(kids[k].kids) && Encloses(Top(kids[k]), r)
  {
    assert WellFormed(kids[k]);
    LocateCorrect(kids, r);
  }

  /** Refusing the range, or storing it here. */
  lemma StoresAt<E>(kids: seq<Tree<E>>, r: Range<E>)
    requires Forest(kids) && r.base <= r.high
    ensures var p := Locate(kids, r.base, r.high);
            && (p.Nowhere? ==> Stores(kids, r, None))
            && (p.Here? ==> Stores(kids, r, Some(Regroup(kids, p.lo, p.end, r))))
  {
    LocateCorrect(kids, r);
    var p := Locate(kids, r.base, r.high);
    if p.Here? {
      RegroupCorrect(kids, p.lo, p.end, r);
    }
  }

  /**
   * StoreRange succeeds exactly when the range is nonempty, does not wrap, equals no stored range
   * and partially overlaps none; then exactly this range is added, and the tree stays well formed.
   */
  lemma StoreCorrect<E>(kids: seq<Tree<E>>, base: Address, size: Address, entry: E)
    requires Forest(kids)
    ensures Store(kids, base, size, entry).Some? <==> Storable(kids, base, size, entry)
    ensures Store(kids, base, size, entry).Some? ==>
              Adds(kids, Store(kids, base, size, entry).value, Range(base, base + size - 1, entry))
  {
    if 0 < size && base + size <= SPACE {
      assert Minus(Plus(base, size), 1) == base + size - 1;
      StoreInStores(kids, Range(base, base + size - 1, entry));
    }
  }

  // ---------------------------------------------------------------------------------------
  // RetrieveRange
  // ---------------------------------------------------------------------------------------

  /** `x` is the smallest stored range that contains the address. */
  ghost predicate Innermost<E>(kids: seq<Tree<E>>, address: Address, x: Range<E>) {
    && x in Items(kids) && Contains(x, address)
    && forall y :: y in Items(kids) && Contains(y, address) ==> y == x || Encloses(y, x)
  }

  /** Only child `k`, if any, holds ranges that contain the address. */
  lemma OnlyChild<E>(kids: seq<Tree<E>>, address: Address, k: nat, x: Range<E>)
    requires Forest(kids) && IsLowerBound(kids, address, k)
    requires x in Items(kids) && Contains(x, address)
    ensures k < |kids| && kids[k].base <= address && x in TreeItems(kids[k])
  {
    InItems(kids, x);
    var i :| 0 <= i < |kids| && x in TreeItems(kids[i]);
    TreeItemsWithin(kids[i], x);
  }

  /** RetrieveRange finds the smallest stored range that contains the address, and fails only if none does. */
  lemma {:induction false} RetrieveCorrect<E>(kids: seq<Tree<E>>, address: Address)
    requires Forest(kids)
    ensures match Retrieve(kids, address)
            case None => forall x :: x in Items(kids) ==> !Contains(x, address)
            case Some(e) => exists x :: Innermost(kids, address, x) && x.entry == e
    decreases kids
  {
    var k := LowerBound(kids, address);
    forall x | x in Items(kids) && Contains(x, address)
      ensures k < |kids| && kids[k].base <= address && x in TreeItems(kids[k])
    {
      OnlyChild(kids, address, k, x);
    }
    if k < |kids| && kids[k].base <= address {
      var t := kids[k];
      RetrieveCorrect(t.kids, address);
      ItemsSplit(kids, k);
      if Retrieve(t.kids, address).None? {
        assert Innermost(kids, address, Top(t));
      } else {
        var x :| Innermost(t.kids, address, x) && x.entry == Retrieve(t.kids, address).value;
        ItemsEnclosed(t, x);
        assert Innermost(kids, address, x);
      }
    }
  }

  // ---------------------------------------------------------------------------------------
  // The order of stores does not matter
  // ---------------------------------------------------------------------------------------

  /** The first trees of two forests that hold the same ranges describe the same range. */
  lemma FirstMatches<E>(a: seq<Tree<E>>, b: seq<Tree<E>>)
    requires Forest(a) && Forest(b) && Items(a) == Items(b) && a != []
    ensures b != [] && Top(a[0]) == Top(b[0])
  {
    var x := Top(a[0]);
    assert x in TreeItems(a[0]);
    InItems(a, x);
    InItems(b, x);
    var j :| 0 <= j < |b| && x in TreeItems(b[j]);
    TreeItemsWithin(b[j], x);
    TopAmong(a, b, j, x);
    if j > 0 {
      var z := Top(b[0]);
      assert z in TreeItems(b[0]);
      InItems(b, z);
      InItems(a, z);
      var i :| 0 <= i < |a| && z in TreeItems(a[i]);
      TreeItemsWithin(a[i], z);
      assert false;
    }
  }

  /** The tree of `b` that holds the first range of `a` describes that range. */
  lemma TopAmong<E>(a: seq<Tree<E>>, b: seq<Tree<E>>, j: nat, x: Range<E>)
    requires Forest(a) && Forest(b) && Items(a) == Items(b) && a != [] && j < |b|
    requires x == Top(a[0]) && x in Items(a) && b[j].base <= x.base <= x.high <= b[j].high
    ensures Top(b[j]) == x
  {
    var y := Top(b[j]);
    assert y in TreeItems(b[j]);
    InItems(b, y);
    InItems(a, y);
    var i :| 0 <= i < |a| && y in TreeItems(a[i]);
    TreeItemsWithin(a[i], y);
    if x != y {
      ItemsLaminar(a, x, y);
    }
  }

  ghost function EnclosedBy<E>(items: set<Range<E>>, r: Range<E>): set<Range<E>> {
    set x | x in items && Encloses(r, x)
  }

  ghost function ApartFrom<E>(items: set<Range<E>>, r: Range<E>): set<Range<E>> {
    set x | x in items && Apart(r, x)
  }

  /** The ranges below the first tree, and those of the other trees, by their relation to the first range. */
  lemma FirstSplits<E>(a: seq<Tree<E>>)
    requires Forest(a) && a != []
    ensures Items(a[0].kids) == EnclosedBy(Items(a), Top(a[0]))
    ensures Items(a[1..]) == ApartFrom(Items(a), Top(a[0]))
  {
    forall x | x in Items(a[0].kids) ensures Encloses(Top(a[0]), x) && x.base <= x.high {
      ItemsEnclosed(a[0], x);
    }
    forall x | x in Items(a[1..]) ensures Apart(Top(a[0]), x) && x.base <= x.high {
      InItems(a[1..], x);
      var i :| 0 <= i < |a[1..]| && x in TreeItems(a[1..][i]);
      TreeItemsWithin(a[i + 1], x);
      assert a[0].high < a[i + 1].base;
    }
    assert WellFormed(a[0]);
  }

  lemma EmptyItems<E>(b: seq<Tree<E>>)
    ensures Items(b) == {} <==> b == []
  {
    if b != [] {
      assert Top(b[0]) in Items(b);
    }
  }

  /** A set of ranges has at most one tree: the tree is a normal form. */
  lemma {:induction false} Canonical<E>(a: seq<Tree<E>>, b: seq<Tree<E>>)
    requires Forest(a) && Forest(b) && Items(a) == Items(b)
    ensures a == b
    decreases a
  {
    if a == [] {
      EmptyItems(b);
    } else {
      FirstMatches(a, b);
      FirstSplits(a);
      FirstSplits(b);
      Canonical(a[0].kids, b[0].kids);
      Canonical(a[1..], b[1..]);
      assert a == [a[0]] + a[1..] && b == [b[0]] + b[1..];
    }
  }

  /** Store the ranges one after another; None as soon as one is refused. */
  function StoreAll<E>(kids: seq<Tree<E>>, rs: seq<Range<E>>): (r: Option<seq<Tree<E>>>)
    requires forall i :: 0 <= i < |rs| ==> rs[i].high - rs[i].base + 1 < SPACE && rs[i].base <= rs[i].high
    decreases rs
  {
    if rs == [] then Some(kids)
    else
      match Store(kids, rs[0].base, rs[0].high - rs[0].base + 1, rs[0].entry)
      case None => None
      case Some(kids') => StoreAll(kids', rs[1..])
  }

  /** Distinct ranges of representable sizes, any two apart or nested. */
  ghost predicate Laminar<E>(rs: seq<Range<E>>) {
    && (forall i :: 0 <= i < |rs| ==> rs[i].base <= rs[i].high && rs[i].high - rs[i].base + 1 < SPACE)
    && (forall i, j :: 0 <= i < j < |rs| ==> Compatible(rs[i], rs[j]))
  }

  lemma {:induction false} StoreAllCorrect<E>(kids: seq<Tree<E>>, rs: seq<Range<E>>)
    requires Forest(kids) && Laminar(rs) && forall i :: 0 <= i < |rs| ==> Fits(kids, rs[i])
    ensures StoreAll(kids, rs).Some? && Forest(StoreAll(kids, rs).value)
    ensures Items(StoreAll(kids, rs).value) == Items(kids) + Members(rs)
    decreases rs
  {
    hide Store;
    hide Items;
    hide Forest;
    if rs != [] {
      var r, size, rest := rs[0], rs[0].high - rs[0].base + 1, rs[1..];
      StoreCorrect(kids, r.base, size, r.entry);
      var kids' := Store(kids, r.base, size, r.entry).value;
      StillFits(kids, kids', rs);
      StoreAllCorrect(kids', rest);
      MembersSplit(rs);
    }
  }

  ghost function Members<T>(s: seq<T>): set<T> {
    set x | x in s
  }

  lemma MembersSplit<T>(s: seq<T>)
    requires s != []
    ensures Members(s) == {s[0]} + Members(s[1..])
  {
    assert s == [s[0]] + s[1..];
  }

  /** With the first range stored, the others still fit. */
  lemma StillFits<E>(kids: seq<Tree<E>>, kids': seq<Tree<E>>, rs: seq<Range<E>>)
    requires Laminar(rs) && rs != [] && forall i :: 0 <= i < |rs| ==> Fits(kids, rs[i])
    requires Adds(kids, kids', rs[0])
    ensures Laminar(rs[1..]) && forall i :: 0 <= i < |rs[1..]| ==> Fits(kids', rs[1..][i])
  {
    forall i | 0 <= i < |rs[1..]| ensures Fits(kids', rs[1..][i]) {
      assert Compatible(rs[0], rs[i + 1]) && Fits(kids, rs[i + 1]);
    }
  }

  /** Storing a laminar family in any order always succeeds and produces the same tree. */
  lemma OrderInsensitive<E>(rs: seq<Range<E>>, rs': seq<Range<E>>)
    requires Laminar(rs) && Laminar(rs') && forall x :: x in rs <==> x in rs'
    ensures StoreAll([], rs).Some? && StoreAll([], rs) == StoreAll([], rs')
  {
    StoreAllCorrect([], rs);
    StoreAllCorrect([], rs');
    assert Members(rs) == Members(rs');
    Canonical(StoreAll([], rs).value, StoreAll([], rs').value);
  }

  datatype Call<E> = Call(base: Address, size: Address, entry: E)

  /** `c` asks to store `x`. */
  ghost predicate Asks<E>(c: Call<E>, x: Range<E>) {
    c.base == x.base && c.size == x.high - x.base + 1 && c.entry == x.entry
  }

  /** A whole run of StoreRange calls, refused ones included. */
  function Run<E>(kids: seq<Tree<E>>, calls: seq<Call<E>>): (r: seq<Tree<E>>)
    decreases calls
  {
    if calls == [] then kids
    else
      var kids' := match Store(kids, calls[0].base, calls[0].size, calls[0].entry)
                   case None => kids
                   case Some(k) => k;
      Run(kids', calls[1..])
  }

  /** Every reachable map is a forest, keeps what it held, and holds only what was asked for. */
  lemma {:induction false} RunCorrect<E>(kids: seq<Tree<E>>, calls: seq<Call<E>>)
    requires Forest(kids)
    ensures Forest(Run(kids, calls)) && Items(kids) <= Items(Run(kids, calls))
    ensures forall x :: x in Items(Run(kids, calls)) && x !in Items(kids) ==> exists c :: c in calls && Asks(c, x)
    decreases calls
  {
    if calls != [] {
      var c, rest := calls[0], calls[1..];
      var r := Store(kids, c.base, c.size, c.entry);
      StoreCorrect(kids, c.base, c.size, c.entry);
      var kids' := if r.Some? then r.value else kids;
      RunCorrect(kids', rest);
      forall x | x in Items(Run(kids, calls)) && x !in Items(kids) ensures exists c :: c in calls && Asks(c, x) {
        if x in Items(kids') {
          assert c in calls && Asks(c, x);
        } else {
          var d :| d in rest && Asks(d, x);
          assert d in calls;
        }
      }
    }
  }
}
