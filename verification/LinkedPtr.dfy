/**
 * linked_ptr: reference tracking without a counter. All pointers to one object form a circle
 * through their `next` links; the last one to leave the circle deletes the object.
 */
module LinkedPtrs {

  // ---------------------------------------------------------------------------------------
  // What the operations mean: who holds which object, and what has been deleted
  // ---------------------------------------------------------------------------------------

  /** Object 0 is NULL. `owned` are the objects handed to pointers and not released again. */
  datatype World<P> = World(holders: map<P, nat>, deleted: seq<nat>, owned: set<nat>)

  datatype Op<P> =
    | Create(p: P, v: nat) // linked_ptr(T* ptr)
    | Copy(p: P, q: P) // linked_ptr(linked_ptr const&)
    | Assign(p: P, q: P) // operator=
    | Reset(p: P, v: nat)
    | Release(p: P)
    | Destroy(p: P)

  ghost predicate Held<P>(holders: map<P, nat>, v: nat) {
    exists p :: p in holders && holders[p] == v
  }

  /** Pointer `p` leaves: its object is deleted if nobody else holds it. */
  ghost function Leave<P>(w: World<P>, p: P): World<P>
    requires p in w.holders
  {
    var rest, v := w.holders - {p}, w.holders[p];
    World(rest, if v == 0 || Held(rest, v) then w.deleted else w.deleted + [v], w.owned)
  }

  /** A fresh pointer or one that has just left takes `v`. */
  function Take<P>(w: World<P>, p: P, v: nat): World<P> {
    w.(holders := w.holders[p := v], owned := if v == 0 then w.owned else w.owned + {v})
  }

  /** What the class demands of its callers: objects come from outside, and release needs sole ownership. */
  ghost predicate Allowed<P>(w: World<P>, op: Op<P>) {
    match op
    case Create(p, v) => p !in w.holders && (v == 0 || v !in w.owned)
    case Copy(p, q) => p !in w.holders && q in w.holders
    case Assign(p, q) => p in w.holders && q in w.holders
    case Reset(p, v) => p in w.holders && (v == 0 || v !in w.owned)
    case Release(p) => p in w.holders && (w.holders[p] == 0 || !Held(w.holders - {p}, w.holders[p]))
    case Destroy(p) => p in w.holders
  }

  ghost function Step<P>(w: World<P>, op: Op<P>): World<P>
    requires Allowed(w, op)
  {
    match op
    case Create(p, v) => Take(w, p, v)
    case Copy(p, q) => Take(w, p, w.holders[q])
    case Assign(p, q) => if p == q then w else Take(Leave(w, p), p, w.holders[q])
    case Reset(p, v) => Take(Leave(w, p), p, v)
    case Release(p) => w.(holders := w.holders[p := 0], owned := w.owned - {w.holders[p]})
    case Destroy(p) => Leave(w, p)
  }

  ghost predicate NoRepeats(s: seq<nat>) {
    forall i, j :: 0 <= i < j < |s| ==> s[i] != s[j]
  }

  /** Every owned object is either held or deleted, never both, and deleted at most once. */
  ghost predicate Sound<P>(w: World<P>) {
    && NoRepeats(w.deleted)
    && 0 !in w.owned
    && (forall v :: v in w.deleted ==> v in w.owned && !Held(w.holders, v))
    && (forall v :: v in w.owned ==> v in w.deleted || Held(w.holders, v))
    && (forall p :: p in w.holders && w.holders[p] != 0 ==> w.holders[p] in w.owned)
  }

  lemma LeaveSound<P>(w: World<P>, p: P)
    requires Sound(w) && p in w.holders
    ensures Sound(Leave(w, p))
  {
    var w', v := Leave(w, p), w.holders[p];
    forall u | u in w'.deleted ensures u in w.owned && !Held(w'.holders, u) {
      if u in w.deleted {
        assert !Held(w.holders, u);
      }
    }
    forall u | u in w.owned ensures u in w'.deleted || Held(w'.holders, u) {
      if u !in w.deleted && u != v {
        var q :| q in w.holders && w.holders[q] == u;
        assert q in w'.holders && w'.holders[q] == u;
      }
    }
    if v != 0 {
      assert Held(w.holders, v);
    }
  }

  lemma TakeSound<P>(w: World<P>, p: P, v: nat)
    requires Sound(w) && p !in w.holders
    requires v == 0 || v !in w.owned || Held(w.holders, v)
    ensures Sound(Take(w, p, v))
  {
    var w' := Take(w, p, v);
    forall u | u in w'.deleted ensures u in w'.owned && !Held(w'.holders, u) {
      assert !Held(w.holders, u);
    }
    forall u | u in w'.owned ensures u in w'.deleted || Held(w'.holders, u) {
      if u == v {
        assert p in w'.holders && w'.holders[p] == u;
      } else if u !in w.deleted {
        var q :| q in w.holders && w.holders[q] == u;
        assert q in w'.holders && w'.holders[q] == u;
      }
    }
  }

  lemma ReleaseSound<P>(w: World<P>, p: P)
    requires Sound(w) && Allowed(w, Release(p))
    ensures Sound(Step(w, Release(p)))
  {
    var w', v, rest := Step(w, Release(p)), w.holders[p], w.holders - {p};
    assert Held(w.holders, v);
    forall u | u in w'.deleted ensures u in w'.owned && !Held(w'.holders, u) {
      assert !Held(w.holders, u);
    }
    forall u | u in w'.owned ensures u in w'.deleted || Held(w'.holders, u) {
      if u !in w.deleted {
        var q :| q in w.holders && w.holders[q] == u;
        assert q in w'.holders && w'.holders[q] == u;
      }
    }
    forall q | q in w'.holders && w'.holders[q] != 0 ensures w'.holders[q] in w'.owned {
      assert q in rest && rest[q] == w.holders[q];
    }
  }

  lemma StepSound<P>(w: World<P>, op: Op<P>)
    requires Sound(w) && Allowed(w, op)
    ensures Sound(Step(w, op))
  {
    match op
    case Create(p, v) => TakeSound(w, p, v);
    case Copy(p, q) =>
      assert Held(w.holders, w.holders[q]);
      TakeSound(w, p, w.holders[q]);
    case Assign(p, q) =>
      if p != q {
        LeaveSound(w, p);
        assert q in Leave(w, p).holders && Leave(w, p).holders[q] == w.holders[q];
        TakeSound(Leave(w, p), p, w.holders[q]);
      }
    case Reset(p, v) =>
      LeaveSound(w, p);
      TakeSound(Leave(w, p), p, v);
    case Release(p) => ReleaseSound(w, p);
    case Destroy(p) => LeaveSound(w, p);
  }

  /** The states of a run: `w` and then the state after each operation. */
  ghost predicate IsRun<P>(ws: seq<World<P>>, ops: seq<Op<P>>) {
    && |ws| == |ops| + 1
    && ws[0] == World(map[], [], {})
    && forall i :: 0 <= i < |ops| ==> Allowed(ws[i], ops[i]) && ws[i + 1] == Step(ws[i], ops[i])
  }

  /**
   * Over every run: each state is sound, and once no pointer is left, the objects that were handed
   * over and not released have all been deleted, each exactly once.
   */
  lemma {:induction false} RunDeletesOnce<P>(ws: seq<World<P>>, ops: seq<Op<P>>, n: nat)
    requires IsRun(ws, ops) && n <= |ops|
    ensures Sound(ws[n])
    ensures ws[n].holders == map[] ==> (set v | v in ws[n].deleted) == ws[n].owned && NoRepeats(ws[n].deleted)
  {
    if n > 0 {
      RunDeletesOnce(ws, ops, n - 1);
      StepSound(ws[n - 1], ops[n - 1]);
    }
  }

  // ---------------------------------------------------------------------------------------
  // The circles on the heap
  // ---------------------------------------------------------------------------------------

  /** A linked_ptr: its object and the next pointer of its circle. */
  class Ptr {
    var value: nat
    var next: Ptr?

    constructor ()
      ensures value == 0 && next == null
    {
      value, next := 0, null;
    }
  }

  function Succ(n: nat, i: nat): (j: nat)
    requires i < n
    ensures j < n
  {
    if i + 1 == n then 0 else i + 1
  }

  /** `c` lists a circle: distinct pointers, each linked to the one after it and the last to the first. */
  ghost predicate Circle(c: seq<Ptr>)
    reads c
  {
    && |c| > 0
    && (forall i, j :: 0 <= i < j < |c| ==> c[i] != c[j])
    && (forall i :: 0 <= i < |c| ==> c[i].next == c[Succ(|c|, i)])
  }

  /** The index `k` links after index `s`. */
  function Along(n: nat, s: nat, k: nat): (j: nat)
    requires s < n && k < n
    ensures j < n
  {
    if s + k < n then s + k else s + k - n
  }

  function Pred(n: nat, i: nat): (j: nat)
    requires i < n
    ensures j < n
  {
    if i == 0 then n - 1 else i - 1
  }

  /** The walk of `join` and `depart`: from c[s], the member of the circle whose next is c[i]. */
  method Walk(start: Ptr, target: Ptr, ghost c: seq<Ptr>, ghost s: nat, ghost i: nat) returns (q: Ptr)
    requires Circle(c) && s < |c| && i < |c| && c[s] == start && c[i] == target
    ensures q == c[Pred(|c|, i)]
  {
    q := start;
    ghost var n, k := |c|, 0;
    // How many links there are from c[s] to the member before c[i].
    ghost var distance := if s < i then i - 1 - s else n - 1 - s + i;
    while q.next != target
      invariant 0 <= k <= distance < n && q == c[Along(n, s, k)]
      decreases n - k
    {
      assert Along(n, s, distance) == Pred(n, i) && Succ(n, Pred(n, i)) == i;
      q := q.next;
      k := k + 1;
    }
    assert q.next == c[Succ(n, Along(n, s, k))];
  }

  ghost function Without(c: seq<Ptr>, i: nat): (r: seq<Ptr>)
    requires i < |c|
    ensures |r| == |c| - 1
    ensures forall j :: 0 <= j < |r| ==> r[j] == c[if j < i then j else j + 1]
    ensures forall x :: x in r ==> x in c
  {
    c[..i] + c[i + 1..]
  }

  ghost function With(c: seq<Ptr>, i: nat, p: Ptr): (r: seq<Ptr>)
    requires i < |c|
    ensures |r| == |c| + 1
  {
    c[..i] + [p] + c[i..]
  }

  lemma WithAt(c: seq<Ptr>, i: nat, p: Ptr, j: nat)
    requires i < |c| && j <= |c|
    ensures With(c, i, p)[j] == if j < i then c[j] else if j == i then p else c[j - 1]
  {
  }

  lemma WithMembers(c: seq<Ptr>, i: nat, p: Ptr, x: Ptr)
    requires i < |c|
    ensures x in With(c, i, p) <==> x in c || x == p
  {
    assert c == c[..i] + c[i..];
  }

  /** linked_ptr_internal::depart for a circle with other members. */
  method Unlink(p: Ptr, ghost c: seq<Ptr>, ghost i: nat)
    requires Circle(c) && i < |c| && c[i] == p && p.next != p
    modifies c`next
    ensures |c| > 1 && Circle(Without(c, i))
  {
    ghost var n := |c|;
    assert n > 1 by {
      assert c[Succ(n, i)] != c[i];
    }
    var q := Walk(p.next, p, c, Succ(n, i), i);
    q.next := p.next;
    ghost var c' := Without(c, i);
    forall j | 0 <= j < |c'| ensures c'[j].next == c'[Succ(n - 1, j)] {
      var m := if j < i then j else j + 1;
      assert c'[j] == c[m];
    }
  }

  /** linked_ptr_internal::join: become the member before c[i]. */
  method Join(p: Ptr, ptr: Ptr, ghost c: seq<Ptr>, ghost i: nat)
    requires Circle(c) && i < |c| && c[i] == ptr && p !in c
    modifies c`next, p`next
    ensures Circle(With(c, i, p))
  {
    ghost var n := |c|;
    var q := Walk(ptr, ptr, c, i, i);
    q.next := p;
    p.next := ptr;
    ghost var c' := With(c, i, p);
    assert forall j :: 0 <= j < n && j != Pred(n, i) ==> c[j].next == c[Succ(n, j)];
    hide With;
    forall j | 0 <= j < |c'| ensures c'[j].next == c'[Succ(n + 1, j)] {
      LinkedWith(c, i, p, j);
    }
    forall j, k | 0 <= j < k < |c'| ensures c'[j] != c'[k] {
      WithAt(c, i, p, j);
      WithAt(c, i, p, k);
    }
  }

  /** Each member of the larger circle is linked as it should be. */
  lemma LinkedWith(c: seq<Ptr>, i: nat, p: Ptr, j: nat)
    requires i < |c| && j <= |c|
    requires forall k :: 0 <= k < |c| && k != Pred(|c|, i) ==> c[k].next == c[Succ(|c|, k)]
    requires c[Pred(|c|, i)].next == p && p.next == c[i]
    ensures With(c, i, p)[j].next == With(c, i, p)[Succ(|c| + 1, j)]
  {
    hide With;
    WithAt(c, i, p, j);
    WithAt(c, i, p, Succ(|c| + 1, j));
  }

  /** `c` is the circle of the pointers to `v`. */
  ghost predicate Ring(c: seq<Ptr>, v: nat)
    reads c
  {
    v != 0 && Circle(c) && forall i :: 0 <= i < |c| ==> c[i].value == v
  }

  /** The live pointers fall into one circle for each object held, and null pointers that are alone. */
  ghost predicate Partition(live: set<Ptr>, rings: map<nat, seq<Ptr>>)
    reads live
  {
    && (forall v, p :: v in rings && p in rings[v] ==> p in live)
    && (forall v :: v in rings ==> Ring(rings[v], v))
    && (forall p :: p in live && p.value == 0 ==> p.next == p)
    && (forall p :: p in live && p.value != 0 ==> p.value in rings && p in rings[p.value])
  }

  ghost function Values(live: set<Ptr>): map<Ptr, nat>
    reads live
  {
    map p | p in live :: p.value
  }

  /** The circle of `v` loses `p`, or changes to `c'`. */
  lemma PartitionUpdate(live: set<Ptr>, rings: map<nat, seq<Ptr>>, live': set<Ptr>, v: nat, c': seq<Ptr>)
    requires forall u, x :: u in rings && u != v && x in rings[u] ==> x in live'
    requires forall u :: u in rings && u != v ==> Ring(rings[u], u)
    requires Ring(c', v) && forall x :: x in c' ==> x in live'
    requires forall x :: x in live' && x.value == 0 ==> x.next == x
    requires forall x :: x in live' && x.value != 0 && x.value != v ==> x.value in rings && x in rings[x.value]
    requires forall x :: x in live' && x.value == v ==> x in c'
    ensures Partition(live', rings[v := c'])
  {
  }

  /** All pointers and all the objects they have deleted. */
  class Pointers {
    ghost var live: set<Ptr>
    // The circle of each object that is held.
    ghost var rings: map<nat, seq<Ptr>>
    ghost var owned: set<nat>
    var deleted: seq<nat>

    /** The links are in order. */
    ghost predicate Linked()
      reads this, live
    {
      Partition(live, rings)
    }

    ghost predicate Valid()
      reads this, live
    {
      Linked() && Sound(Abs())
    }

    ghost function Abs(): World<Ptr>
      reads this, live
    {
      World(Values(live), deleted, owned)
    }

    constructor ()
      ensures Valid() && Abs() == World(map[], [], {})
    {
      live, rings, owned, deleted := {}, map[], {}, [];
    }

    /** The only member of its circle leaves. */
    method DepartAlone(p: Ptr)
      requires Linked() && p in live && p.next == p
      modifies this`live, this`rings, this`deleted
      ensures Linked() && live == old(live) - {p} && Abs() == Leave(old(Abs()), p)
    {
      ghost var v := p.value;
      if p.value != 0 {
        ghost var c := rings[v];
        assert Ring(c, v);
        ghost var i :| 0 <= i < |c| && c[i] == p;
        assert c[Succ(|c|, i)] == c[i];
        assert c == [p];
        deleted := deleted + [p.value];
      }
      live, rings := live - {p}, rings - {v};
      assert Abs().holders == old(Abs().holders) - {p};
    }

    /** Take `p` out of a circle with other members, `c'`. */
    method LeaveRing(p: Ptr) returns (ghost c': seq<Ptr>)
      requires Linked() && p in live && p.next != p
      modifies live`next
      ensures Partition(live - {p}, rings[p.value := c'])
      ensures p.value != 0 && c' != [] && c'[0] in live - {p} && c'[0].value == p.value
    {
      ghost var v, c := p.value, rings[p.value];
      assert Ring(c, v);
      ghost var i :| 0 <= i < |c| && c[i] == p;
      Unlink(p, c, i);
      forall u | u in rings && u != v ensures Ring(rings[u], u) {
        assert old(Ring(rings[u], u));
      }
      c' := Without(c, i);
      PartitionUpdate(live, rings, live - {p}, v, c');
    }

    /** One of several members of a circle leaves it. */
    method DepartCircle(p: Ptr)
      requires Linked() && p in live && p.next != p
      modifies this`live, this`rings, live`next
      ensures Linked() && live == old(live) - {p} && Abs() == Leave(old(Abs()), p)
    {
      ghost var c' := LeaveRing(p);
      hide Partition;
      live, rings := live - {p}, rings[p.value := c'];
      assert Abs().holders == old(Abs().holders) - {p};
      assert c'[0] in Abs().holders && Abs().holders[c'[0]] == p.value;
    }

    /** linked_ptr::depart: leave the circle, and delete the object if the circle had no other member. */
    method Depart(p: Ptr)
      requires Linked() && p in live
      modifies this`live, this`rings, this`deleted, live`next
      ensures Linked() && live == old(live) - {p} && Abs() == Leave(old(Abs()), p)
    {
      if p.next == p {
        DepartAlone(p);
      } else {
        DepartCircle(p);
      }
    }

    /** linked_ptr::capture: a circle of one. */
    method Capture(p: Ptr, v: nat)
      requires Linked() && p !in live && (v == 0 || v !in rings)
      modifies this`live, this`rings, this`owned, p
      ensures Linked() && live == old(live) + {p} && p.value == v && Abs() == Take(old(Abs()), p, v)
    {
      p.value, p.next := v, p;
      live := live + {p};
      if v != 0 {
        rings, owned := rings[v := [p]], owned + {v};
        assert Ring([p], v);
      }
      assert Abs().holders == old(Abs().holders)[p := v];
    }

    /** Put `p` into the circle of `q`, which becomes `c'`. */
    method JoinRing(p: Ptr, q: Ptr) returns (ghost c': seq<Ptr>)
      requires Linked() && p !in live && q in live && q.value != 0 && p.value == q.value
      modifies live`next, p`next
      ensures Partition(live + {p}, rings[q.value := c'])
    {
      ghost var v, c := q.value, rings[q.value];
      assert Ring(c, v);
      ghost var i :| 0 <= i < |c| && c[i] == q;
      Join(p, q, c, i);
      forall u | u in rings && u != v ensures Ring(rings[u], u) {
        assert old(Ring(rings[u], u));
      }
      c' := With(c, i, p);
      hide With;
      forall x | x in live + {p} ensures x in c' <==> x in c || x == p {
        WithMembers(c, i, p, x);
      }
      forall j | 0 <= j < |c'| ensures c'[j].value == v && c'[j] in live + {p} {
        WithAt(c, i, p, j);
      }
      PartitionUpdate(live, rings, live + {p}, v, c');
    }

    /** linked_ptr::copy: hold what `q` holds. */
    method CopyFrom(p: Ptr, q: Ptr)
      requires Linked() && p !in live && q in live
      modifies this`live, this`rings, this`owned, live`next, p
      ensures Linked() && live == old(live) + {p} && Abs() == Take(old(Abs()), p, old(q.value))
      ensures p.value == old(q.value)
    {
      if q.value == 0 {
        Capture(p, 0);
      } else {
        p.value := q.value;
        ghost var c' := JoinRing(p, q);
        hide Partition;
        live, rings, owned := live + {p}, rings[q.value := c'], owned + {q.value};
        assert Abs().holders == old(Abs().holders)[p := old(q.value)];
      }
    }

    lemma HeldIsOwned(v: nat)
      requires Valid() && v in rings
      ensures v in owned
    {
      assert Ring(rings[v], v);
      assert rings[v][0] in Abs().holders;
    }

    /** Of the live pointers only `p` holds its object. */
    ghost predicate LastHolder(p: Ptr)
      reads this, live, p
    {
      p.value != 0 && forall x :: x in live && x != p ==> x.value != p.value
    }

    /** What is deleted when `p` leaves. */
    ghost function LastOf(p: Ptr): seq<nat>
      reads this, live, p
    {
      if LastHolder(p) then [p.value] else []
    }

    lemma LeaveDeletes(p: Ptr)
      requires p in live
      ensures Leave(Abs(), p).deleted == deleted + LastOf(p)
    {
      var rest := Abs().holders - {p};
      forall x | x in live && x != p ensures x in rest && rest[x] == x.value {
      }
      if Held(rest, p.value) {
        var x :| x in rest && rest[x] == p.value;
        assert x in live && x != p;
      }
      assert deleted + [] == deleted;
    }

    // The operations of linked_ptr

    method Create(v: nat) returns (p: Ptr)
      requires Valid() && (v == 0 || v !in owned)
      modifies this
      ensures Valid() && fresh(p)
      ensures Allowed(old(Abs()), Op.Create(p, v)) && Abs() == Step(old(Abs()), Op.Create(p, v))
      ensures live == old(live) + {p} && p.value == v && deleted == old(deleted)
      ensures forall x :: x in old(live) ==> x.value == old(x.value)
    {
      if v in rings {
        HeldIsOwned(v);
      }
      p := new Ptr();
      StepSound(Abs(), Op.Create(p, v));
      Capture(p, v);
    }

    method Copy(q: Ptr) returns (p: Ptr)
      requires Valid() && q in live
      modifies this, live`next
      ensures Valid() && fresh(p)
      ensures Allowed(old(Abs()), Op.Copy(p, q)) && Abs() == Step(old(Abs()), Op.Copy(p, q))
      ensures live == old(live) + {p} && p.value == old(q.value) && deleted == old(deleted)
      ensures forall x :: x in old(live) ==> x.value == old(x.value)
    {
      p := new Ptr();
      StepSound(Abs(), Op.Copy(p, q));
      CopyFrom(p, q);
    }

    method Assign(p: Ptr, q: Ptr)
      requires Valid() && p in live && q in live
      modifies this, live
      ensures Valid() && Abs() == Step(old(Abs()), Op.Assign(p, q))
      ensures live == old(live) && p.value == old(q.value)
      ensures deleted == if p == q then old(deleted) else old(deleted) + old(LastOf(p))
      ensures forall x :: x in old(live) && x != p ==> x.value == old(x.value)
    {
      StepSound(Abs(), Op.Assign(p, q));
      if p != q {
        LeaveDeletes(p);
        Depart(p);
        CopyFrom(p, q);
      }
    }

    method Reset(p: Ptr, v: nat)
      requires Valid() && p in live && (v == 0 || v !in owned)
      modifies this, live
      ensures Valid() && Abs() == Step(old(Abs()), Op.Reset(p, v))
      ensures live == old(live) && p.value == v && deleted == old(deleted) + old(LastOf(p))
      ensures forall x :: x in old(live) && x != p ==> x.value == old(x.value)
    {
      StepSound(Abs(), Op.Reset(p, v));
      LeaveDeletes(p);
      LeaveSound(Abs(), p);
      Depart(p);
      if v in rings {
        HeldIsOwned(v);
      }
      Capture(p, v);
    }

    /** Sole ownership is required; the object is handed back, not deleted. */
    method Release(p: Ptr) returns (v: nat)
      requires Valid() && Allowed(Abs(), Op.Release(p))
      modifies this`rings, this`owned, p
      ensures Valid() && v == old(p.value) && Abs() == Step(old(Abs()), Op.Release(p))
      ensures p.value == 0 && v !in owned
    {
      StepSound(Abs(), Op.Release(p));
      hide Sound, Partition, Held;
      v := p.value;
      // The link departs first, which changes nothing for the only member of a circle.
      if v != 0 {
        AloneInRing(p);
      }
      Forget(p);
      owned := owned - {v};
    }

    /** The only member of a circle becomes null. */
    method Forget(p: Ptr)
      requires Linked() && p in live && (p.value != 0 ==> p.value in rings && rings[p.value] == [p])
      modifies this`rings, p`value
      ensures Linked() && p.value == 0 && Abs() == old(Abs()).(holders := old(Abs()).holders[p := 0])
    {
      ghost var was := rings;
      assert p.value != 0 ==> Ring([p], p.value);
      rings := rings - {p.value};
      p.value := 0;
      forall u | u in rings ensures Ring(rings[u], u) {
        assert old(Ring(rings[u], u));
      }
      assert Abs().holders == old(Abs()).holders[p := 0];
    }

    /** The sole owner of an object is alone in its circle. */
    lemma AloneInRing(p: Ptr)
      requires Linked() && p in live && p.value != 0 && !Held(Values(live) - {p}, p.value)
      ensures p.value in rings && rings[p.value] == [p] && p.next == p
    {
      var c := rings[p.value];
      assert Ring(c, p.value);
      var i :| 0 <= i < |c| && c[i] == p;
      if |c| > 1 {
        OtherHolder(p, c[Succ(|c|, i)]);
      }
      assert c[0].next == c[Succ(|c|, 0)];
    }

    lemma OtherHolder(p: Ptr, q: Ptr)
      requires q in live && q != p
      ensures Held(Values(live) - {p}, q.value)
    {
      var rest := Values(live) - {p};
      assert q in rest && rest[q] == q.value;
    }

    method Destroy(p: Ptr)
      requires Valid() && p in live
      modifies this, live
      ensures Valid() && Abs() == Step(old(Abs()), Op.Destroy(p))
      ensures live == old(live) - {p} && deleted == old(deleted) + old(LastOf(p))
      ensures forall x :: x in old(live) && x != p ==> x.value == old(x.value)
    {
      StepSound(Abs(), Op.Destroy(p));
      LeaveDeletes(p);
      Depart(p);
    }
  }
}
