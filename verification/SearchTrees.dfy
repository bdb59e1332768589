/**
 The search trees behind the store and the static routes.

 The balancing of the AVL library is not modelled. `Put` and `Remove` are methods, so callers see
 only their contracts: the result is *some* search tree with the right contents. Everything proved
 about a tree elsewhere therefore holds for every shape the library could produce.
 */
module SearchTrees {
  import opened Envelopes

  datatype Tree<+V> = Nil | Node(left: Tree<V>, key: int, value: V, right: Tree<V>)

  datatype Entry<+V> = Entry(key: int, value: V)

  /** The finite map a tree stands for. */
  ghost function Contents<V>(t: Tree<V>): map<int, V> {
    match t
    case Nil => map[]
    case Node(l, k, v, r) => Merge(Contents(l), k, v, Contents(r))
  }

  ghost function Merge<V>(a: map<int, V>, k: int, v: V, b: map<int, V>): map<int, V> {
    a + b + map[k := v]
  }

  ghost predicate Separates<V>(a: map<int, V>, k: int, b: map<int, V>) {
    && (forall x :: x in a ==> x < k)
    && (forall x :: x in b ==> k < x)
  }

  ghost predicate IsBst<V>(t: Tree<V>) {
    match t
    case Nil => true
    case Node(l, k, _, r) =>
      IsBst(l) && IsBst(r) && Separates(Contents(l), k, Contents(r))
  }

  /** The entries in ascending key order. */
  ghost function InOrder<V>(t: Tree<V>): seq<Entry<V>> {
    match t
    case Nil => []
    case Node(l, k, v, r) => InOrder(l) + [Entry(k, v)] + InOrder(r)
  }

  ghost predicate Sorted<V>(s: seq<Entry<V>>) {
    forall i, j :: 0 <= i < j < |s| ==> s[i].key < s[j].key
  }

  /** `s` lists exactly the bindings of `m`, in ascending key order. */
  ghost predicate Lists<V>(s: seq<Entry<V>>, m: map<int, V>) {
    && Sorted(s)
    && (forall i :: 0 <= i < |s| ==> s[i].key in m && m[s[i].key] == s[i].value)
    && (forall k {:trigger Entry(k, m[k])} :: k in m ==> Entry(k, m[k]) in s)
  }

  lemma MergeLists<V>(a: seq<Entry<V>>, ma: map<int, V>, k: int, v: V, b: seq<Entry<V>>, mb: map<int, V>)
    requires Lists(a, ma) && Lists(b, mb) && Separates(ma, k, mb)
    ensures Lists(a + [Entry(k, v)] + b, Merge(ma, k, v, mb))
  {
    MergeSorted(a, ma, k, v, b, mb);
    var m := Merge(ma, k, v, mb);
    forall x | x in m ensures Entry(x, m[x]) in a + [Entry(k, v)] + b {
      MergeMember(a, ma, k, v, b, mb, x);
    }
  }

  lemma MergeSorted<V>(a: seq<Entry<V>>, ma: map<int, V>, k: int, v: V, b: seq<Entry<V>>, mb: map<int, V>)
    requires Lists(a, ma) && Lists(b, mb) && Separates(ma, k, mb)
    ensures var s, m := a + [Entry(k, v)] + b, Merge(ma, k, v, mb);
      Sorted(s) && forall i :: 0 <= i < |s| ==> s[i].key in m && m[s[i].key] == s[i].value
  {
    var s := a + [Entry(k, v)] + b;
    assert forall i :: 0 <= i < |a| ==> s[i] == a[i] && s[i].key in ma;
    assert s[|a|] == Entry(k, v);
    assert forall i :: |a| < i < |s| ==> s[i] == b[i - |a| - 1] && s[i].key in mb;
  }

  lemma MergeMember<V>(a: seq<Entry<V>>, ma: map<int, V>, k: int, v: V, b: seq<Entry<V>>, mb: map<int, V>, x: int)
    requires Lists(a, ma) && Lists(b, mb) && Separates(ma, k, mb) && x in Merge(ma, k, v, mb)
    ensures Entry(x, Merge(ma, k, v, mb)[x]) in a + [Entry(k, v)] + b
  {
    if x in ma {
      assert Entry(x, ma[x]) in a;
    } else if x in mb {
      assert Entry(x, mb[x]) in b;
    }
  }

  lemma {:induction false} InOrderLists<V>(t: Tree<V>)
    requires IsBst(t)
    ensures Lists(InOrder(t), Contents(t))
  {
    match t
    case Nil =>
    case Node(l, k, v, r) =>
      InOrderLists(l);
      InOrderLists(r);
      MergeLists(InOrder(l), Contents(l), k, v, InOrder(r), Contents(r));
  }

  /** The ascending listing of a map is unique, so it does not depend on the shape of a tree. */
  lemma {:induction false} ListingIsUnique<V>(s: seq<Entry<V>>, t: seq<Entry<V>>, m: map<int, V>)
    requires Lists(s, m) && Lists(t, m)
    ensures s == t
    decreases |s|
  {
    assert s != [] ==> s[0].key in m;
    assert t != [] ==> t[0].key in m;
    if s != [] && t != [] {
      SameHead(s, t, m);
      ListsTail(s, m);
      ListsTail(t, m);
      ListingIsUnique(s[1..], t[1..], m - {s[0].key});
      assert s == [s[0]] + s[1..] && t == [t[0]] + t[1..];
    }
  }

  lemma SameHead<V>(s: seq<Entry<V>>, t: seq<Entry<V>>, m: map<int, V>)
    requires Lists(s, m) && Lists(t, m) && s != [] && t != []
    ensures s[0] == t[0]
  {
    assert Entry(s[0].key, m[s[0].key]) in t && Entry(t[0].key, m[t[0].key]) in s;
  }

  lemma ListsTail<V>(s: seq<Entry<V>>, m: map<int, V>)
    requires Lists(s, m) && s != []
    ensures Lists(s[1..], m - {s[0].key})
  {
    var m' := m - {s[0].key};
    forall k | k in m' ensures Entry(k, m'[k]) in s[1..] {
      assert Entry(k, m[k]) in s;
    }
  }

  /** Two search trees of any shapes with equal contents have the same ascending listing. */
  lemma SameContentsSameOrder<V>(t: Tree<V>, u: Tree<V>)
    requires IsBst(t) && IsBst(u) && Contents(t) == Contents(u)
    ensures InOrder(t) == InOrder(u)
  {
    InOrderLists(t);
    InOrderLists(u);
    ListingIsUnique(InOrder(t), InOrder(u), Contents(t));
  }

  function Size<V>(t: Tree<V>): (n: nat) {
    match t
    case Nil => 0
    case Node(l, _, _, r) => Size(l) + 1 + Size(r)
  }

  lemma MergeSize<V>(a: map<int, V>, k: int, v: V, b: map<int, V>)
    requires Separates(a, k, b)
    ensures |Merge(a, k, v, b)| == |a| + 1 + |b|
  {
    SeparatedKeys(a, k, b);
    MergeKeys(a, k, v, b);
    DisjointSize(Merge(a, k, v, b), a, k, b);
  }

  lemma MergeKeys<V>(a: map<int, V>, k: int, v: V, b: map<int, V>)
    ensures Merge(a, k, v, b).Keys == a.Keys + b.Keys + {k}
  {
  }

  lemma SeparatedKeys<V>(a: map<int, V>, k: int, b: map<int, V>)
    requires Separates(a, k, b)
    ensures a.Keys !! b.Keys && k !in a.Keys && k !in b.Keys
  {
    forall x | x in a.Keys ensures x !in b.Keys { assert x < k; }
  }

  lemma DisjointSize<V>(m: map<int, V>, a: map<int, V>, k: int, b: map<int, V>)
    requires a.Keys !! b.Keys && k !in a.Keys && k !in b.Keys
    requires m.Keys == a.Keys + b.Keys + {k}
    ensures |m| == |a| + 1 + |b|
  {
    assert |m| == |m.Keys|;
    assert |a.Keys + b.Keys| == |a.Keys| + |b.Keys|;
  }

  lemma {:induction false} SizeIsCardinality<V>(t: Tree<V>)
    requires IsBst(t)
    ensures Size(t) == |Contents(t)|
  {
    match t
    case Nil =>
    case Node(l, k, v, r) =>
      SizeIsCardinality(l);
      SizeIsCardinality(r);
      MergeSize(Contents(l), k, v, Contents(r));
  }

  /** `k` is the smallest key of `m`. */
  ghost predicate IsLeast<V>(k: int, m: map<int, V>) {
    k in m && forall x :: x in m ==> k <= x
  }

  /** The key of the leftmost node. */
  function LeftmostKey<V>(t: Tree<V>): (k: int)
    requires t.Node?
  {
    if t.left.Nil? then t.key else LeftmostKey(t.left)
  }

  lemma {:induction false} LeftmostIsLeast<V>(t: Tree<V>)
    requires IsBst(t) && t.Node?
    ensures IsLeast(LeftmostKey(t), Contents(t))
  {
    if t.left.Node? { LeftmostIsLeast(t.left); }
  }

  /** `Left` of the library, by contract alone. */
  method Left<V>(t: Tree<V>) returns (key: int)
    requires IsBst(t) && t.Node?
    ensures IsLeast(key, Contents(t))
  {
    LeftmostIsLeast(t);
    key := LeftmostKey(t);
  }

  lemma NilIffEmpty<V>(t: Tree<V>)
    ensures t.Nil? <==> Contents(t) == map[]
  {
    if t.Node? { assert t.key in Contents(t); }
  }

  /** `Size` of the library, by contract alone. */
  method Count<V>(t: Tree<V>) returns (n: nat)
    requires IsBst(t)
    ensures n == |Contents(t)| && (n == 0 <==> t.Nil?)
  {
    SizeIsCardinality(t);
    n := Size(t);
  }

  /** `Get` of the library: walk down from the root, comparing keys. */
  method Get<V>(t: Tree<V>, key: int) returns (found: bool)
    requires IsBst(t)
    ensures found <==> key in Contents(t)
  {
    var n := t;
    while n.Node?
      invariant IsBst(n)
      invariant key in Contents(t) <==> key in Contents(n)
      decreases n
    {
      if key == n.key {
        return true;
      } else if key < n.key {
        n := n.left;
      } else {
        n := n.right;
      }
    }
    return false;
  }

  /** `Floor` of the library: the entry with the greatest key not above the given one. */
  method Floor<V>(t: Tree<V>, key: int) returns (floor: Option<Entry<V>>)
    requires IsBst(t)
    ensures floor.None? ==> forall x :: x in Contents(t) ==> key < x
    ensures floor.Some? ==>
              && floor.value.key in Contents(t) && Contents(t)[floor.value.key] == floor.value.value
              && floor.value.key <= key
              && forall x :: x in Contents(t) && x <= key ==> x <= floor.value.key
  {
    var n := t;
    floor := None;
    while n.Node?
      invariant IsBst(n) && FloorSoFar(t, n, key, floor)
      decreases n
    {
      FloorStep(t, n, key, floor);
      if key == n.key {
        return Some(Entry(n.key, n.value));
      } else if key < n.key {
        n := n.left;
      } else {
        floor := Some(Entry(n.key, n.value));
        n := n.right;
      }
    }
  }

  /** The floor of `key` in `t` is the candidate found so far or is still to be found in `n`. */
  ghost predicate FloorSoFar<V>(t: Tree<V>, n: Tree<V>, key: int, floor: Option<Entry<V>>) {
    && (forall x :: x in Contents(n) ==> x in Contents(t) && Contents(t)[x] == Contents(n)[x])
    && (floor.Some? ==>
          && floor.value.key in Contents(t) && Contents(t)[floor.value.key] == floor.value.value
          && floor.value.key <= key
          && forall x :: x in Contents(n) ==> floor.value.key < x)
    && (forall x :: x in Contents(t) && x <= key ==> x in Contents(n) || (floor.Some? && x <= floor.value.key))
  }

  lemma FloorStep<V>(t: Tree<V>, n: Tree<V>, key: int, floor: Option<Entry<V>>)
    requires n.Node? && IsBst(n) && FloorSoFar(t, n, key, floor)
    ensures n.key in Contents(t) && Contents(t)[n.key] == n.value
    ensures key < n.key ==> FloorSoFar(t, n.left, key, floor)
    ensures n.key < key ==> FloorSoFar(t, n.right, key, Some(Entry(n.key, n.value)))
    ensures n.key == key ==> forall x :: x in Contents(t) && x <= key ==> x <= n.key
  {
    assert Contents(n)[n.key] == n.value;
  }

  lemma MergePutRoot<V>(a: map<int, V>, k: int, v: V, b: map<int, V>, value: V)
    ensures Merge(a, k, value, b) == Merge(a, k, v, b)[k := value]
  {
  }

  lemma MergePutLeft<V>(a: map<int, V>, k: int, v: V, b: map<int, V>, key: int, value: V)
    requires Separates(a, k, b) && key < k
    ensures Merge(a[key := value], k, v, b) == Merge(a, k, v, b)[key := value]
  {
  }

  lemma MergePutRight<V>(a: map<int, V>, k: int, v: V, b: map<int, V>, key: int, value: V)
    requires Separates(a, k, b) && k < key
    ensures Merge(a, k, v, b[key := value]) == Merge(a, k, v, b)[key := value]
  {
  }

  lemma MergeRemoveLeft<V>(a: map<int, V>, k: int, v: V, b: map<int, V>, key: int)
    requires Separates(a, k, b) && key < k
    ensures Merge(a - {key}, k, v, b) == Merge(a, k, v, b) - {key}
  {
  }

  lemma MergeRemoveRight<V>(a: map<int, V>, k: int, v: V, b: map<int, V>, key: int)
    requires Separates(a, k, b) && k < key
    ensures Merge(a, k, v, b - {key}) == Merge(a, k, v, b) - {key}
  {
  }

  lemma MergeRemoveRoot<V>(a: map<int, V>, k: int, v: V)
    requires Separates(a, k, map[])
    ensures a == Merge(a, k, v, map[]) - {k}
  {
  }

  lemma MergeReplaceRoot<V>(a: map<int, V>, k: int, v: V, b: map<int, V>, x: int)
    requires Separates(a, k, b) && IsLeast(x, b)
    ensures Separates(a, x, b - {x})
    ensures Merge(a, x, b[x], b - {x}) == Merge(a, k, v, b) - {k}
  {
  }

  method Put<V>(t: Tree<V>, key: int, value: V) returns (u: Tree<V>)
    requires IsBst(t)
    ensures IsBst(u) && Contents(u) == Contents(t)[key := value]
    decreases t
  {
    if t.Nil? {
      return Node(Nil, key, value, Nil);
    }
    if key == t.key {
      MergePutRoot(Contents(t.left), t.key, t.value, Contents(t.right), value);
      u := Node(t.left, key, value, t.right);
    } else if key < t.key {
      MergePutLeft(Contents(t.left), t.key, t.value, Contents(t.right), key, value);
      var l := Put(t.left, key, value);
      u := Node(l, t.key, t.value, t.right);
    } else {
      MergePutRight(Contents(t.left), t.key, t.value, Contents(t.right), key, value);
      var r := Put(t.right, key, value);
      u := Node(t.left, t.key, t.value, r);
    }
  }

  method Remove<V>(t: Tree<V>, key: int) returns (u: Tree<V>)
    requires IsBst(t)
    ensures IsBst(u) && Contents(u) == Contents(t) - {key}
    decreases t
  {
    if t.Nil? {
      return Nil;
    }
    if key < t.key {
      MergeRemoveLeft(Contents(t.left), t.key, t.value, Contents(t.right), key);
      var l := Remove(t.left, key);
      u := Node(l, t.key, t.value, t.right);
    } else if t.key < key {
      MergeRemoveRight(Contents(t.left), t.key, t.value, Contents(t.right), key);
      var r := Remove(t.right, key);
      u := Node(t.left, t.key, t.value, r);
    } else if t.right.Nil? {
      MergeRemoveRoot(Contents(t.left), t.key, t.value);
      u := t.left;
    } else {
      var e, r := DetachLeast(t.right);
      MergeReplaceRoot(Contents(t.left), t.key, t.value, Contents(t.right), e.key);
      u := Node(t.left, e.key, e.value, r);
    }
  }

  method DetachLeast<V>(t: Tree<V>) returns (least: Entry<V>, rest: Tree<V>)
    requires IsBst(t) && t.Node?
    ensures IsLeast(least.key, Contents(t)) && Contents(t)[least.key] == least.value
    ensures IsBst(rest) && Contents(rest) == Contents(t) - {least.key}
    decreases t
  {
    if t.left.Nil? {
      least, rest := Entry(t.key, t.value), t.right;
    } else {
      var l;
      least, l := DetachLeast(t.left);
      MergeRemoveLeft(Contents(t.left), t.key, t.value, Contents(t.right), least.key);
      rest := Node(l, t.key, t.value, t.right);
    }
  }
}
