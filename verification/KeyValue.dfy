/** The table of src/common/sbfKeyValue.c: a sorted map from keys to values over the red-black tree. */
module KeyValue {
  import opened Ordering
  import opened RedBlack
  import opened RedBlackTree

  /** The map that a sequence of items stands for. */
  function ToMap(ns: seq<Node>): map<string, string> {
    if ns == [] then map[] else ToMap(ns[1..])[ns[0].key := ns[0].value]
  }

  /** The node at a place, NULL behind the last. */
  ghost function At(ns: seq<Node>, i: nat): Node? {
    if i < |ns| then ns[i] else null
  }

  lemma SortedTail(ns: seq<Node>)
    requires Sorted(ns) && ns != []
    ensures Sorted(ns[1..])
    ensures forall n :: n in ns[1..] ==> Less(ns[0].key, n.key) && n.key != ns[0].key
  {
    forall n | n in ns[1..] ensures Less(ns[0].key, n.key) && n.key != ns[0].key {
      var i :| 0 <= i < |ns| - 1 && ns[1..][i] == n;
      assert ns[i + 1] == n;
      CompareEqual(ns[0].key, n.key);
    }
  }

  lemma {:induction false} MapOf(ns: seq<Node>)
    requires Sorted(ns)
    ensures forall n :: n in ns ==> n.key in ToMap(ns) && ToMap(ns)[n.key] == n.value
    ensures forall k :: k in ToMap(ns) ==> exists n :: n in ns && n.key == k
    ensures |ToMap(ns)| == |ns|
  {
    if ns != [] {
      SortedTail(ns);
      MapOf(ns[1..]);
      var m := ToMap(ns[1..]);
      assert ns[0].key !in m;
      assert ToMap(ns).Keys == m.Keys + {ns[0].key};
      forall k | k in ToMap(ns) ensures exists n :: n in ns && n.key == k {
        if k in m {
          var n :| n in ns[1..] && n.key == k;
          assert n in ns;
        } else {
          assert ns[0] in ns;
        }
      }
    }
  }

  lemma {:induction false} MapOfInsert(a: seq<Node>, n: Node, b: seq<Node>)
    requires forall x :: x in a ==> x.key != n.key
    ensures ToMap(a + [n] + b) == ToMap(a + b)[n.key := n.value]
  {
    if a == [] {
      assert [n] + b == a + [n] + b && a + b == b;
      assert ([n] + b)[1..] == b;
    } else {
      MapOfInsert(a[1..], n, b);
      assert (a + [n] + b)[1..] == a[1..] + [n] + b;
      assert (a + b)[1..] == a[1..] + b;
      assert a[0] in a;
    }
  }

  lemma OneMoreKey(a: seq<Node>, n: Node, b: seq<Node>, i: nat, x: Node)
    requires Sorted(b) && i <= |a| && b == a[..i] + [n] + a[i..] && x in a
    ensures x.key != n.key
  {
    var j :| 0 <= j < |a| && a[j] == x;
    assert b[i] == n && b[if j < i then j else j + 1] == x;
    if x.key == n.key {
      SortedDistinct(b, i, if j < i then j else j + 1);
    }
  }

  /** One item more is one binding more. */
  lemma MapOfOneMore(a: seq<Node>, n: Node, b: seq<Node>)
    requires Sorted(a) && Sorted(b) && OneMore(a, n, b)
    ensures n.key !in ToMap(a) && ToMap(b) == ToMap(a)[n.key := n.value] && ToMap(a) == ToMap(b) - {n.key}
    ensures |b| == |a| + 1
  {
    var i :| 0 <= i <= |a| && b == a[..i] + [n] + a[i..];
    forall x | x in a ensures x.key != n.key {
      OneMoreKey(a, n, b, i, x);
    }
    NoSuchKey(a, n.key);
    MapOfInsert(a[..i], n, a[i..]);
    assert a[..i] + a[i..] == a;
    DropAdded(ToMap(a), n.key, n.value);
  }

  lemma PutOver(m: map<string, string>, k: string, v: string)
    ensures (m - {k})[k := v] == m[k := v]
  {
  }

  lemma DropAdded(m: map<string, string>, k: string, v: string)
    requires k !in m
    ensures m[k := v] - {k} == m
  {
  }

  /** Taking out the first item leaves the others. */
  lemma WithoutFirst(a: seq<Node>, b: seq<Node>)
    requires Sorted(b) && b != [] && OneMore(a, b[0], b)
    ensures a == b[1..]
  {
    var i :| 0 <= i <= |a| && b == a[..i] + [b[0]] + a[i..];
    assert b[i] == b[0];
    SortedDistinct(b, i, 0);
  }

  lemma Regrouped(xs: seq<Node>, x: Node, ys: seq<Node>, all: seq<Node>)
    requires xs + ([x] + ys) == all
    ensures xs + [x] + ys == all
  {
    assert xs + [x] + ys == xs + ([x] + ys);
  }

  predicate DistinctKeys(ns: seq<Node>) {
    forall i, j :: 0 <= i < j < |ns| ==> ns[i].key != ns[j].key
  }

  lemma SortedKeysDistinct(ns: seq<Node>)
    requires Sorted(ns)
    ensures DistinctKeys(ns)
  {
    forall i, j | 0 <= i < j < |ns| ensures ns[i].key != ns[j].key {
      if ns[i].key == ns[j].key {
        SortedDistinct(ns, i, j);
      }
    }
  }

  lemma {:induction false} KeysOf(ns: seq<Node>, k: string)
    ensures k in ToMap(ns) <==> exists n :: n in ns && n.key == k
  {
    if ns != [] {
      KeysOf(ns[1..], k);
      assert ns == [ns[0]] + ns[1..];
    }
  }

  lemma NotBefore(ns: seq<Node>, i: nat)
    requires DistinctKeys(ns) && i < |ns|
    ensures ns[i].key !in ToMap(ns[..i]) && forall x :: x in ns[..i] ==> x.key != ns[i].key
  {
    KeysOf(ns[..i], ns[i].key);
  }

  lemma ToMapSnoc(ns: seq<Node>, i: nat)
    requires DistinctKeys(ns) && i < |ns|
    ensures ToMap(ns[..i + 1]) == ToMap(ns[..i])[ns[i].key := ns[i].value]
  {
    NotBefore(ns, i);
    MapOfInsert(ns[..i], ns[i], []);
    assert ns[..i] + [ns[i]] + [] == ns[..i + 1] && ns[..i] + [] == ns[..i];
  }

  lemma NoSuchKey(ns: seq<Node>, key: string)
    requires Sorted(ns)
    ensures key !in ToMap(ns) <==> forall n :: n in ns ==> n.key != key
  {
    MapOf(ns);
  }

  class Table {
    const tree: RbTree
    var size: nat

    ghost predicate Valid()
      reads this, tree, tree.nodes
    {
      tree.Valid() && size == |tree.Elements()|
    }

    /** The tables share nothing. */
    ghost predicate Apart(other: Table)
      reads tree, other.tree
    {
      this != other && tree != other.tree && tree.nodes !! other.tree.nodes
    }

    /** What the table holds. */
    ghost function Map(): map<string, string>
      reads tree
    {
      ToMap(tree.Elements())
    }

    constructor ()
      ensures Valid() && Map() == map[] && fresh(tree) && tree.nodes == {}
    {
      tree := new RbTree();
      size := 0;
    }

    method Size() returns (n: nat)
      requires Valid()
      ensures n == |Map()|
    {
      MapOf(tree.Elements());
      n := size;
    }

    /** The value, or null, which is told apart here by a flag. */
    method Get(key: string) returns (found: bool, value: string)
      requires Valid()
      ensures found == (key in Map())
      ensures found ==> value == Map()[key]
    {
      MapOf(tree.Elements());
      var item := tree.Find(key);
      if item == null {
        return false, "";
      }
      return true, item.value;
    }

    method RemoveItem(item: Node)
      requires Valid() && item in tree.Elements()
      modifies this`size, tree, tree.nodes
      ensures Valid() && Map() == old(Map()) - {item.key} && tree.nodes <= old(tree.nodes)
    {
      ghost var before := tree.Elements();
      size := size - 1;
      var gone := tree.Remove(item);
      MapOfOneMore(tree.Elements(), gone, before);
    }

    method Remove(key: string)
      requires Valid()
      modifies this`size, tree, tree.nodes
      ensures Valid() && Map() == old(Map()) - {key} && tree.nodes <= old(tree.nodes)
    {
      MapOf(tree.Elements());
      var item := tree.Find(key);
      if item != null {
        RemoveItem(item);
      }
    }

    method Add(item: Node)
      requires Valid() && item !in tree.nodes && item.key !in Map()
      modifies this`size, tree, tree.nodes, item
      ensures Valid() && Map() == old(Map())[item.key := item.value] && tree.nodes == old(tree.nodes) + {item}
    {
      NoSuchKey(tree.Elements(), item.key);
      ghost var before := tree.Elements();
      size := size + 1;
      var other := tree.Insert(item);
      MapOfOneMore(before, item, tree.Elements());
    }

    method Put(key: string, value: string)
      requires Valid()
      modifies this`size, tree, tree.nodes
      ensures Valid() && Map() == old(Map())[key := value] && fresh(tree.nodes - old(tree.nodes))
    {
      PutOver(Map(), key, value);
      Remove(key);
      var item := new Node(key, value);
      Add(item);
    }

    /** The item with the least key, or null; items come in the order of their keys. */
    method First() returns (item: Node?)
      requires Valid()
      ensures item == if tree.Elements() == [] then null else tree.Elements()[0]
    {
      item := tree.MinMax(-1);
    }

    method Next(cookie: Node, ghost i: nat) returns (item: Node?)
      requires Valid() && i < |tree.Elements()| && tree.Elements()[i] == cookie
      ensures item == if i + 1 < |tree.Elements()| then tree.Elements()[i + 1] else null
    {
      item := tree.Next(cookie, i);
    }

    /** Puts a copy of the next of the items ns, the first i of which the table has copies of. */
    method PutNext(item: Node, ghost ns: seq<Node>, ghost i: nat)
      requires Valid() && Sorted(ns) && i < |ns| && ns[i] == item && Map() == ToMap(ns[..i])
      modifies this`size, tree, tree.nodes
      ensures Valid() && Map() == ToMap(ns[..i + 1]) && fresh(tree.nodes - old(tree.nodes))
    {
      SortedKeysDistinct(ns);
      ToMapSnoc(ns, i);
      Put(item.key, item.value);
    }

    /** Copies one item and moves to the next. */
    method CopyItem(copy: Table, item: Node, ghost ns: seq<Node>, ghost i: nat) returns (r: Node?)
      requires Valid() && tree.Elements() == ns && i < |ns| && ns[i] == item
      requires copy.Valid() && Apart(copy) && copy.Map() == ToMap(ns[..i])
      modifies copy`size, copy.tree, copy.tree.nodes
      ensures Valid() && tree.Elements() == ns
      ensures copy.Valid() && copy.Map() == ToMap(ns[..i + 1]) && Apart(copy)
      ensures forall n :: n in copy.tree.nodes ==> n in old(copy.tree.nodes) || fresh(n)
      ensures r == At(ns, i + 1)
    {
      copy.PutNext(item, ns, i);
      r := Next(item, i);
    }

    /** The loop of sbfKeyValue_copy. */
    method CopyAll(copy: Table)
      requires Valid() && copy.Valid() && Apart(copy) && copy.Map() == map[]
      modifies copy`size, copy.tree, copy.tree.nodes
      ensures copy.Valid() && copy.Map() == Map() && fresh(copy.tree.nodes - old(copy.tree.nodes))
    {
      ghost var ns := tree.Elements();
      var item := First();
      ghost var i := 0;
      assert ns[..0] == [];
      while item != null
        invariant Valid() && tree.Elements() == ns && i <= |ns| && item == At(ns, i)
        invariant copy.Valid() && Apart(copy)
        invariant forall n :: n in copy.tree.nodes ==> n in old(copy.tree.nodes) || fresh(n)
        invariant copy.Map() == ToMap(ns[..i])
        decreases |ns| - i
      {
        item := CopyItem(copy, item, ns, i);
        i := i + 1;
      }
      assert ns[..i] == ns;
    }

    method Copy() returns (copy: Table)
      requires Valid()
      ensures copy.Valid() && fresh(copy) && fresh(copy.tree) && fresh(copy.tree.nodes)
      ensures copy.Map() == Map()
    {
      copy := new Table();
      CopyAll(copy);
    }

    /** Takes out the first item, after the step to the next. */
    method FreeFirst(item: Node) returns (next: Node?)
      requires tree.Valid() && tree.Elements() != [] && tree.Elements()[0] == item
      modifies tree, tree.nodes
      ensures tree.Valid() && tree.nodes <= old(tree.nodes) && old(tree.Elements()) == [item] + tree.Elements()
      ensures next == At(tree.Elements(), 0)
    {
      ghost var before := tree.Elements();
      next := tree.Next(item, 0);
      var gone := tree.Remove(item);
      WithoutFirst(tree.Elements(), before);
    }

    /** Removes the items one after the other; `freed` is what was freed, in order. */
    method Destroy() returns (ghost freed: seq<Node>)
      requires Valid()
      modifies this`size, tree, tree.nodes
      ensures freed == old(tree.Elements()) && tree.Valid() && tree.Elements() == []
    {
      freed := [];
      ghost var ns := tree.Elements();
      var item := tree.MinMax(-1);
      while item != null
        invariant tree.Valid() && tree.nodes <= old(tree.nodes) && item == At(tree.Elements(), 0)
        invariant freed + tree.Elements() == ns
        decreases |tree.Elements()|
      {
        ghost var first: Node := item;
        item := FreeFirst(item);
        Regrouped(freed, first, tree.Elements(), ns);
        freed := freed + [first];
      }
    }
  }
}
