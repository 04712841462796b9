/**
  Items as objects that are linked through their mNext fields, as those of a queue and of a pool are. An item is
  known by a number, its address.
 */
module ItemMemory {
  type Node = nat

  class Item {
    const id: Node
    var mNext: Item?

    constructor (id: Node)
      ensures this.id == id && mNext == null
    {
      this.id, mNext := id, null;
    }
  }

  /** The items by their addresses, and their links. */
  class Items {
    var items: map<Node, Item>
    ghost var next: map<Node, Node> // the mNext fields that are not NULL

    ghost predicate Valid()
      reads this, items.Values
    {
      && (forall n :: n in items ==> items[n].id == n && (n !in next ==> items[n].mNext == null))
      && (forall n :: n in next ==> n in items && next[n] in items && items[n].mNext == items[next[n]])
    }

    constructor ()
      ensures Valid() && items == map[] && next == map[]
    {
      items, next := map[], map[];
    }

    /** An item that has not been used before is made, without a link. */
    method Adopt(n: Node)
      requires Valid() && n !in items
      modifies this`items
      ensures Valid() && items.Keys == old(items.Keys) + {n} && fresh(items.Values - old(items.Values))
      ensures next - {n} == next
    {
      var item := new Item(n);
      assert n !in next;
      items := items[n := item];
    }

    /** item->mNext = NULL */
    method Clear(n: Node)
      requires Valid() && n in items
      modifies this`next, items.Values
      ensures Valid() && next == old(next) - {n}
    {
      items[n].mNext := null;
      next := next - {n};
    }

    /** last->mNext = item */
    method Write(last: Node, n: Node)
      requires Valid() && last in items && n in items
      modifies this`next, items.Values
      ensures Valid() && next == old(next)[last := n]
    {
      items[last].mNext := items[n];
      next := next[last := n];
    }

    /** tail->mNext */
    method Read(n: Node) returns (found: bool, m: Node)
      requires Valid() && n in items
      ensures (found <==> n in next) && (found ==> m == next[n] && m in items)
    {
      var item := items[n].mNext;
      if item == null {
        return false, n;
      }
      return true, item.id;
    }
  }
}
