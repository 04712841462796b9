/**
  The pool as the items and words that its threads write in place, one shared access at a time. Each method is
  proved to be a step of the state machine in ItemPool on what the objects hold.
 */
module PoolMemory {
  import opened ItemPool
  import M = ItemMemory

  class Pool {
    const items: M.Items
    var mAvailable: Item
    var mFree: Item
    var mLock: Lock
    var pcs: map<Thread, Pc>
    var created: nat

    // History: who has each item and what hangs off the two heads. No branch on a word depends on it.
    var available: seq<Item>
    var free: seq<Item>
    var place: map<Item, Place>

    /** Whatever a word or a thread names is there. */
    ghost predicate Valid()
      reads this, items, items.items.Values
    {
      && items.Valid() && Made(items.items.Keys, created) && place.Keys <= items.items.Keys
      && Known(items.items.Keys, mAvailable) && Known(items.items.Keys, mFree) && PcsHeld(items.items.Keys, pcs)
    }

    ghost function View(): State
      reads this, items
    {
      State(Lists(mAvailable, mFree, items.next, available, free), mLock, pcs, place, created)
    }

    constructor ()
      ensures Valid() && View() == INITIAL && fresh(items) && items.items == map[]
    {
      items := new M.Items();
      mAvailable, mFree, mLock, pcs, created := NULL, NULL, Open, map[], 0;
      available, free, place := [], [], map[];
    }

    /** item->mNext */
    method Link(item: Item) returns (next: Item)
      requires Valid() && item in items.items
      ensures next == Next(View().lists, item) && Known(items.items.Keys, next)
    {
      var found;
      found, next := items.Read(item);
      if !found {
        next := NULL;
      }
    }

    // -------------------------------------------------------------------------------------------
    // sbfPool_put
    // -------------------------------------------------------------------------------------------

    /** item->mNext = head */
    method LinkTo(p: Thread, item: Item, head: Item)
      requires Valid() && PcOf(View(), p) == PutLink(item, head)
      modifies items`next, items.items.Values, this`pcs
      ensures Valid() && View() == PutStep(old(View()), p)
    {
      pcs := pcs[p := PutSwap(item)];
      if head == NULL {
        items.Clear(item);
      } else {
        items.Write(item, head);
      }
    }

    /** The compare-and-swap on mFree */
    method Swap(p: Thread, item: Item)
      requires Valid() && PcOf(View(), p) == PutSwap(item)
      modifies this`mFree, this`pcs, this`free, this`place
      ensures Valid() && View() == PutStep(old(View()), p)
    {
      var next := Link(item);
      if mFree == next {
        mFree, pcs, free, place := item, pcs[p := Idle], [item] + free, place[item := Free];
      } else {
        pcs := pcs[p := PutRead(item)];
      }
    }

    /** The next shared access of sbfPool_put. */
    method Put(p: Thread)
      requires Valid()
      modifies items`next, items.items.Values, this`mFree, this`pcs, this`free, this`place
      ensures Valid() && View() == PutStep(old(View()), p) && items.items == old(items.items)
    {
      match if p in pcs then pcs[p] else Idle
      case PutRead(item) => pcs := pcs[p := PutLink(item, mFree)];
      case PutLink(item, head) => LinkTo(p, item, head);
      case PutSwap(item) => Swap(p, item);
      case _ =>
    }

    // -------------------------------------------------------------------------------------------
    // sbfPool_get
    // -------------------------------------------------------------------------------------------

    method TakeLock(p: Thread)
      requires Valid() && PcOf(View(), p).GetLock?
      modifies this`mLock, this`pcs
      ensures Valid() && View() == GetStep(old(View()), p)
    {
      if mLock.Open? {
        mLock, pcs := HeldBy(p), pcs[p := GetRead];
      }
    }

    /** exchange (&mFree, NULL) */
    method TakeFree(p: Thread)
      requires Valid() && PcOf(View(), p).GetTakeAll?
      modifies this`mFree, this`pcs, this`place, this`available, this`free
      ensures Valid() && View() == GetStep(old(View()), p)
    {
      var item := mFree;
      mFree, pcs := NULL, pcs[p := if item == NULL then GetUnlock(NULL) else GetAdvance(item)];
      place, available, free := Moved(place, free), free, [];
    }

    /** mAvailable = item->mNext */
    method Advance(p: Thread, item: Item)
      requires Valid() && PcOf(View(), p) == GetAdvance(item)
      modifies this`mAvailable, this`pcs, this`available, this`place
      ensures Valid() && View() == GetStep(old(View()), p)
    {
      var next := Link(item);
      mAvailable, pcs, place := next, pcs[p := GetUnlock(item)], place[item := With(p)];
      available := if available == [] then [] else available[1..];
    }

    method Unlock(p: Thread, item: Item)
      requires Valid() && PcOf(View(), p) == GetUnlock(item)
      modifies this`mLock, this`pcs, this`place
      ensures Valid() && View() == GetStep(old(View()), p)
    {
      mLock := Open;
      if item == NULL {
        pcs := pcs[p := GetNew];
      } else {
        pcs, place := pcs[p := Idle], place[item := Held];
      }
    }

    /** xmalloc, and item->mNext = NULL */
    method Allocate() returns (item: Item)
      requires Valid()
      modifies items`items, this`created
      ensures Valid() && item == old(created) + 1 && item in items.items
      ensures View() == old(View()).(lists := WriteNext(old(View()).lists, item, NULL), created := item)
      ensures fresh(items.items.Values - old(items.items.Values))
    {
      item := created + 1;
      items.Adopt(item);
      created := item;
    }

    method Make(p: Thread)
      requires Valid() && PcOf(View(), p).GetNew?
      modifies items`items, this`pcs, this`place, this`created
      ensures Valid() && View() == GetStep(old(View()), p)
      ensures fresh(items.items.Values - old(items.items.Values))
    {
      var item := Allocate();
      pcs, place := pcs[p := Idle], place[item := Held];
    }

    /** The next shared access of sbfPool_get. */
    method Get(p: Thread)
      requires Valid()
      modifies this, items`items
      ensures Valid() && View() == GetStep(old(View()), p)
      ensures fresh(items.items.Values - old(items.items.Values))
    {
      match if p in pcs then pcs[p] else Idle
      case GetLock => TakeLock(p);
      case GetRead => pcs := pcs[p := if mAvailable == NULL then GetTakeAll else GetAdvance(mAvailable)];
      case GetTakeAll => TakeFree(p);
      case GetAdvance(item) => Advance(p, item);
      case GetUnlock(item) => Unlock(p, item);
      case GetNew => Make(p);
      case _ =>
    }

    // -------------------------------------------------------------------------------------------
    // Runs
    // -------------------------------------------------------------------------------------------

    /** One choice of the scheduler; a choice that is not possible is skipped. */
    method Choose(a: Action)
      requires Valid()
      modifies this, items, items.items.Values
      ensures Valid() && View() == Step(old(View()), a)
      ensures fresh(items.items.Values - old(items.items.Values))
    {
      var pc := if a.p in pcs then pcs[a.p] else Idle;
      match a
      case Get(p) =>
        if pc.Idle? {
          pcs := pcs[p := GetLock];
        }
      case Put(p, item) =>
        if pc.Idle? && item in place && place[item] == Held {
          place, pcs := place[item := With(p)], pcs[p := PutRead(item)];
        }
      case Go(p) =>
        if pc.PutRead? || pc.PutLink? || pc.PutSwap? {
          Put(p);
        } else {
          Get(p);
        }
    }

    /** A whole run of a new pool. */
    method Play(script: seq<Action>)
      requires Valid() && View() == INITIAL
      modifies this, items, items.items.Values
      ensures Valid() && View() == Run(script) && Inv(View())
    {
      for n := 0 to |script|
        invariant Valid() && View() == Run(script[..n]) && fresh(items.items.Values - old(items.items.Values))
      {
        Choose(script[n]);
        assert script[..n + 1][..n] == script[..n];
      }
      assert script[..|script|] == script;
      RunInv(script);
    }
  }

  ghost predicate Made(known: set<Item>, created: nat) {
    forall i :: i in known <==> 1 <= i <= created
  }

  predicate Known(known: set<Item>, item: Item) {
    item == NULL || item in known
  }

  predicate PcHeld(known: set<Item>, pc: Pc) {
    match pc
    case PutRead(item) => item in known
    case PutLink(item, head) => item in known && Known(known, head)
    case PutSwap(item) => item in known
    case GetAdvance(item) => item in known
    case GetUnlock(item) => Known(known, item)
    case _ => true
  }

  ghost predicate PcsHeld(known: set<Item>, pcs: map<Thread, Pc>) {
    forall p :: p in pcs ==> PcHeld(known, pcs[p])
  }
}
