/** Links of items that are kept in lists, and sequences without repetitions. */
module Links {
  import opened Sequences

  class Item {
    var previousLink: Item?
    var nextLink: Item?

    constructor ()
      ensures previousLink == null && nextLink == null
    {
      previousLink, nextLink := null, null;
    }
  }

  predicate Distinct<T(==)>(s: seq<T>) {
    forall i, j :: 0 <= i < j < |s| ==> s[i] != s[j]
  }

  ghost predicate Follows(a: Item, b: Item)
    reads a, b
  {
    a.nextLink == b && b.previousLink == a
  }

  /** Each item is linked to the one after it, in both directions. */
  ghost predicate Linked(items: seq<Item>)
    reads items
  {
    forall i :: 0 < i < |items| ==> Follows(items[i - 1], items[i])
  }

  ghost function Index<T>(s: seq<T>, x: T): (i: nat)
    requires x in s
    ensures i < |s| && s[i] == x
  {
    var i :| 0 <= i < |s| && s[i] == x;
    i
  }

  lemma InsertedDistinct<T>(s: seq<T>, i: nat, x: T)
    requires Distinct(s) && i <= |s| && x !in s
    ensures Distinct(InsertAt(s, i, x))
  {
  }

  lemma RemovedDistinct<T>(s: seq<T>, i: nat)
    requires Distinct(s) && i < |s|
    ensures Distinct(RemoveAt(s, i)) && s[i] !in RemoveAt(s, i)
  {
  }
}

/** The circular list (fnd_LinkedList.h). */
module IntrusiveLinkedLists {
  import opened Links
  import opened Sequences

  /** A ring: the items one after the other, and the first after the last. */
  ghost predicate Ring(items: seq<Item>)
    reads items
  {
    Linked(items) && (items != [] ==> Follows(items[|items| - 1], items[0]))
  }

  class IntrusiveLinkedList {
    var head: Item?
    ghost var items: seq<Item>

    constructor ()
      ensures Valid() && items == []
    {
      head, items := null, [];
    }

    ghost predicate Valid()
      reads this, items
    {
      Distinct(items) && Ring(items) && head == if items == [] then null else items[0]
    }

    ghost function Repr(): set<Item>
      reads this
    {
      set p | p in items
    }

    function IsEmpty(): (b: bool)
      requires Valid()
      reads this, items
      ensures b <==> items == []
    {
      head == null
    }

    function GetFront(): (p: Item?)
      requires Valid()
      reads this, items
      ensures p == if items == [] then null else items[0]
    {
      head
    }

    function GetBack(): (p: Item?)
      requires Valid()
      reads this, items
      ensures p == if items == [] then null else items[|items| - 1]
    {
      if IsEmpty() then null else head.previousLink
    }

    function GetNext(p: Item): (q: Item?)
      requires Valid() && p in items
      reads this, items
      ensures forall i :: 0 <= i < |items| && items[i] == p ==> q == if i + 1 == |items| then null else items[i + 1]
    {
      if p == GetBack() then null else p.nextLink
    }

    function GetPrevious(p: Item): (q: Item?)
      requires Valid() && p in items
      reads this, items
      ensures forall i :: 0 <= i < |items| && items[i] == p ==> q == if i == 0 then null else items[i - 1]
    {
      if p == GetFront() then null else p.previousLink
    }

    /** Links `q` into a ring, before the item at `k`; before the first is after the last. */
    static method InsertBefore(p: Item, q: Item, ghost ring: seq<Item>, ghost k: nat, ghost repr: set<Item>)
      requires Distinct(ring) && Ring(ring) && 0 < k <= |ring| && q !in ring && p == ring[if k == |ring| then 0 else k]
      requires repr == set r | r in ring
      modifies repr, q
      ensures Ring(InsertAt(ring, k, q))
    {
      ghost var last := ring[k - 1];
      assert k < |ring| ==> Follows(ring[k - 1], ring[k]);
      assert Follows(last, p);
      q.nextLink := p;
      p.previousLink.nextLink := q;
      q.previousLink := p.previousLink;
      p.previousLink := q;
      ghost var after := InsertAt(ring, k, q);
      assert Follows(last, q) && Follows(q, p);
      forall i | 0 < i < |after|
        ensures Follows(after[i - 1], after[i])
      {
        if i < k {
          assert old(Follows(ring[i - 1], ring[i]));
        } else if i > k + 1 {
          assert old(Follows(ring[i - 2], ring[i - 1]));
        }
      }
    }

    method PushBack(p: Item)
      requires Valid() && p !in items && p.previousLink == null && p.nextLink == null
      modifies this, Repr(), p
      ensures Valid() && items == old(items) + [p]
    {
      InsertedDistinct(items, |items|, p);
      assert InsertAt(items, |items|, p) == items + [p];
      if IsEmpty() {
        p.previousLink, p.nextLink := p, p;
        head := p;
      } else {
        InsertBefore(head, p, items, |items|, Repr());
      }
      items := items + [p];
    }

    method PushFront(p: Item)
      requires Valid() && p !in items && p.previousLink == null
      modifies this, Repr(), p
      ensures Valid() && items == [p] + old(items)
    {
      InsertedDistinct(items, 0, p);
      assert InsertAt(items, 0, p) == [p] + items;
      assert InsertAt(items, |items|, p) == items + [p];
      if IsEmpty() {
        p.previousLink, p.nextLink := p, p;
      } else {
        InsertBefore(head, p, items, |items|, Repr());
        Rotated(items, p);
      }
      head := p;
      items := [p] + items;
    }

    /** Inserts before `position`, or at the end when there is none. */
    method Insert(position: Item?, inserted: Item)
      requires Valid() && inserted !in items && inserted.previousLink == null && inserted.nextLink == null
      requires position != null ==> position in items
      modifies this, Repr(), inserted
      ensures Valid()
      ensures var at := if position == null then old(|items|) else Index(old(items), position);
              items == InsertAt(old(items), at, inserted)
    {
      if position == head {
        assert position != null ==> Index(items, position) == 0;
        assert InsertAt(items, 0, inserted) == [inserted] + items;
        PushFront(inserted);
      } else if position != null {
        ghost var k := Index(items, position);
        InsertedDistinct(items, k, inserted);
        InsertBefore(position, inserted, items, k, Repr());
        items := InsertAt(items, k, inserted);
      } else {
        assert InsertAt(items, |items|, inserted) == items + [inserted];
        PushBack(inserted);
      }
    }

    method Erase(p: Item)
      requires Valid() && p in items
      modifies this, Repr()
      ensures Valid() && items == RemoveAt(old(items), Index(old(items), p))
      ensures p.previousLink == null && p.nextLink == null
    {
      hide Linked;
      ghost var k := Index(items, p);
      RemovedDistinct(items, k);
      if p == p.previousLink {
        OnlyItem(items, k);
        head := null;
      } else {
        if head == p {
          SecondItem(items);
          head := head.nextLink;
        }
        Unlink(p, items, k, Repr());
      }
      items := RemoveAt(items, k);
      ClearLinks(p);
    }

    static method ClearLinks(p: Item)
      modifies p
      ensures p.previousLink == null && p.nextLink == null
    {
      p.previousLink, p.nextLink := null, null;
    }

    /** Links the neighbours of the item at `k` to each other. */
    static method Unlink(p: Item, ghost ring: seq<Item>, ghost k: nat, ghost repr: set<Item>)
      requires Distinct(ring) && Ring(ring) && k < |ring| && p == ring[k] && p != p.previousLink
      requires repr == set r | r in ring
      modifies repr
      ensures Ring(RemoveAt(ring, k)) && |ring| > 1
    {
      ghost var before := ring[if k == 0 then |ring| - 1 else k - 1];
      ghost var after := ring[if k + 1 == |ring| then 0 else k + 1];
      assert k > 0 ==> Follows(ring[k - 1], ring[k]);
      assert k + 1 < |ring| ==> Follows(ring[k], ring[k + 1]);
      assert Follows(before, p) && Follows(p, after);
      p.nextLink.previousLink := p.previousLink;
      p.previousLink.nextLink := p.nextLink;
      ghost var rest := RemoveAt(ring, k);
      forall i | 0 < i < |rest|
        ensures Follows(rest[i - 1], rest[i])
      {
        if i < k {
          assert old(Follows(ring[i - 1], ring[i]));
        } else if i > k {
          assert old(Follows(ring[i], ring[i + 1]));
        }
      }
    }
  }

  lemma SecondItem(ring: seq<Item>)
    requires Distinct(ring) && Ring(ring) && ring != [] && ring[0].previousLink != ring[0]
    ensures |ring| > 1 && ring[0].nextLink == ring[1]
  {
    assert |ring| > 1 ==> Follows(ring[0], ring[1]);
  }

  lemma OnlyItem(ring: seq<Item>, k: nat)
    requires Distinct(ring) && Ring(ring) && k < |ring| && ring[k].previousLink == ring[k]
    ensures |ring| == 1 && RemoveAt(ring, k) == [] && Linked(RemoveAt(ring, k))
  {
    assert k > 0 ==> Follows(ring[k - 1], ring[k]);
  }

  /** A ring is the same from its last item on. */
  lemma Rotated(items: seq<Item>, p: Item)
    requires items != [] && Ring(items + [p])
    ensures Ring([p] + items)
  {
    var before, after := items + [p], [p] + items;
    forall i | 0 < i < |after|
      ensures Follows(after[i - 1], after[i])
    {
      if i > 1 {
        assert Follows(before[i - 2], before[i - 1]);
      }
    }
    assert Follows(before[|before| - 2], before[|before| - 1]);
  }
}

/** The list that ends in null, with its header linked to both ends (ro_ObjectFile.h). */
module RoLists {
  import opened Links
  import opened Sequences

  class LinkedListNode {
    var pNext: Item?
    var pPrev: Item?
    ghost var items: seq<Item>

    constructor ()
      ensures Valid() && items == []
    {
      pNext, pPrev, items := null, null, [];
    }

    ghost predicate Valid()
      reads this, items
    {
      && Distinct(items) && Linked(items)
      && pNext == (if items == [] then null else items[0])
      && pPrev == (if items == [] then null else items[|items| - 1])
      && (items != [] ==> items[0].previousLink == null && items[|items| - 1].nextLink == null)
    }

    ghost function Repr(): set<Item>
      reads this
    {
      set p | p in items
    }

    method EnlistTail(pItem: Item)
      requires Valid() && pItem !in items
      modifies this, Repr(), pItem
      ensures Valid() && items == old(items) + [pItem]
    {
      InsertedDistinct(items, |items|, pItem);
      assert InsertAt(items, |items|, pItem) == items + [pItem];
      var pLast := pPrev;
      pItem.previousLink := pLast;
      pItem.nextLink := null;
      if pLast != null {
        pLast.nextLink := pItem;
      } else {
        pNext := pItem;
      }
      pPrev := pItem;
      forall i | 0 < i < |items|
        ensures Follows(items[i - 1], items[i])
      {
        assert old(Follows(items[i - 1], items[i]));
      }
      items := items + [pItem];
    }

    method DelistItem(pItem: Item)
      requires Valid() && pItem in items
      modifies this, Repr()
      ensures Valid() && items == RemoveAt(old(items), Index(old(items), pItem))
      ensures pItem.previousLink == null && pItem.nextLink == null
    {
      ghost var k := Index(items, pItem);
      RemovedDistinct(items, k);
      assert k > 0 ==> Follows(items[k - 1], items[k]);
      assert k + 1 < |items| ==> Follows(items[k], items[k + 1]);
      var next := pItem.nextLink;
      var prev := pItem.previousLink;
      if prev != null {
        prev.nextLink := next;
      } else {
        pNext := next;
      }
      if next != null {
        next.previousLink := prev;
      } else {
        pPrev := prev;
      }
      pItem.nextLink := null;
      pItem.previousLink := null;
      ghost var rest := RemoveAt(items, k);
      forall i | 0 < i < |rest|
        ensures Follows(rest[i - 1], rest[i])
      {
        if i < k {
          assert old(Follows(items[i - 1], items[i]));
        } else if i > k {
          assert old(Follows(items[i], items[i + 1]));
        }
      }
      items := rest;
    }
  }
}

/** The queue with one link an item (fnd_Queue.h). */
module IntrusiveQueues {
  import opened Links
  import opened Sequences

  class IntrusiveQueue {
    var head: Item?
    var tail: Item?
    ghost var items: seq<Item>

    constructor ()
      ensures Valid() && items == []
    {
      head, tail, items := null, null, [];
    }

    /** The last item has no link, or one to itself: it had one when it came alone. */
    ghost predicate Valid()
      reads this, items
    {
      && Distinct(items)
      && (forall i :: 0 < i < |items| ==> items[i - 1].nextLink == items[i])
      && head == (if items == [] then null else items[0])
      && (items != [] ==> tail == items[|items| - 1] && (tail.nextLink == null || tail.nextLink == tail))
    }

    ghost function Repr(): set<Item>
      reads this
    {
      set p | p in items
    }

    function IsEmpty(): (b: bool)
      requires Valid()
      reads this, items
      ensures b <==> items == []
    {
      head == null
    }

    method Enqueue(p: Item)
      requires Valid() && p !in items && p.nextLink == null
      modifies this, Repr()`nextLink, p`nextLink
      ensures Valid() && items == old(items) + [p]
    {
      InsertedDistinct(items, |items|, p);
      assert InsertAt(items, |items|, p) == items + [p];
      if IsEmpty() {
        head, tail := p, p;
        p.nextLink := p;
      } else {
        tail.nextLink := p;
        tail := p;
      }
      items := items + [p];
    }

    /** Takes the first item out, without a link, so that it can be put in again. */
    method Dequeue() returns (p: Item?)
      requires Valid()
      modifies this, Repr()`nextLink
      ensures Valid()
      ensures if old(items) == [] then p == null && items == [] else p == old(items[0]) && items == old(items[1..])
      ensures p != null ==> p.nextLink == null
    {
      if IsEmpty() {
        return null;
      }
      p := head;
      if head == tail {
        head := null;
      } else {
        head := head.nextLink;
      }
      p.nextLink := null;
      items := items[1..];
    }
  }
}
