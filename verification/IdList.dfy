/**
 The sorted, singly linked lists of fbmanager.c. The framebuffer and the renderbuffer list are the same code over
 two node types there (fb_linkFBList and fb_linkRBList, the searches, the name generators); here the list is generic in
 what a node carries. `ids` and `nodes` are the list as sequences.
 */
module IdLists {
  import opened Sequences

  class ListNode<D> {
    var id: nat
    var next: ListNode?<D>
    var data: D

    constructor (id: nat, data: D)
      ensures this.id == id && next == null && this.data == data
    {
      this.id := id;
      next := null;
      this.data := data;
    }
  }

  ghost predicate Sorted(ids: seq<nat>) {
    forall i, j :: 0 <= i < j < |ids| ==> ids[i] < ids[j]
  }

  lemma InsertKeepsSorted(ids: seq<nat>, k: nat, x: nat)
    requires Sorted(ids) && k <= |ids| && (k > 0 ==> ids[k - 1] < x) && (k < |ids| ==> x < ids[k])
    ensures Sorted(InsertAt(ids, k, x))
  {
  }

  lemma RemoveKeepsSorted(ids: seq<nat>, k: nat)
    requires Sorted(ids) && k < |ids|
    ensures Sorted(RemoveAt(ids, k)) && (forall x :: x in RemoveAt(ids, k) <==> x in ids && x != ids[k])
  {
    var r := RemoveAt(ids, k);
    forall x | x in ids && x != ids[k]
      ensures x in r
    {
      var j :| 0 <= j < |ids| && ids[j] == x;
      assert r[if j < k then j else j - 1] == x;
    }
  }

  lemma RemoveAtMembers<T>(s: seq<T>, k: nat)
    requires k < |s| && forall i, j :: 0 <= i < j < |s| ==> s[i] != s[j]
    ensures forall x :: x in RemoveAt(s, k) <==> x in s && x != s[k]
  {
    var r := RemoveAt(s, k);
    forall x | x in s && x != s[k]
      ensures x in r
    {
      var j :| 0 <= j < |s| && s[j] == x;
      assert r[if j < k then j else j - 1] == x;
    }
  }

  // ---- generating names ----

  /** `names` are, in ascending order, the smallest positive ids that are not in use. */
  ghost predicate SmallestUnused(used: seq<nat>, names: seq<nat>) {
    && Sorted(names)
    && (forall j :: 0 <= j < |names| ==> names[j] >= 1 && names[j] !in used)
    && (forall x :: names != [] && 1 <= x <= names[|names| - 1] ==> x in used || x in names)
  }

  lemma NoZeroAmong(used: seq<nat>, names: seq<nat>)
    requires SmallestUnused(used, names)
    ensures 0 !in names
  {
  }

  /** There is only one such sequence of a given length. */
  lemma {:induction false} SmallestUnusedIsUnique(used: seq<nat>, a: seq<nat>, b: seq<nat>)
    requires SmallestUnused(used, a) && SmallestUnused(used, b) && |a| == |b|
    ensures a == b
    decreases |a|
  {
    if a != [] {
      var n := |a| - 1;
      if a[..n] == b[..n] {
        LastAgrees(used, a, b);
        LastAgrees(used, b, a);
        assert a == a[..n] + [a[n]] && b == b[..n] + [b[n]];
      } else {
        SmallestUnusedPrefix(used, a);
        SmallestUnusedPrefix(used, b);
        SmallestUnusedIsUnique(used, a[..n], b[..n]);
      }
    }
  }

  lemma SmallestUnusedPrefix(used: seq<nat>, a: seq<nat>)
    requires SmallestUnused(used, a) && a != []
    ensures SmallestUnused(used, a[..|a| - 1])
  {
    var p := a[..|a| - 1];
    forall x | p != [] && 1 <= x <= p[|p| - 1] && x !in used
      ensures x in p
    {
      assert x in a;
      var j :| 0 <= j < |a| && a[j] == x;
      assert p[j] == x;
    }
  }

  lemma LastAgrees(used: seq<nat>, a: seq<nat>, b: seq<nat>)
    requires SmallestUnused(used, a) && SmallestUnused(used, b) && |a| == |b| > 0 && a[..|a| - 1] == b[..|a| - 1]
    ensures b[|a| - 1] <= a[|a| - 1]
  {
  }

  /**
   A generator has got as far as index `p`: up to there the ids follow each other without a gap, and the list holds
   what it held at first and the names given out.
   */
  ghost predicate Filling(ids0: seq<nat>, ids: seq<nat>, p: nat, names: seq<nat>) {
    && Sorted(ids) && Sorted(names) && p < |ids|
    && (forall k :: 0 <= k <= p ==> ids[k] == ids[0] + k)
    && (forall x :: x in ids <==> x in ids0 || x in names)
    && (forall j :: 0 <= j < |names| ==> names[j] !in ids0 && 1 <= names[j] <= ids[p])
  }

  lemma FillOne(ids0: seq<nat>, ids: seq<nat>, p: nat, names: seq<nat>)
    requires Filling(ids0, ids, p, names) && (p + 1 < |ids| ==> ids[p] + 1 < ids[p + 1])
    ensures Filling(ids0, InsertAt(ids, p + 1, ids[p] + 1), p + 1, names + [ids[p] + 1])
  {
    hide InsertAt, Sorted;
    var x := ids[p] + 1;
    NotBetween(ids, p, x);
    InsertKeepsSorted(ids, p + 1, x);
    InsertAtMembers(ids, p + 1, x);
    AppendKeepsSorted(names, x);
  }

  lemma NotBetween(ids: seq<nat>, p: nat, x: nat)
    requires Sorted(ids) && p < |ids| && ids[p] < x && (p + 1 < |ids| ==> x < ids[p + 1])
    ensures x !in ids
  {
    forall i | 0 <= i < |ids|
      ensures ids[i] != x
    {
    }
  }

  lemma AppendKeepsSorted(ids: seq<nat>, x: nat)
    requires Sorted(ids) && forall j :: 0 <= j < |ids| ==> ids[j] < x
    ensures Sorted(ids + [x])
  {
  }

  lemma FillSkip(ids0: seq<nat>, ids: seq<nat>, p: nat, names: seq<nat>)
    requires Filling(ids0, ids, p, names) && p + 1 < |ids| && ids[p + 1] == ids[p] + 1
    ensures Filling(ids0, ids, p + 1, names)
  {
  }

  lemma NoGapBelow(ids: seq<nat>, p: nat)
    requires Sorted(ids) && p + 1 < |ids|
    ensures ids[p] + 1 <= ids[p + 1]
  {
  }

  lemma InsertAtMembers<T>(s: seq<T>, k: nat, x: T)
    requires k <= |s|
    ensures forall y :: y in InsertAt(s, k, x) <==> y in s || y == x
  {
    var r := InsertAt(s, k, x);
    assert r == s[..k] + [x] + s[k..] && s == s[..k] + s[k..];
  }

  /** What a generator has given out when it stops is the smallest unused ids, if the list starts at 0 or 1. */
  lemma FilledSmallest(ids0: seq<nat>, ids: seq<nat>, p: nat, names: seq<nat>)
    requires Filling(ids0, ids, p, names) && ids[0] <= 1
    ensures SmallestUnused(ids0, names)
  {
    forall x | names != [] && 1 <= x <= names[|names| - 1]
      ensures x in ids0 || x in names
    {
      assert ids[x - ids[0]] == x;
    }
  }

  class IdList<D> {
    var top: ListNode?<D>
    ghost var nodes: seq<ListNode<D>>
    ghost var ids: seq<nat>

    constructor ()
      ensures Valid() && nodes == [] && ids == []
    {
      top := null;
      nodes := [];
      ids := [];
    }

    ghost function Repr(): set<ListNode<D>>
      reads this
    {
      set x | x in nodes
    }

    ghost predicate Chain()
      reads this, nodes
    {
      && (top == if nodes == [] then null else nodes[0])
      && (forall i {:trigger nodes[i].next} :: 0 <= i < |nodes| - 1 ==> nodes[i].next == nodes[i + 1])
      && (nodes != [] ==> nodes[|nodes| - 1].next == null)
      && (forall i, j :: 0 <= i < j < |nodes| ==> nodes[i] != nodes[j])
    }

    ghost predicate Named()
      reads this, nodes
    {
      |ids| == |nodes| && forall i :: 0 <= i < |nodes| ==> nodes[i].id == ids[i]
    }

    ghost predicate Valid()
      reads this, nodes
    {
      Chain() && Named() && Sorted(ids)
    }

    lemma NamesAreUnique()
      requires Valid()
      ensures forall n :: n in Repr() ==> n.id in ids
      ensures forall m, n :: m in Repr() && n in Repr() && m.id == n.id ==> m == n
    {
    }

    // `tmp->next = newlist; newlist->next = rblist;`, where tmp is followed by rblist.
    method InsertAfter(ghost p: nat, tmp: ListNode<D>, n: ListNode<D>, after: ListNode?<D>)
      requires Valid() && n !in nodes && p < |nodes| && nodes[p] == tmp
      requires after == if p + 1 < |nodes| then nodes[p + 1] else null
      requires ids[p] < n.id && (p + 1 < |nodes| ==> n.id < ids[p + 1])
      modifies this`nodes, this`ids, tmp`next, n`next
      ensures Valid() && nodes == InsertAt(old(nodes), p + 1, n) && ids == InsertAt(old(ids), p + 1, n.id)
    {
      hide Sorted, InsertAt;
      InsertKeepsSorted(ids, p + 1, n.id);
      ghost var was := nodes;
      tmp.next := n;
      n.next := after;
      nodes := InsertAt(nodes, p + 1, n);
      ids := InsertAt(ids, p + 1, n.id);
      forall i | 0 <= i < |nodes| - 1
        ensures nodes[i].next == nodes[i + 1]
      {
        if i > p + 1 {
          assert was[i - 1].next == was[i];
        }
      }
    }

    method InsertFirst(n: ListNode<D>)
      requires Valid() && n !in nodes && (nodes != [] ==> n.id < ids[0])
      modifies this, n`next
      ensures Valid() && nodes == [n] + old(nodes) && ids == [n.id] + old(ids)
    {
      hide Sorted;
      InsertKeepsSorted(ids, 0, n.id);
      assert InsertAt(ids, 0, n.id) == [n.id] + ids;
      n.next := top;
      top := n;
      ghost var was := nodes;
      nodes := [n] + nodes;
      ids := [n.id] + ids;
      forall i | 0 <= i < |nodes| - 1
        ensures nodes[i].next == nodes[i + 1]
      {
        assert i > 0 ==> was[i - 1].next == was[i];
      }
    }

    // An assignment to what a node carries.
    method SetData(n: ListNode<D>, data: D)
      requires Valid() && n in Repr()
      modifies n`data
      ensures Valid() && n.data == data
    {
      n.data := data;
    }

    // The searches: the first node that does not come before `id`, and the one before that.
    method Search(id: nat) returns (node: ListNode?<D>, before: ListNode?<D>, ghost k: nat)
      requires Valid()
      ensures k <= |nodes| && (forall i :: 0 <= i < k ==> ids[i] < id) && (forall i :: k <= i < |ids| ==> id <= ids[i])
      ensures node == if k < |nodes| then nodes[k] else null
      ensures before == if k > 0 then nodes[k - 1] else null
    {
      node, before, k := top, null, 0;
      while node != null
        invariant k <= |nodes| && node == (if k < |nodes| then nodes[k] else null)
        invariant before == if k > 0 then nodes[k - 1] else null
        invariant forall i :: 0 <= i < k ==> ids[i] < id
        decreases |nodes| - k
      {
        if node.id >= id {
          break;
        }
        before := node;
        node := node.next;
        k := k + 1;
      }
    }

    /** The node with this id, if there is one. */
    method Find(id: nat) returns (node: ListNode?<D>)
      requires Valid()
      ensures node == null <==> id !in ids
      ensures node != null ==> node in nodes && node.id == id
    {
      ghost var k;
      var before;
      node, before, k := Search(id);
      if node != null && node.id != id {
        node := null;
      }
      NodeAt(id, k);
    }

    /** fb_linkRBList and fb_linkFBList: the node goes where its id belongs. */
    method Link(n: ListNode<D>)
      requires Valid() && n !in nodes && n.next == null && n.id !in ids
      modifies this, Repr()`next, n`next
      ensures Valid() && (old(ids) != [] && old(ids[0]) < n.id ==> ids != [] && ids[0] == old(ids[0]))
      ensures Repr() == old(Repr()) + {n} && forall x :: x in ids <==> x in old(ids) || x == n.id
    {
      hide Sorted, InsertAt;
      ghost var k := LinkSorted(n);
      InsertAtMembers(old(nodes), k, n);
      InsertAtMembers(old(ids), k, n.id);
    }

    method LinkSorted(n: ListNode<D>) returns (ghost k: nat)
      requires Valid() && n !in nodes && n.next == null && n.id !in ids
      modifies this, Repr()`next, n`next
      ensures Valid() && k <= |old(nodes)| && (k == 0 ==> old(ids) == [] || n.id < old(ids[0]))
      ensures nodes == InsertAt(old(nodes), k, n) && ids == InsertAt(old(ids), k, n.id)
    {
      k := 0;
      if top == null {
        top := n;
        nodes, ids := InsertAt(nodes, 0, n), InsertAt(ids, 0, n.id);
      } else if top.id > n.id {
        InsertFirst(n);
        assert nodes == InsertAt(old(nodes), 0, n) && ids == InsertAt(old(ids), 0, n.id);
      } else {
        var node, tmp := top.next, top;
        k := 1;
        assert ids[0] < n.id;
        while node != null
          invariant 1 <= k <= |nodes| && tmp == nodes[k - 1] && node == (if k < |nodes| then nodes[k] else null)
          invariant ids[k - 1] < n.id
          decreases |nodes| - k
        {
          if node.id > n.id {
            break;
          }
          tmp := node;
          node := node.next;
          k := k + 1;
        }
        InsertAfter(k - 1, tmp, n, node);
      }
    }

    /** Takes out the node with this id, if there is one. */
    method Remove(id: nat) returns (node: ListNode?<D>)
      requires Valid()
      modifies this, Repr()`next
      ensures Valid() && (node == null <==> id !in old(ids))
      ensures node == null ==> nodes == old(nodes) && ids == old(ids)
      ensures node != null ==> node in old(Repr()) && node.id == id && Repr() == old(Repr()) - {node}
      ensures forall x :: x in ids <==> x in old(ids) && x != id
      ensures node != null && old(ids[0]) != id ==> ids != [] && ids[0] == old(ids[0])
    {
      ghost var k;
      node, k := TakeOut(id);
      if node != null {
        hide RemoveAt;
        RemoveKeepsSorted(old(ids), k);
        RemoveAtMembers(old(nodes), k);
      }
    }

    method TakeOut(id: nat) returns (node: ListNode?<D>, ghost k: nat)
      requires Valid()
      modifies this, Repr()`next
      ensures Valid() && (node == null <==> id !in old(ids))
      ensures node == null ==> nodes == old(nodes) && ids == old(ids)
      ensures node != null ==> k < |old(nodes)| && node == old(nodes)[k] && old(ids)[k] == id
      ensures node != null ==> nodes == RemoveAt(old(nodes), k) && ids == RemoveAt(old(ids), k)
    {
      var before;
      node, before, k := Search(id);
      NodeAt(id, k);
      if node == null || node.id != id {
        node := null;
        return;
      }
      hide Sorted, RemoveAt;
      Unlink(node, before, k);
    }

    lemma NodeAt(id: nat, k: nat)
      requires Valid() && k <= |nodes|
      requires (forall i :: 0 <= i < k ==> ids[i] < id) && (forall i :: k <= i < |ids| ==> id <= ids[i])
      ensures id in ids <==> k < |ids| && ids[k] == id
    {
      if id in ids {
        var j :| 0 <= j < |ids| && ids[j] == id;
        assert j >= k;
      }
    }

    // `tmp->next = node->next;`, or the same on the top of the list.
    method Unlink(node: ListNode<D>, before: ListNode?<D>, ghost k: nat)
      requires Valid() && k < |nodes| && node == nodes[k] && before == if k > 0 then nodes[k - 1] else null
      modifies this, Repr()`next
      ensures Valid() && nodes == RemoveAt(old(nodes), k) && ids == RemoveAt(old(ids), k)
    {
      hide Sorted, RemoveAt;
      RemoveKeepsSorted(ids, k);
      ghost var was := nodes;
      if before == null {
        top := top.next;
      } else {
        before.next := node.next;
      }
      nodes, ids := RemoveAt(nodes, k), RemoveAt(ids, k);
      forall i | 0 <= i < |nodes| - 1
        ensures nodes[i].next == nodes[i + 1]
      {
        assert i >= k ==> was[i + 1].next == was[i + 2];
      }
    }

    // What the generators keep: nothing is lost from the list, and what is new was not there before.
    twostate predicate Grown(data: D)
      reads this, nodes
    {
      && old(Repr()) <= Repr() && fresh(Repr() - old(Repr()))
      && (forall x :: x in Repr() - old(Repr()) ==> x.data == data)
    }

    // The body of the generating loops: a node with the next id, `tmp->next = newlist; newlist->next = rblist;`.
    method Generate(ghost p: nat, tmp: ListNode<D>, after: ListNode?<D>, id: nat, data: D, ghost ids0: seq<nat>,
                    ghost names: seq<nat>, out: array<nat>, idx: nat) returns (n: ListNode<D>)
      requires Valid() && p < |nodes| && Filling(ids0, ids, p, names) && id == ids[p] + 1
      requires nodes[p] == tmp && after == if p + 1 < |nodes| then nodes[p + 1] else null
      requires p + 1 < |nodes| ==> id < ids[p + 1]
      requires idx < out.Length && out[..idx] == names
      modifies this`nodes, this`ids, tmp`next, out
      ensures fresh(n) && n.data == data && |nodes| == old(|nodes|) + 1 && nodes[p + 1] == n
      ensures Repr() == old(Repr()) + {n}
      ensures Valid() && Filling(ids0, ids, p + 1, names + [id]) && ids[0] == old(ids[0]) && ids[p + 1] == id
      ensures p + 1 < |old(nodes)| ==> nodes[p + 2] == after && ids[p + 2] == old(ids[p + 1])
      ensures out[..idx + 1] == names + [id] && forall k :: idx < k < out.Length ==> out[k] == old(out[k])
    {
      hide Filling, Sorted, InsertAt;
      n := new ListNode(id, data);
      FillOne(ids0, ids, p, names);
      InsertAtMembers(nodes, p + 1, n);
      InsertAfter(p, tmp, n, after);
      out[idx] := id;
    }

    // The inner loop: the names of the gap before `node`, in which `gap` are free.
    method FillRun(ghost p0: nat, tmp0: ListNode<D>, node: ListNode<D>, id: nat, gap: nat, n0: nat, idx0: nat,
                   out: array<nat>, data: D, ghost ids0: seq<nat>, ghost names0: seq<nat>)
      returns (n: nat, idx: nat, ghost p: nat, ghost names: seq<nat>)
      requires Valid() && p0 + 1 < |nodes| && Filling(ids0, ids, p0, names0) && id == ids[p0] + 1
      requires nodes[p0] == tmp0 && nodes[p0 + 1] == node && id + gap == ids[p0 + 1]
      requires idx0 + n0 <= out.Length && out[..idx0] == names0
      modifies this`nodes, this`ids, Repr()`next, out
      ensures Valid() && Grown(data) && p + 1 < |nodes| && Filling(ids0, ids, p, names)
      ensures nodes[p + 1] == node && ids[p + 1] == id + gap && ids[0] == old(ids[0])
      ensures |nodes| - p == old(|nodes|) - p0 && (n != 0 ==> ids[p] + 1 == ids[p + 1])
      ensures n <= n0 && idx + n == idx0 + n0 && out[..idx] == names
      ensures forall k :: idx <= k < out.Length ==> out[k] == old(out[k])
    {
      hide Filling, Sorted, InsertAt;
      n, idx, p, names := n0, idx0, p0, names0;
      var tmp := tmp0;
      var i: nat := 0;
      while i < gap && n != 0
        invariant i <= gap && Valid() && Grown(data) && p + 1 < |nodes| && Filling(ids0, ids, p, names)
        invariant nodes[p] == tmp && nodes[p + 1] == node
        invariant ids[0] == old(ids[0]) && ids[p] + 1 == id + i && ids[p + 1] == id + gap
        invariant |nodes| - p == old(|nodes|) - p0
        invariant n + i == n0 && idx + n == idx0 + n0 && out[..idx] == names
        invariant forall k :: idx <= k < out.Length ==> out[k] == old(out[k])
        decreases gap - i
      {
        assert tmp in Repr();
        var newlist := Generate(p, tmp, node, i + id, data, ids0, names, out, idx);
        names := names + [i + id];
        tmp := newlist;
        idx, n, p, i := idx + 1, n - 1, p + 1, i + 1;
      }
    }

    // The generator stands at `tmp`, `after` comes next, and `id` is the next name to look at.
    ghost predicate Ready(p: nat, tmp: ListNode<D>, after: ListNode?<D>, id: nat)
      reads this, nodes
    {
      && p < |nodes| == |ids| && nodes[p] == tmp && id == ids[p] + 1
      && after == if p + 1 < |nodes| then nodes[p + 1] else null
    }

    // The filling of the gap before `node`, if there is one.
    method FillGap(ghost p0: nat, tmp: ListNode<D>, node: ListNode<D>, id0: nat, n0: nat, idx0: nat,
                   out: array<nat>, data: D, ghost ids0: seq<nat>, ghost names0: seq<nat>)
      returns (id: nat, n: nat, idx: nat, ghost p: nat, ghost names: seq<nat>)
      requires Valid() && Filling(ids0, ids, p0, names0) && Ready(p0, tmp, node, id0)
      requires idx0 + n0 <= out.Length && out[..idx0] == names0
      modifies this`nodes, this`ids, Repr()`next, out
      ensures Valid() && Grown(data) && p + 1 < |nodes| && Filling(ids0, ids, p, names)
      ensures nodes[p + 1] == node && ids[p + 1] == id && ids[0] == old(ids[0])
      ensures |nodes| - p == old(|nodes|) - p0 && (n != 0 ==> ids[p] + 1 == ids[p + 1])
      ensures n <= n0 && idx + n == idx0 + n0 && out[..idx] == names
      ensures forall k :: idx <= k < out.Length ==> out[k] == old(out[k])
    {
      NoGapBelow(ids, p0);
      hide Filling, Sorted, InsertAt;
      id, n, idx, p, names := id0, n0, idx0, p0, names0;
      if node.id > id {
        n, idx, p, names := FillRun(p, tmp, node, id, node.id - id, n, idx, out, data, ids0, names);
        id := node.id;
      }
    }

    // One turn of the outer loop: the gap before `node`, and the step past `node`.
    method FillTurn(ghost p0: nat, tmp0: ListNode<D>, node0: ListNode<D>, id0: nat, n0: nat, idx0: nat,
                    out: array<nat>, data: D, ghost ids0: seq<nat>, ghost names0: seq<nat>)
      returns (tmp: ListNode<D>, node: ListNode?<D>, id: nat, n: nat, idx: nat, ghost p: nat, ghost names: seq<nat>)
      requires Valid() && Filling(ids0, ids, p0, names0) && Ready(p0, tmp0, node0, id0)
      requires idx0 + n0 <= out.Length && out[..idx0] == names0
      modifies this`nodes, this`ids, Repr()`next, out
      ensures Valid() && Grown(data) && Filling(ids0, ids, p, names) && (n != 0 ==> Ready(p, tmp, node, id))
      ensures n <= n0 && ids[0] == old(ids[0]) && (n != 0 ==> |nodes| - p < old(|nodes|) - p0)
      ensures idx + n == idx0 + n0 && out[..idx] == names
      ensures forall k :: idx <= k < out.Length ==> out[k] == old(out[k])
    {
      hide Filling, Sorted, InsertAt;
      id, n, idx, p, names := FillGap(p0, tmp0, node0, id0, n0, idx0, out, data, ids0, names0);
      id := id + 1;
      tmp := node0;
      node := node0.next;
      if n != 0 {
        FillSkip(ids0, ids, p, names);
        p := p + 1;
      }
    }

    // The names after the last node.
    method FillEnd(ghost p0: nat, tmp0: ListNode<D>, id0: nat, n: nat, idx0: nat, out: array<nat>, data: D,
                   ghost ids0: seq<nat>, ghost names0: seq<nat>)
      returns (ghost p: nat, ghost names: seq<nat>)
      requires Valid() && p0 + 1 == |nodes| && nodes[p0] == tmp0 && Filling(ids0, ids, p0, names0) && id0 == ids[p0] + 1
      requires idx0 + n <= out.Length && out[..idx0] == names0
      modifies this`nodes, this`ids, Repr()`next, out
      ensures Valid() && Grown(data) && ids[0] == old(ids[0]) && Filling(ids0, ids, p, names)
      ensures out[..idx0 + n] == names && forall k :: idx0 + n <= k < out.Length ==> out[k] == old(out[k])
    {
      hide Filling, Sorted, InsertAt;
      var tmp := tmp0;
      var id: nat, idx: nat, i: nat := id0, idx0, 0;
      p, names := p0, names0;
      while i < n
        invariant Valid() && Grown(data) && p + 1 == |nodes| && ids[0] == old(ids[0]) && Filling(ids0, ids, p, names)
        invariant i <= n && nodes[p] == tmp && id == ids[p] + 1 && idx == idx0 + i && out[..idx] == names
        invariant forall k :: idx <= k < out.Length ==> out[k] == old(out[k])
      {
        assert tmp in Repr();
        var newlist := Generate(p, tmp, null, id, data, ids0, names, out, idx);
        names := names + [id];
        tmp := newlist;
        id, idx, p, i := id + 1, idx + 1, p + 1, i + 1;
      }
      assert tmp in Repr();
      tmp.next := null;
    }

    /**
     The loops that glGenFramebuffers and glGenRenderbuffers share: from the first node on, fill the gaps, and then go
     on after the last node. `idx0` names have been given out before.
     */
    method FillGaps(n0: nat, id0: nat, idx0: nat, out: array<nat>, data: D,
                    ghost ids0: seq<nat>, ghost names0: seq<nat>)
      returns (ghost p: nat, ghost names: seq<nat>)
      requires Valid() && nodes != [] && Filling(ids0, ids, 0, names0) && id0 == ids[0] + 1
      requires idx0 + n0 <= out.Length && out[..idx0] == names0
      modifies this`nodes, this`ids, Repr()`next, out
      ensures Valid() && Grown(data) && ids[0] == old(ids[0]) && Filling(ids0, ids, p, names)
      ensures out[..idx0 + n0] == names && forall k :: idx0 + n0 <= k < out.Length ==> out[k] == old(out[k])
    {
      hide Filling, Sorted, InsertAt;
      var tmp, id, n, idx;
      tmp, id, n, idx, p, names := FillAllGaps(n0, id0, idx0, out, data, ids0, names0);
      if n != 0 {
        p, names := FillEnd(p, tmp, id, n, idx, out, data, ids0, names);
      }
    }

    // The first of these loops.
    method FillAllGaps(n0: nat, id0: nat, idx0: nat, out: array<nat>, data: D,
                       ghost ids0: seq<nat>, ghost names0: seq<nat>)
      returns (tmp: ListNode<D>, id: nat, n: nat, idx: nat, ghost p: nat, ghost names: seq<nat>)
      requires Valid() && nodes != [] && Filling(ids0, ids, 0, names0) && id0 == ids[0] + 1
      requires idx0 + n0 <= out.Length && out[..idx0] == names0
      modifies this`nodes, this`ids, Repr()`next, out
      ensures Valid() && Grown(data) && ids[0] == old(ids[0]) && Filling(ids0, ids, p, names)
      ensures n != 0 ==> Ready(p, tmp, null, id) && p + 1 == |nodes|
      ensures idx + n == idx0 + n0 && out[..idx] == names
      ensures forall k :: idx <= k < out.Length ==> out[k] == old(out[k])
    {
      var node := top.next;
      assert Ready(0, top, node, id0);
      tmp, n, id, idx, p, names := top, n0, id0, idx0, 0, names0;
      while node != null && n != 0
        invariant Valid() && Grown(data) && ids[0] == old(ids[0]) && Filling(ids0, ids, p, names)
        invariant n != 0 ==> Ready(p, tmp, node, id)
        invariant idx + n == idx0 + n0 && out[..idx] == names
        invariant forall k :: idx <= k < out.Length ==> out[k] == old(out[k])
        decreases n, |nodes| - p
      {
        tmp, node, id, n, idx, p, names := FillTurn(p, tmp, node, id, n, idx, out, data, ids0, names);
      }
    }

    /** The generator on an empty list. */
    method GenerateFirst(n: nat, out: array<nat>, data: D)
      requires Valid() && nodes == [] && 0 < n <= out.Length
      modifies this, out
      ensures Valid() && Grown(data) && SmallestUnused([], out[..n]) && ids == out[..n]
      ensures forall k :: n <= k < out.Length ==> out[k] == old(out[k])
    {
      FirstFilling();
      hide Filling, Sorted, InsertAt, SmallestUnused;
      LinkFirst(data);
      out[0] := 1;
      ghost var p, names := FillEnd(0, top, 2, n - 1, 1, out, data, [], [1]);
      FilledSmallest([], ids, p, names);
      FilledFromNothing(ids, p, names);
    }

    /** glGenFramebuffers on a list that starts with name 0; the rest of glGenRenderbuffers once it starts with 1. */
    method GenerateFrom(n: nat, idx: nat, out: array<nat>, data: D, ghost ids0: seq<nat>, ghost names0: seq<nat>)
      requires Valid() && nodes != [] && ids[0] <= 1 && Filling(ids0, ids, 0, names0)
      requires idx + n <= out.Length && out[..idx] == names0
      modifies this`nodes, this`ids, Repr()`next, out
      ensures Valid() && Grown(data) && ids != [] && ids[0] == old(ids[0]) && SmallestUnused(ids0, out[..idx + n])
      ensures forall x :: x in ids <==> x in ids0 || x in out[..idx + n]
      ensures forall k :: idx + n <= k < out.Length ==> out[k] == old(out[k])
    {
      hide Filling, Sorted, InsertAt, SmallestUnused;
      ghost var p, names := FillGaps(n, top.id + 1, idx, out, data, ids0, names0);
      FilledSmallest(ids0, ids, p, names);
      FilledMembers(ids0, ids, p, names);
    }

    /** glGenRenderbuffers. */
    method GeneratePositive(n: nat, out: array<nat>, data: D)
      requires Valid() && 0 !in ids && 0 < n <= out.Length
      modifies this, Repr()`next, out
      ensures Valid() && Grown(data) && SmallestUnused(old(ids), out[..n])
      ensures forall x :: x in ids <==> x in old(ids) || x in out[..n]
      ensures forall k :: n <= k < out.Length ==> out[k] == old(out[k])
    {
      if top == null {
        GenerateFirst(n, out, data);
      } else {
        GenerateMore(n, out, data);
      }
    }

    // The generator on a list that is not empty.
    method GenerateMore(n: nat, out: array<nat>, data: D)
      requires Valid() && nodes != [] && ids[0] >= 1 && 0 < n <= out.Length
      modifies this, Repr()`next, out
      ensures Valid() && Grown(data) && SmallestUnused(old(ids), out[..n])
      ensures forall x :: x in ids <==> x in old(ids) || x in out[..n]
      ensures forall k :: n <= k < out.Length ==> out[k] == old(out[k])
    {
      hide Filling, InsertAt, SmallestUnused;
      ghost var ids0 := ids;
      NoNames(ids0);
      if top.id != 1 {
        PutFirst(out, data);
        GenerateFrom(n - 1, 1, out, data, ids0, [1]);
      } else {
        GenerateFrom(n, 0, out, data, ids0, []);
      }
    }

    // Name 1, when it is free.
    method PutFirst(out: array<nat>, data: D)
      requires Valid() && nodes != [] && ids[0] > 1 && out.Length > 0
      modifies this, out
      ensures Valid() && Grown(data) && nodes != [] && ids[0] == 1 && Filling(old(ids), ids, 0, [1])
      ensures out[..1] == [1] && forall k :: 1 <= k < out.Length ==> out[k] == old(out[k])
    {
      FirstName(ids);
      hide Filling, Sorted, InsertAt, SmallestUnused;
      out[0] := 1;
      LinkFirst(data);
    }

    method LinkFirst(data: D)
      requires Valid() && (nodes != [] ==> ids[0] > 1)
      modifies this
      ensures Valid() && Grown(data) && |nodes| == |old(nodes)| + 1 && ids == [1] + old(ids)
    {
      hide Sorted, InsertAt;
      var node := new ListNode(1, data);
      InsertFirst(node);
    }
  }

  lemma FirstFilling()
    ensures Filling([], [1], 0, [1]) && [1] + [] == [1]
  {
  }

  /** Before anything is given out. */
  lemma NoNames(ids: seq<nat>)
    requires Sorted(ids) && ids != []
    ensures Filling(ids, ids, 0, [])
  {
  }

  /** When the list does not start with 1, that is the first name given out. */
  lemma FirstName(ids: seq<nat>)
    requires Sorted(ids) && ids != [] && ids[0] > 1
    ensures Filling(ids, [1] + ids, 0, [1]) && Sorted([1] + ids)
  {
  }

  lemma FilledMembers(ids0: seq<nat>, ids: seq<nat>, p: nat, names: seq<nat>)
    requires Filling(ids0, ids, p, names)
    ensures forall x :: x in ids <==> x in ids0 || x in names
    ensures ids != [] && 0 !in names
  {
  }

  lemma FilledFromNothing(ids: seq<nat>, p: nat, names: seq<nat>)
    requires Filling([], ids, p, names)
    ensures ids == names
  {
    SameMembers(ids, names);
  }

  lemma {:induction false} SameMembers(a: seq<nat>, b: seq<nat>)
    requires Sorted(a) && Sorted(b) && forall x :: x in a <==> x in b
    ensures a == b
    decreases |a|
  {
    var x := if a != [] then a[0] else if b != [] then b[0] else 0;
    assert x in a <==> x in b;
    if a != [] && b != [] {
      assert b[0] in a && a[0] == b[0];
      forall x
        ensures x in a[1..] <==> x in b[1..]
      {
        assert x in a[1..] <==> x in a && x != a[0];
        assert x in b[1..] <==> x in b && x != b[0];
      }
      SameMembers(a[1..], b[1..]);
    }
  }
}
