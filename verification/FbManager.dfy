/**
 The framebuffer and renderbuffer manager of fbmanager.c, in its debug build, with an allocator that does not fail.
 A surface container is part of its renderbuffer node, so an attachment that points to the one is modelled as a
 reference to the other. Only renderbuffers are attached.
 */
module FbManagers {
  import opened IdLists

  const GL_FRAMEBUFFER := 0x8D40
  const GL_RENDERBUFFER := 0x8D41
  const GL_COLOR_ATTACHMENT0 := 0x8CE0
  const GL_DEPTH_ATTACHMENT := 0x8D00
  const GL_DEPTH_STENCIL_ATTACHMENT := 0x821A
  const GL_RGBA8_OES := 0x8058
  const GL_GAS_DMP := 0x6050
  const GL_DEPTH24_STENCIL8_EXT := 0x88F0
  const GL_DEPTH_COMPONENT16 := 0x81A5
  const GL_DEPTH_COMPONENT24_OES := 0x81A6
  const CF_R5G5B5A1 := 2
  const CF_R5G6B5 := 3
  const CF_R4G4B4A4 := 4
  const GL_INVALID_ENUM := 0x500
  const GL_INVALID_VALUE := 0x501
  const GL_INVALID_OPERATION := 0x502
  const GL_FRAMEBUFFER_COMPLETE := 0x8CD5
  const GL_FRAMEBUFFER_INCOMPLETE_ATTACHMENT := 0x8CD6
  const GL_FRAMEBUFFER_INCOMPLETE_MISSING_ATTACHMENT := 0x8CD7
  const GL_FRAMEBUFFER_INCOMPLETE_DIMENSIONS := 0x8CD9

  const FB_AP_COLOR0 := 0
  const FB_AP_DEPTH_STENCIL := 1

  datatype Surface = Surface(picaaddr: nat, width: int, height: int, format: nat, residentType: nat)

  type RbNode = ListNode<Surface>

  datatype AttInfo = AttInfo(id: nat, surface: ListNode?<Surface>)

  // The fields of a framebuffer node: its attachment points.
  datatype Attachments = Attachments(color: AttInfo, depthStencil: AttInfo)

  type FbNode = ListNode<Attachments>

  const NO_SURFACE := Surface(0, 0, 0, 0, 0)
  const DETACHED := AttInfo(0, null)

  /** After `surface` is gone from an attachment point. */
  function DetachOne(a: AttInfo, surface: RbNode): AttInfo {
    if a.surface == surface then DETACHED else a
  }

  predicate Refers(a: Attachments, surface: RbNode) {
    a.color.surface == surface || a.depthStencil.surface == surface
  }

  function Detach(a: Attachments, surface: RbNode): Attachments {
    Attachments(DetachOne(a.color, surface), DetachOne(a.depthStencil, surface))
  }

  /** What is left of the attachments when the renderbuffers with these names are gone. */
  function WithoutNames(a: Attachments, names: seq<nat>): Attachments {
    Attachments(if a.color.id in names then DETACHED else a.color,
                if a.depthStencil.id in names then DETACHED else a.depthStencil)
  }

  predicate IsDepthFormat(format: nat) {
    format == GL_DEPTH24_STENCIL8_EXT || format == GL_DEPTH_COMPONENT16 || format == GL_DEPTH_COMPONENT24_OES
  }

  /** The error of attaching a renderbuffer with this surface, or 0. */
  function AttachError(attach: nat, s: Surface): nat {
    if attach == GL_COLOR_ATTACHMENT0 then
      if s.format != GL_RGBA8_OES && s.residentType != CF_R5G5B5A1 && s.residentType != CF_R5G6B5
         && s.residentType != CF_R4G4B4A4 && s.format != GL_GAS_DMP then GL_INVALID_OPERATION
      else if IsDepthFormat(s.format) then GL_INVALID_OPERATION
      else 0
    else if attach == GL_DEPTH_ATTACHMENT then
      if IsDepthFormat(s.format) then 0 else GL_INVALID_OPERATION
    else if attach == GL_DEPTH_STENCIL_ATTACHMENT then
      if s.format == GL_DEPTH24_STENCIL8_EXT then 0 else GL_INVALID_OPERATION
    else GL_INVALID_ENUM
  }

  /** The surfaces that an attachment point takes. */
  predicate Accepts(attach: nat, s: Surface) {
    var depth := {GL_DEPTH24_STENCIL8_EXT, GL_DEPTH_COMPONENT16, GL_DEPTH_COMPONENT24_OES};
    || (attach == GL_COLOR_ATTACHMENT0 && s.format !in depth
        && (s.format in {GL_RGBA8_OES, GL_GAS_DMP} || s.residentType in {CF_R5G5B5A1, CF_R5G6B5, CF_R4G4B4A4}))
    || (attach == GL_DEPTH_ATTACHMENT && s.format in depth)
    || (attach == GL_DEPTH_STENCIL_ATTACHMENT && s.format == GL_DEPTH24_STENCIL8_EXT)
  }

  /** The tests accept exactly these, and refuse others as an invalid operation. */
  lemma AcceptedFormats(attach: nat, s: Surface)
    ensures AttachError(attach, s) == 0 <==> Accepts(attach, s)
    ensures AttachError(attach, s) != 0 ==>
              AttachError(attach, s) == if attach in {GL_COLOR_ATTACHMENT0, GL_DEPTH_ATTACHMENT,
                                                      GL_DEPTH_STENCIL_ATTACHMENT}
                                        then GL_INVALID_OPERATION else GL_INVALID_ENUM
  {
  }

  /** A surface goes to one point only: as a color or as a depth, and what is taken with a stencil is taken without. */
  lemma OnePoint(s: Surface)
    ensures AttachError(GL_DEPTH_STENCIL_ATTACHMENT, s) == 0 ==> AttachError(GL_DEPTH_ATTACHMENT, s) == 0
    ensures AttachError(GL_COLOR_ATTACHMENT0, s) == 0 ==> AttachError(GL_DEPTH_ATTACHMENT, s) != 0
    ensures AttachError(GL_DEPTH_ATTACHMENT, s) == 0
            <==> s.format in {GL_DEPTH24_STENCIL8_EXT, GL_DEPTH_COMPONENT16, GL_DEPTH_COMPONENT24_OES}
    ensures s.format == GL_RGBA8_OES ==> AttachError(GL_COLOR_ATTACHMENT0, s) == 0
  {
  }

  predicate HasStorage(s: Surface) {
    s.picaaddr != 0 && s.width != 0 && s.height != 0
  }

  datatype FbCall =
    | BindRb(target: nat, rb: nat)
    | DeleteRbs(names: seq<nat>)
    | GenRbs(n: nat)
    | BindFb(target: nat, fb: nat)
    | DeleteFbs(names: seq<nat>)
    | GenFbs(n: nat)
    | AttachRb(target: nat, attach: nat, rbtarget: nat, rb: nat)
    | StoreRb(surface: Surface)

  /** An attachment point is empty, or it refers to a renderbuffer that exists, by the name recorded with it. */
  ghost predicate AttachedTo(a: AttInfo, names: map<RbNode, nat>) {
    if a.surface == null then a.id == 0 else a.surface in names && a.id == names[a.surface]
  }

  ghost predicate AllAttached(data: map<FbNode, Attachments>, names: map<RbNode, nat>) {
    forall f :: f in data ==> AttachedTo(data[f].color, names) && AttachedTo(data[f].depthStencil, names)
  }

  // Nothing happened to the framebuffers that stayed, the new ones have nothing attached, and no renderbuffer is gone.
  lemma StillAttached(data0: map<FbNode, Attachments>, names0: map<RbNode, nat>, data: map<FbNode, Attachments>,
                      names: map<RbNode, nat>)
    requires AllAttached(data0, names0) && forall r :: r in names0 ==> r in names && names[r] == names0[r]
    requires forall f :: f in data ==> (f in data0 && data[f] == data0[f]) || data[f] == Attachments(DETACHED, DETACHED)
    ensures AllAttached(data, names)
  {
  }

  // One attachment point of one framebuffer changed.
  lemma OneAttached(data0: map<FbNode, Attachments>, names: map<RbNode, nat>, fb: FbNode, a: AttInfo)
    requires AllAttached(data0, names) && fb in data0 && AttachedTo(a, names)
    ensures AllAttached(data0[fb := data0[fb].(color := a)], names)
    ensures AllAttached(data0[fb := data0[fb].(depthStencil := a)], names)
  {
  }

  /** What is left of all attachments when the renderbuffers with these names are gone. */
  function Lost(data: map<FbNode, Attachments>, names: seq<nat>): map<FbNode, Attachments> {
    map f | f in data :: WithoutNames(data[f], names)
  }

  // To detach a name that is not in use is to do nothing.
  lemma NothingLost(data: map<FbNode, Attachments>, names: map<RbNode, nat>, rb: nat)
    requires AllAttached(data, names) && forall r :: r in names ==> names[r] != rb
    ensures Lost(data, [rb]) == data
  {
  }

  lemma NothingAtAll(data: map<FbNode, Attachments>)
    ensures Lost(data, []) == data
  {
  }

  lemma LostMore(data: map<FbNode, Attachments>, a: seq<nat>, b: seq<nat>)
    ensures Lost(Lost(data, a), b) == Lost(data, a + b)
  {
  }

  /** A renderbuffer is gone, and detached everywhere. As names are unique, that is to detach its name. */
  lemma DetachedEverywhere(data0: map<FbNode, Attachments>, data: map<FbNode, Attachments>, names0: map<RbNode, nat>,
                           names: map<RbNode, nat>, gone: RbNode)
    requires AllAttached(data0, names0) && gone in names0 && names0[gone] != 0 && names == names0 - {gone}
    requires forall r :: r in names0 && names0[r] == names0[gone] ==> r == gone
    requires data.Keys == data0.Keys && forall f :: f in data ==> data[f] == Detach(data0[f], gone)
    ensures AllAttached(data, names)
    ensures data == Lost(data0, [names0[gone]])
  {
  }

  class FbManager {
    const fbList: IdList<Attachments>
    const rbList: IdList<Surface>
    var currFB: FbNode
    var currRB: ListNode?<Surface>
    var error: nat
    var fbDirty: bool      // IF_GL_FRAMEBUFFER in upd_mask

    ghost function Names(): map<RbNode, nat>
      reads rbList, rbList.nodes
    {
      map r | r in rbList.Repr() :: r.id
    }

    ghost function Attached(): map<FbNode, Attachments>
      reads fbList, fbList.nodes
    {
      map f | f in fbList.Repr() :: f.data
    }

    /**
     What holds between calls: both lists are sorted by name without repetition, framebuffer 0 is always there and
     first, the bound objects exist, and so does every attached renderbuffer.
     */
    ghost predicate Valid()
      reads this, fbList, rbList, fbList.nodes, rbList.nodes
    {
      && fbList.Valid() && rbList.Valid()
      && fbList.ids != [] && fbList.ids[0] == 0 && 0 !in rbList.ids
      && currFB in fbList.Repr() && (currRB == null || currRB in rbList.Repr())
      && AllAttached(Attached(), Names())
    }

    constructor ()
      ensures Valid() && fresh(fbList) && fresh(rbList) && fresh(fbList.Repr()) && rbList.Repr() == {}
      ensures fbList.ids == [0] && rbList.ids == [] && currFB.id == 0 && currRB == null && error == 0
    {
      var fbs := new IdList<Attachments>();
      var rbs := new IdList<Surface>();
      var fb := new ListNode(0, Attachments(DETACHED, DETACHED));
      fbs.InsertFirst(fb);
      fbList, rbList, currFB, currRB, error, fbDirty := fbs, rbs, fb, null, 0, false;
    }

    method SetError(raised: nat)
      modifies this`error
      ensures error == if old(error) == 0 then raised else old(error)
    {
      if error == 0 {
        error := raised;
      }
    }

    // A renderbuffer of this name, new if there was none.
    method FindOrAddRb(rb: nat) returns (node: RbNode)
      requires Valid() && rb != 0
      modifies rbList, rbList.Repr()`next
      ensures Valid() && node in rbList.Repr() && node.id == rb
      ensures old(rbList.Repr()) <= rbList.Repr() && fresh(rbList.Repr() - old(rbList.Repr()))
      ensures forall x :: x in rbList.ids <==> x in old(rbList.ids) || x == rb
    {
      hide IdList.Valid;
      var found := rbList.Find(rb);
      if found != null {
        return found;
      }
      node := new ListNode(rb, NO_SURFACE);
      rbList.Link(node);
    }

    method BindRenderbuffer(target: nat, rb: nat)
      requires Valid()
      modifies this, rbList, rbList.Repr()`next
      ensures Valid() && currFB == old(currFB)
      ensures target != GL_RENDERBUFFER ==>
                currRB == old(currRB) && rbList.ids == old(rbList.ids) && rbList.Repr() == old(rbList.Repr())
      ensures target == GL_RENDERBUFFER ==>
                && (if rb == 0 then currRB == null else currRB != null && currRB.id == rb)
                && (forall x :: x in rbList.ids <==> x in old(rbList.ids) || (x == rb && rb != 0))
                && old(rbList.Repr()) <= rbList.Repr() && fresh(rbList.Repr() - old(rbList.Repr()))
      ensures error == if target != GL_RENDERBUFFER && old(error) == 0 then GL_INVALID_ENUM else old(error)
      ensures fbDirty == (old(fbDirty)
                          || (target == GL_RENDERBUFFER && !(old(currRB) != null && old(currRB.id) == rb)))
    {
      hide IdList.Valid, AllAttached;
      if target != GL_RENDERBUFFER {
        SetError(GL_INVALID_ENUM);
        return;
      }
      if currRB != null && rb == currRB.id {
        rbList.NamesAreUnique();
        return;
      }
      var node := null;
      if rb != 0 {
        node := FindOrAddRb(rb);
      }
      currRB := node;
      fbDirty := true;
    }

    // The body of the loop below, for both attachment points.
    method DetachFrom(node: FbNode, surface: RbNode)
      requires fbList.Valid() && node in fbList.Repr()
      modifies this`fbDirty, node`data
      ensures fbList.Valid() && node.data == Detach(old(node.data), surface)
      ensures fbDirty == (old(fbDirty) || (node == currFB && old(Refers(node.data, surface))))
    {
      if node.data.color.surface == surface || node.data.depthStencil.surface == surface {
        if node == currFB {
          fbDirty := true;
        }
        fbList.SetData(node, Detach(node.data, surface));
      }
    }

    // __fb_detachSurfaceContainer: every framebuffer in the list is looked through, bound or not.
    method DetachSurface(surface: RbNode)
      requires fbList.Valid()
      modifies this`fbDirty, fbList.Repr()`data
      ensures fbList.Valid()
      ensures forall f :: f in fbList.Repr() ==> f.data == Detach(old(f.data), surface)
      ensures fbDirty == (old(fbDirty) || (currFB in fbList.Repr() && old(Refers(currFB.data, surface))))
    {
      hide Sorted, Detach, Refers, IdList.Named;
      var node := fbList.top;
      ghost var k: nat, nodes := 0, fbList.nodes;
      while node != null
        invariant fbList.Valid() && k <= |nodes|
        invariant node == if k < |nodes| then nodes[k] else null
        invariant forall i :: 0 <= i < k ==> nodes[i].data == Detach(old(nodes[i].data), surface)
        invariant forall i :: k <= i < |nodes| ==> nodes[i].data == old(nodes[i].data)
        invariant fbDirty == (old(fbDirty) || (currFB in nodes[..k] && old(Refers(currFB.data, surface))))
        decreases |nodes| - k
      {
        assert nodes[..k + 1] == nodes[..k] + [node];
        DetachFrom(node, surface);
        node := node.next;
        k := k + 1;
      }
      assert nodes[..k] == nodes;
    }

    // One turn of the loop of glDeleteRenderbuffers.
    method DeleteRenderbuffer(rb: nat)
      requires Valid()
      modifies this`currRB, this`fbDirty, rbList, rbList.Repr()`next, fbList.Repr()`data
      ensures Valid()
      ensures forall x :: x in rbList.ids <==> x in old(rbList.ids) && x != rb
      ensures rbList.Repr() <= old(rbList.Repr())
      ensures currRB == if old(currRB) != null && old(currRB.id) == rb then null else old(currRB)
      ensures Attached() == Lost(old(Attached()), [rb])
    {
      hide IdList.Valid, AllAttached, Detach, Lost;
      ghost var data0, names0 := Attached(), Names();
      rbList.NamesAreUnique();
      if rb == 0 {
        NothingLost(data0, names0, 0);
        return;
      }
      var node := rbList.Remove(rb);
      if node == null {
        NothingLost(data0, names0, rb);
        assert Names() == names0 && Attached() == data0;
        return;
      }
      Release(node, data0, names0);
    }

    // A node that has been taken out of the list is unbound and detached: fb_releaseRenderbuffer.
    method Release(node: RbNode, ghost data0: map<FbNode, Attachments>, ghost names0: map<RbNode, nat>)
      requires fbList.Valid() && AllAttached(data0, names0) && Attached() == data0
      requires node in names0 && names0[node] != 0 && Names() == names0 - {node}
      requires forall r :: r in names0 && names0[r] == names0[node] ==> r == node
      modifies this`currRB, this`fbDirty, fbList.Repr()`data
      ensures fbList.Valid() && AllAttached(Attached(), Names()) && Attached() == Lost(data0, [names0[node]])
      ensures currRB == if old(currRB) == node then null else old(currRB)
    {
      hide IdList.Valid, AllAttached, Detach, Lost;
      if currRB == node {
        currRB := null;
      }
      DetachSurface(node);
      assert Names() == names0 - {node};
      DetachedEverywhere(data0, Attached(), names0, Names(), node);
    }

    method DeleteRenderbuffers(n: int, prb: seq<nat>)
      requires Valid() && n <= |prb|
      modifies this`currRB, this`fbDirty, this`error, rbList, rbList.Repr()`next, fbList.Repr()`data
      ensures Valid() && rbList.Repr() <= old(rbList.Repr())
      ensures error == if n < 0 && old(error) == 0 then GL_INVALID_VALUE else old(error)
      ensures var deleted := if n < 0 then [] else prb[..n];
              && (forall x :: x in rbList.ids <==> x in old(rbList.ids) && x !in deleted)
              && currRB == (if old(currRB) != null && old(currRB.id) in deleted then null else old(currRB))
              && Attached() == Lost(old(Attached()), deleted)
      ensures fbDirty == (old(fbDirty) || n >= 0)
    {
      hide IdList.Valid, AllAttached, Lost;
      NothingAtAll(Attached());
      if n < 0 {
        SetError(GL_INVALID_VALUE);
        return;
      }
      var i := 0;
      while i < n
        invariant 0 <= i <= n && Valid() && rbList.Repr() <= old(rbList.Repr()) && error == old(error)
        invariant forall x :: x in rbList.ids <==> x in old(rbList.ids) && x !in prb[..i]
        invariant currRB == if old(currRB) != null && old(currRB.id) in prb[..i] then null else old(currRB)
        invariant Attached() == Lost(old(Attached()), prb[..i])
      {
        assert prb[..i + 1] == prb[..i] + [prb[i]];
        LostMore(old(Attached()), prb[..i], [prb[i]]);
        DeleteRenderbuffer(prb[i]);
        i := i + 1;
      }
      fbDirty := true;
    }

    method GenRenderbuffers(n: int, out: array<nat>)
      requires Valid() && n <= out.Length
      modifies this`error, rbList, rbList.Repr()`next, out
      ensures Valid() && error == if n < 0 && old(error) == 0 then GL_INVALID_VALUE else old(error)
      ensures n <= 0 ==> rbList.ids == old(rbList.ids) && out[..] == old(out[..])
      ensures n > 0 ==>
                && SmallestUnused(old(rbList.ids), out[..n])
                && (forall x :: x in rbList.ids <==> x in old(rbList.ids) || x in out[..n])
                && (forall k :: n <= k < out.Length ==> out[k] == old(out[k]))
      ensures old(rbList.Repr()) <= rbList.Repr() && fresh(rbList.Repr() - old(rbList.Repr()))
    {
      if n < 0 {
        SetError(GL_INVALID_VALUE);
        return;
      }
      if n == 0 {
        return;
      }
      hide Valid, SmallestUnused;
      AddRenderbuffers(n, out);
    }

    method AddRenderbuffers(n: nat, out: array<nat>)
      requires Valid() && 0 < n <= out.Length
      modifies rbList, rbList.Repr()`next, out
      ensures Valid() && SmallestUnused(old(rbList.ids), out[..n])
      ensures forall x :: x in rbList.ids <==> x in old(rbList.ids) || x in out[..n]
      ensures forall k :: n <= k < out.Length ==> out[k] == old(out[k])
      ensures old(rbList.Repr()) <= rbList.Repr() && fresh(rbList.Repr() - old(rbList.Repr()))
    {
      hide IdList.Valid, SmallestUnused, AllAttached;
      ghost var data0, names0 := Attached(), Names();
      rbList.GeneratePositive(n, out, NO_SURFACE);
      NoZeroAmong(old(rbList.ids), out[..n]);
      StillAttached(data0, names0, Attached(), Names());
    }

    method GenFramebuffers(n: int, out: array<nat>)
      requires Valid() && n <= out.Length
      modifies this`error, fbList, fbList.Repr()`next, out
      ensures Valid() && error == if n < 0 && old(error) == 0 then GL_INVALID_VALUE else old(error)
      ensures n <= 0 ==> fbList.ids == old(fbList.ids) && out[..] == old(out[..])
      ensures n > 0 ==>
                && SmallestUnused(old(fbList.ids), out[..n])
                && (forall x :: x in fbList.ids <==> x in old(fbList.ids) || x in out[..n])
                && (forall k :: n <= k < out.Length ==> out[k] == old(out[k]))
      ensures old(fbList.Repr()) <= fbList.Repr() && fresh(fbList.Repr() - old(fbList.Repr()))
    {
      if n < 0 {
        SetError(GL_INVALID_VALUE);
        return;
      }
      if n == 0 {
        return;
      }
      hide Valid, SmallestUnused;
      AddFramebuffers(n, out);
    }

    method AddFramebuffers(n: nat, out: array<nat>)
      requires Valid() && 0 < n <= out.Length
      modifies fbList, fbList.Repr()`next, out
      ensures Valid() && SmallestUnused(old(fbList.ids), out[..n])
      ensures forall x :: x in fbList.ids <==> x in old(fbList.ids) || x in out[..n]
      ensures forall k :: n <= k < out.Length ==> out[k] == old(out[k])
      ensures old(fbList.Repr()) <= fbList.Repr() && fresh(fbList.Repr() - old(fbList.Repr()))
    {
      NoNames(fbList.ids);
      hide IdList.Valid, SmallestUnused, Filling, AllAttached;
      ghost var data0, names0 := Attached(), Names();
      fbList.GenerateFrom(n, 0, out, Attachments(DETACHED, DETACHED), fbList.ids, []);
      StillAttached(data0, names0, Attached(), Names());
    }

    // A framebuffer of this name, new if there was none.
    method FindOrAddFb(fb: nat) returns (node: FbNode)
      requires Valid()
      modifies fbList, fbList.Repr()`next
      ensures Valid() && node in fbList.Repr() && node.id == fb
      ensures old(fbList.Repr()) <= fbList.Repr() && fresh(fbList.Repr() - old(fbList.Repr()))
      ensures forall f :: f in fbList.Repr() - old(fbList.Repr()) ==> f.data == Attachments(DETACHED, DETACHED)
      ensures forall x :: x in fbList.ids <==> x in old(fbList.ids) || x == fb
      ensures fb in old(fbList.ids) ==> fbList.Repr() == old(fbList.Repr())
    {
      hide IdList.Valid;
      var found := fbList.Find(fb);
      if found != null {
        return found;
      }
      assert fb != 0 by {
        assert fbList.ids[0] in fbList.ids;
      }
      hide AllAttached;
      ghost var data0, names0 := Attached(), Names();
      node := new ListNode(fb, Attachments(DETACHED, DETACHED));
      fbList.Link(node);
      StillAttached(data0, names0, Attached(), Names());
    }

    method BindFramebuffer(target: nat, fb: nat)
      requires Valid()
      modifies this`currFB, this`fbDirty, this`error, fbList, fbList.Repr()`next
      ensures Valid()
      ensures target != GL_FRAMEBUFFER ==>
                currFB == old(currFB) && fbList.ids == old(fbList.ids) && fbList.Repr() == old(fbList.Repr())
      ensures target == GL_FRAMEBUFFER ==>
                && currFB.id == fb && (forall x :: x in fbList.ids <==> x in old(fbList.ids) || x == fb)
                && old(fbList.Repr()) <= fbList.Repr() && fresh(fbList.Repr() - old(fbList.Repr()))
                && forall f :: f in fbList.Repr() - old(fbList.Repr()) ==> f.data == Attachments(DETACHED, DETACHED)
      ensures target == GL_FRAMEBUFFER && fb in old(fbList.ids) ==> fbList.Repr() == old(fbList.Repr())
      ensures error == if target != GL_FRAMEBUFFER && old(error) == 0 then GL_INVALID_ENUM else old(error)
      ensures fbDirty == (old(fbDirty) || (target == GL_FRAMEBUFFER && fb != old(currFB.id)))
    {
      hide IdList.Valid, AllAttached;
      if target != GL_FRAMEBUFFER {
        SetError(GL_INVALID_ENUM);
        return;
      }
      fbList.NamesAreUnique();
      if fb == currFB.id {
        return;
      }
      currFB := FindOrAddFb(fb);
      fbDirty := true;
    }

    // One turn of the loop of glDeleteFramebuffers. Deleting the bound framebuffer binds framebuffer 0.
    method DeleteFramebuffer(fb: nat)
      requires Valid()
      modifies this`currFB, this`fbDirty, this`error, fbList, fbList.Repr()`next
      ensures Valid() && error == old(error)
      ensures forall x :: x in fbList.ids <==> x in old(fbList.ids) && (x == 0 || x != fb)
      ensures fbList.Repr() == set f | f in old(fbList.Repr()) && (f.id == 0 || f.id != fb)
      ensures currFB.id == if fb == old(currFB.id) then 0 else old(currFB.id)
    {
      hide IdList.Valid, AllAttached;
      fbList.NamesAreUnique();
      if fb == 0 {
        return;
      }
      var node := fbList.Find(fb);
      if node == null {
        return;
      }
      if currFB == node {
        BindDefault();
      }
      fbList.NamesAreUnique();
      ghost var data0, names0 := Attached(), Names();
      var _ := fbList.Remove(fb);
      StillAttached(data0, names0, Attached(), Names());
    }

    // The binding of framebuffer 0, which is always there.
    method BindDefault()
      requires Valid()
      modifies this`currFB, this`fbDirty, this`error, fbList, fbList.Repr()`next
      ensures Valid() && error == old(error) && currFB.id == 0
      ensures fbList.Repr() == old(fbList.Repr()) && forall x :: x in fbList.ids <==> x in old(fbList.ids)
    {
      hide IdList.Valid, AllAttached;
      assert fbList.ids[0] in fbList.ids;
      BindFramebuffer(GL_FRAMEBUFFER, 0);
    }

    method DeleteFramebuffers(n: int, pfb: seq<nat>)
      requires Valid() && n <= |pfb|
      modifies this`currFB, this`fbDirty, this`error, fbList, fbList.Repr()`next
      ensures Valid() && error == if n < 0 && old(error) == 0 then GL_INVALID_VALUE else old(error)
      ensures var deleted := if n < 0 then [] else pfb[..n];
              && (forall x :: x in fbList.ids <==> x in old(fbList.ids) && (x == 0 || x !in deleted))
              && fbList.Repr() == (set f | f in old(fbList.Repr()) && (f.id == 0 || f.id !in deleted))
              && currFB.id == (if old(currFB.id) in deleted then 0 else old(currFB.id))
      ensures fbDirty == (old(fbDirty) || n >= 0)
    {
      hide IdList.Valid, AllAttached;
      if n < 0 {
        SetError(GL_INVALID_VALUE);
        return;
      }
      var i := 0;
      while i < n
        invariant 0 <= i <= n && Valid() && error == old(error)
        invariant forall x :: x in fbList.ids <==> x in old(fbList.ids) && (x == 0 || x !in pfb[..i])
        invariant fbList.Repr() == set f | f in old(fbList.Repr()) && (f.id == 0 || f.id !in pfb[..i])
        invariant currFB.id == if old(currFB.id) in pfb[..i] then 0 else old(currFB.id)
      {
        assert pfb[..i + 1] == pfb[..i] + [pfb[i]];
        DeleteFramebuffer(pfb[i]);
        i := i + 1;
      }
      fbDirty := true;
    }

    /** The error that an attachment is refused with, or 0. */
    ghost function Refusal(target: nat, attach: nat, rbtarget: nat, rb: nat): nat
      reads rbList, rbList.nodes
    {
      if target != GL_FRAMEBUFFER || (rbtarget != GL_RENDERBUFFER && rb != 0) then GL_INVALID_ENUM
      else if rb != 0 && rb !in rbList.ids then GL_INVALID_OPERATION
      else if attach !in {GL_COLOR_ATTACHMENT0, GL_DEPTH_ATTACHMENT, GL_DEPTH_STENCIL_ATTACHMENT} then GL_INVALID_ENUM
      else if rb == 0 || exists r :: r in rbList.Repr() && r.id == rb && Accepts(attach, r.data) then 0
      else GL_INVALID_OPERATION
    }

    method FramebufferRenderbuffer(target: nat, attach: nat, rbtarget: nat, rb: nat)
      requires Valid()
      modifies this`fbDirty, this`error, fbList.Repr()`data
      ensures Valid()
      ensures forall f :: f in fbList.Repr() && f != currFB ==> f.data == old(f.data)
      ensures error == if old(error) != 0 then old(error) else old(Refusal(target, attach, rbtarget, rb))
      ensures old(error) == 0 && error != 0 ==> currFB.data == old(currFB.data)
      ensures old(error) == 0 && error == 0 ==>
                && target == GL_FRAMEBUFFER && (rb == 0 || (rbtarget == GL_RENDERBUFFER && rb in rbList.ids))
                && var a := if attach == GL_COLOR_ATTACHMENT0 then currFB.data.color else currFB.data.depthStencil;
                && a.id == rb && (if rb == 0 then a.surface == null
                                  else a.surface in rbList.Repr() && a.surface.id == rb
                                       && Accepts(attach, a.surface.data))
                && currFB.data == (if attach == GL_COLOR_ATTACHMENT0 then old(currFB.data).(color := a)
                                   else old(currFB.data).(depthStencil := a))
      ensures old(error) == 0 ==> fbDirty == (old(fbDirty) || error == 0)
    {
      hide IdList.Valid, Accepts, AllAttached;
      var code, node := ChooseSurface(target, attach, rbtarget, rb);
      if code != 0 {
        SetError(code);
        return;
      }
      Attach(if attach == GL_COLOR_ATTACHMENT0 then FB_AP_COLOR0 else FB_AP_DEPTH_STENCIL, node);
      fbDirty := true;
    }

    // The tests of glFramebufferRenderbuffer, and the surface to be attached.
    method ChooseSurface(target: nat, attach: nat, rbtarget: nat, rb: nat) returns (code: nat, node: ListNode?<Surface>)
      requires Valid()
      ensures code == Refusal(target, attach, rbtarget, rb)
      ensures node != null ==> node in rbList.Repr() && node.id == rb
      ensures code == 0 ==> (rb == 0 <==> node == null) && (rb != 0 ==> rb in rbList.ids)
      ensures code == 0 && rb != 0 ==> Accepts(attach, node.data)
    {
      hide IdList.Valid, AllAttached, Accepts, AttachError;
      rbList.NamesAreUnique();
      node := null;
      if target != GL_FRAMEBUFFER || (rbtarget != GL_RENDERBUFFER && rb != 0) {
        return GL_INVALID_ENUM, null;
      }
      node := rbList.Find(rb);
      if rb != 0 && node == null {
        return GL_INVALID_OPERATION, null;
      }
      if attach != GL_COLOR_ATTACHMENT0 && attach != GL_DEPTH_ATTACHMENT && attach != GL_DEPTH_STENCIL_ATTACHMENT {
        return GL_INVALID_ENUM, node;
      }
      if node != null {
        AcceptedFormats(attach, node.data);
        if AttachError(attach, node.data) != 0 {
          return AttachError(attach, node.data), node;
        }
      }
      code := 0;
    }

    // The assignments to the attachment point of the bound framebuffer.
    method Attach(pos: nat, node: ListNode?<Surface>)
      requires Valid() && (node == null || node in rbList.Repr()) && pos < 2
      modifies currFB`data
      ensures Valid()
      ensures var a := if node == null then DETACHED else AttInfo(node.id, node);
              currFB.data == if pos == FB_AP_COLOR0 then old(currFB.data).(color := a)
                             else old(currFB.data).(depthStencil := a)
    {
      hide IdList.Valid, AllAttached;
      ghost var data0, names0 := Attached(), Names();
      var a := AttInfo(if node != null then node.id else 0, node);
      OneAttached(data0, names0, currFB, a);
      if pos == FB_AP_COLOR0 {
        fbList.SetData(currFB, currFB.data.(color := a));
      } else {
        fbList.SetData(currFB, currFB.data.(depthStencil := a));
      }
      assert Names() == names0 && Attached() == data0[currFB := currFB.data];
    }

    /** fb_status of the bound framebuffer. */
    method Status() returns (r: nat)
      requires Valid()
      ensures var c, z := currFB.data.color.surface, currFB.data.depthStencil.surface;
              && (r == GL_FRAMEBUFFER_INCOMPLETE_MISSING_ATTACHMENT <==> c == null && z == null)
              && (r == GL_FRAMEBUFFER_COMPLETE
                  <==> && (c != null || z != null) && c != z
                       && (c != null ==> HasStorage(c.data)) && (z != null ==> HasStorage(z.data))
                       && (c != null && z != null ==> c.data.width == z.data.width && c.data.height == z.data.height))
              && (r == GL_FRAMEBUFFER_INCOMPLETE_DIMENSIONS
                  <==> && c != null && z != null && HasStorage(c.data) && HasStorage(z.data)
                       && (c.data.width != z.data.width || c.data.height != z.data.height))
      ensures r == GL_FRAMEBUFFER_COMPLETE ==>
                && var c, z := currFB.data.color.surface, currFB.data.depthStencil.surface;
                && (c != null ==> c.data.picaaddr != 0 && c.data.width != 0 && c.data.height != 0)
                && (z != null ==> z.data.picaaddr != 0 && z.data.width != 0 && z.data.height != 0)
      ensures r in {GL_FRAMEBUFFER_COMPLETE, GL_FRAMEBUFFER_INCOMPLETE_ATTACHMENT,
                    GL_FRAMEBUFFER_INCOMPLETE_MISSING_ATTACHMENT, GL_FRAMEBUFFER_INCOMPLETE_DIMENSIONS}
    {
      var points := [currFB.data.color.surface, currFB.data.depthStencil.surface];
      if points[0] == null && points[1] == null {
        return GL_FRAMEBUFFER_INCOMPLETE_MISSING_ATTACHMENT;
      }
      var w, h := 0, 0;
      for i := 0 to 2
        invariant i == 0 || (i == 1 && points[0] == null) ==> w == 0
        invariant i > 0 && points[0] != null ==>
                    HasStorage(points[0].data) && w == points[0].data.width && h == points[0].data.height
        invariant i == 2 && points[1] != null ==> HasStorage(points[1].data)
        invariant i == 2 && points[0] != null && points[1] != null ==>
                    w == points[1].data.width && h == points[1].data.height
      {
        var surface := points[i];
        if surface != null {
          if surface.data.picaaddr == 0 || surface.data.width == 0 || surface.data.height == 0 {
            return GL_FRAMEBUFFER_INCOMPLETE_ATTACHMENT;
          }
          if w == 0 {
            w, h := surface.data.width, surface.data.height;
          } else if w != surface.data.width || h != surface.data.height {
            return GL_FRAMEBUFFER_INCOMPLETE_DIMENSIONS;
          }
        }
      }
      if points[0] == points[1] {
        return GL_FRAMEBUFFER_INCOMPLETE_ATTACHMENT;
      }
      return GL_FRAMEBUFFER_COMPLETE;
    }

    /** What glRenderbufferStorage leaves: the bound renderbuffer has some surface, which may be any. */
    method Store(surface: Surface)
      requires Valid()
      modifies rbList.Repr()`data
      ensures Valid()
      ensures forall r :: r in rbList.Repr() ==> r.data == if r == currRB then surface else old(r.data)
    {
      hide IdList.Valid, AllAttached;
      ghost var names0 := Names();
      if currRB != null {
        rbList.SetData(currRB, surface);
      }
      assert Names() == names0;
    }

    /** Any call, with any arguments. */
    method Perform(c: FbCall)
      requires Valid()
      modifies this, fbList, rbList, fbList.Repr(), rbList.Repr()
      ensures Valid()
      ensures fresh(fbList.Repr() - old(fbList.Repr())) && fresh(rbList.Repr() - old(rbList.Repr()))
    {
      hide Valid, SmallestUnused, AttachError;
      match c {
        case BindRb(target, rb) => BindRenderbuffer(target, rb);
        case DeleteRbs(names) => DeleteRenderbuffers(|names|, names);
        case GenRbs(n) =>
          var out := new nat[n];
          GenRenderbuffers(n, out);
        case BindFb(target, fb) => BindFramebuffer(target, fb);
        case DeleteFbs(names) => DeleteFramebuffers(|names|, names);
        case GenFbs(n) =>
          var out := new nat[n];
          GenFramebuffers(n, out);
        case AttachRb(target, attach, rbtarget, rb) => FramebufferRenderbuffer(target, attach, rbtarget, rb);
        case StoreRb(surface) => Store(surface);
      }
    }

    /** The invariant holds after any run of calls, in any order, with any arguments. */
    method Run(calls: seq<FbCall>)
      requires Valid()
      modifies this, fbList, rbList, fbList.Repr(), rbList.Repr()
      ensures Valid()
      ensures fresh(fbList.Repr() - old(fbList.Repr())) && fresh(rbList.Repr() - old(rbList.Repr()))
    {
      hide Valid;
      for i := 0 to |calls|
        invariant Valid()
        invariant fresh(fbList.Repr() - old(fbList.Repr())) && fresh(rbList.Repr() - old(rbList.Repr()))
      {
        Perform(calls[i]);
      }
    }

    /** Binds a renderbuffer, and gives it a surface. */
    method BindAndStore(rb: nat, surface: Surface)
      requires Valid() && rb != 0
      modifies this, rbList, rbList.Repr()
      ensures Valid() && error == old(error) && currFB == old(currFB)
      ensures currRB in rbList.Repr() && currRB.id == rb && currRB.data == surface
      ensures old(rbList.Repr()) <= rbList.Repr() && fresh(rbList.Repr() - old(rbList.Repr()))
      ensures forall r :: r in old(rbList.Repr()) && r != currRB ==> r.data == old(r.data)
    {
      hide IdList.Valid, AllAttached;
      BindRenderbuffer(GL_RENDERBUFFER, rb);
      Store(surface);
    }

    /** A renderbuffer of a format that the point takes is not refused. */
    lemma NotRefused(attach: nat, r: RbNode)
      requires rbList.Valid() && r in rbList.Repr() && Accepts(attach, r.data)
      ensures Refusal(GL_FRAMEBUFFER, attach, GL_RENDERBUFFER, r.id) == 0
    {
      rbList.NamesAreUnique();
    }

    /** Deletes a renderbuffer while another framebuffer than the one it is attached to may be bound. */
    method DeleteBehindItsBack(rb: nat, fb: nat)
      requires Valid()
      modifies this, fbList, fbList.Repr()`next, fbList.Repr()`data, rbList, rbList.Repr()`next
      ensures Valid() && forall f :: f in old(fbList.Repr()) ==> f.data == WithoutNames(old(f.data), [rb])
    {
      hide IdList.Valid, AllAttached, WithoutNames;
      ghost var data0 := Attached();
      BindFramebuffer(GL_FRAMEBUFFER, fb);
      assert forall f :: f in data0 ==> f in Attached() && Attached()[f] == data0[f];
      ghost var data := Attached();
      DeleteRenderbuffers(1, [rb]);
      assert [rb][..1] == [rb];
      assert forall f :: f in data ==> f in Attached() && Attached()[f] == WithoutNames(data[f], [rb]);
      assert forall f :: f in data0 ==> f in Attached() && f.data == Attached()[f];
    }

    /** What is attached to the bound framebuffer goes by the name recorded with it. */
    lemma ColorByName()
      requires Valid()
      ensures currFB.data.color.surface != null ==> currFB.data.color.surface.id == currFB.data.color.id
    {
      hide IdList.Valid;
      assert currFB in Attached();
    }

    lemma OneOfAName(r: RbNode, q: RbNode)
      requires rbList.Valid() && r in rbList.Repr() && q in rbList.Repr() && r.id == q.id
      ensures r == q
    {
      rbList.NamesAreUnique();
    }

    /** Binds a renderbuffer, gives it a surface of a format that the point takes, and attaches it there. */
    method AttachStored(attach: nat, rb: nat, surface: Surface) returns (attached: AttInfo)
      requires Valid() && error == 0 && rb != 0 && Accepts(attach, surface)
      modifies this, rbList, rbList.Repr(), fbList.Repr()`data
      ensures Valid() && error == 0 && currFB == old(currFB)
      ensures attached.id == rb && attached.surface == currRB && currRB != null && currRB.id == rb
      ensures currRB in rbList.Repr() && currRB.data == surface
      ensures currFB.data == if attach == GL_COLOR_ATTACHMENT0 then old(currFB.data).(color := attached)
                             else old(currFB.data).(depthStencil := attached)
      ensures forall r :: r in old(rbList.Repr()) && r != currRB ==> r.data == old(r.data)
      ensures old(rbList.Repr()) <= rbList.Repr() && fresh(rbList.Repr() - old(rbList.Repr()))
    {
      hide IdList.Valid, AllAttached, Accepts;
      BindAndStore(rb, surface);
      NotRefused(attach, currRB);
      FramebufferRenderbuffer(GL_FRAMEBUFFER, attach, GL_RENDERBUFFER, rb);
      attached := if attach == GL_COLOR_ATTACHMENT0 then currFB.data.color else currFB.data.depthStencil;
      OneOfAName(attached.surface, currRB);
    }
  }

  /**
   From a new manager: a color and a depth buffer with storage are attached to framebuffer 0, in either format that its
   point takes. It is complete when they have the same size, and otherwise it is reported why it is not.
   */
  method FramebufferIsComplete(color: nat, depth: nat, attach: nat, c: Surface, d: Surface) returns (status: nat)
    requires color != 0 && depth != 0 && color != depth
    requires c.picaaddr != 0 && c.width != 0 && c.height != 0 && d.picaaddr != 0 && d.width != 0 && d.height != 0
    requires attach != GL_COLOR_ATTACHMENT0 && Accepts(GL_COLOR_ATTACHMENT0, c) && Accepts(attach, d)
    ensures status == if c.width == d.width && c.height == d.height then GL_FRAMEBUFFER_COMPLETE
                      else GL_FRAMEBUFFER_INCOMPLETE_DIMENSIONS
  {
    hide IdList.Valid, Accepts, AllAttached;
    var m := new FbManager();
    var first := m.AttachStored(GL_COLOR_ATTACHMENT0, color, c);
    var second := m.AttachStored(attach, depth, d);
    m.ColorByName();
    assert m.currFB.data == Attachments(first, second);
    status := m.Status();
  }

  /**
   From a new manager: a renderbuffer is attached to framebuffer 0, another framebuffer is bound, and the renderbuffer
   deleted. Framebuffer 0 first refers to it by its name, and then to nothing.
   */
  method AttachmentComesAndGoes(rb: nat, fb: nat, surface: Surface) returns (attached: AttInfo, after: AttInfo)
    requires rb != 0 && fb != 0 && Accepts(GL_COLOR_ATTACHMENT0, surface)
    ensures attached.id == rb && attached.surface != null && attached.surface.id == rb && after == DETACHED
  {
    hide IdList.Valid, Accepts, AllAttached;
    var m := new FbManager();
    var frame := m.currFB;
    attached := m.AttachStored(GL_COLOR_ATTACHMENT0, rb, surface);
    assert frame.data.color == attached;
    m.DeleteBehindItsBack(rb, fb);
    after := frame.data.color;
  }
}
