/** The linked list sorted by id, list.c: what its four operations do to the ids, and the operations on the heap. */
module SortedList {
  import opened Bytes

  // ----- on the ids alone

  predicate Sorted(ids: seq<u16>)
  {
    forall i, j :: 0 <= i < j < |ids| ==> ids[i] <= ids[j]
  }

  predicate StrictlySorted(ids: seq<u16>)
  {
    forall i, j :: 0 <= i < j < |ids| ==> ids[i] < ids[j]
  }

  /** How many leading ids are below x. */
  function Below(ids: seq<u16>, x: u16): (k: nat)
    ensures k <= |ids| && (forall i :: 0 <= i < k ==> ids[i] < x) && (k < |ids| ==> ids[k] >= x)
  {
    if ids == [] || ids[0] >= x then 0 else 1 + Below(ids[1..], x)
  }

  /** Where a node is added: behind a head that has the same id, and otherwise in front of the first id that is not smaller. */
  function Place(ids: seq<u16>, x: u16): (k: nat)
    ensures k <= |ids|
  {
    if ids == [] || ids[0] > x then 0 else 1 + Below(ids[1..], x)
  }

  function Inserted(ids: seq<u16>, x: u16): (r: seq<u16>)
  {
    var k := Place(ids, x);
    ids[..k] + [x] + ids[k..]
  }

  /** The list stays sorted, strictly if the id is new, and gains exactly this id. */
  lemma InsertedIsSorted(ids: seq<u16>, x: u16)
    requires Sorted(ids)
    ensures Sorted(Inserted(ids, x)) && (StrictlySorted(ids) && x !in ids ==> StrictlySorted(Inserted(ids, x)))
    ensures multiset(Inserted(ids, x)) == multiset(ids) + multiset{x}
  {
    var k := Place(ids, x);
    assert forall i :: 0 <= i < k ==> ids[i] <= x;
    assert forall i :: k <= i < |ids| ==> x <= ids[i];
    assert multiset(ids) == multiset(ids[..k] + ids[k..]) by { assert ids == ids[..k] + ids[k..]; }
    hide Place;
    InsertedAt(ids, k, x);
  }

  lemma InsertedAt(ids: seq<u16>, k: nat, x: u16)
    requires k <= |ids| && Sorted(ids)
    requires (forall i :: 0 <= i < k ==> ids[i] <= x) && (forall i :: k <= i < |ids| ==> x <= ids[i])
    ensures var r := ids[..k] + [x] + ids[k..];
            Sorted(r) && (StrictlySorted(ids) && x !in ids ==> StrictlySorted(r))
  {
    var r := ids[..k] + [x] + ids[k..];
    assert forall i :: 0 <= i < k ==> r[i] == ids[i];
    assert r[k] == x;
    assert forall i :: k < i < |r| ==> r[i] == ids[i - 1];
  }

  /** Where the early-stopping search ends: at the id exactly when it occurs. */
  lemma BelowFinds(ids: seq<u16>, x: u16)
    requires Sorted(ids)
    ensures Below(ids, x) < |ids| && ids[Below(ids, x)] == x <==> x in ids
  {}

  predicate Unused(ids: seq<u16>, n: nat)
  {
    n < 65536 && n !in ids
  }

  /** A 16-bit number that was counted up to 65536 is 0. */
  function Wrapped(n: nat): (id: u16)
    requires n <= 65536
    ensures n < 65536 ==> id == n
  {
    if n == 65536 then 0 else n
  }

  /** How many leading ids are 0, 1, 2 and so on. */
  function Run(ids: seq<u16>, from: nat): (n: nat)
    ensures n <= |ids| && (forall i :: 0 <= i < n ==> ids[i] == from + i) && (n < |ids| ==> ids[n] != from + n)
  {
    if ids == [] || ids[0] != from then 0 else 1 + Run(ids[1..], from + 1)
  }

  /** The id after that run is the least unused one, unless all ids are used. */
  lemma RunIsLeastUnused(ids: seq<u16>)
    requires StrictlySorted(ids)
    ensures var n := Run(ids, 0);
            && (forall k :: 0 <= k < n ==> !Unused(ids, k))
            && (n < 65536 ==> Unused(ids, n))
            && (n >= 65536 ==> n == 65536 == |ids|)
  {
    var n := Run(ids, 0);
    forall k | 0 <= k < n
      ensures !Unused(ids, k)
    {
      assert ids[k] == k;
    }
    if ids != [] {
      AtLeastIndex(ids, |ids| - 1);
    }
    if n < |ids| {
      AtLeastIndex(ids, n);
    }
  }

  lemma {:induction false} AtLeastIndex(ids: seq<u16>, i: nat)
    requires StrictlySorted(ids) && i < |ids|
    ensures ids[i] >= i
  {
    if i > 0 {
      AtLeastIndex(ids, i - 1);
    }
  }

  // ----- on the heap

  class Node {
    const id: u16
    var next: Node?

    constructor (id: u16)
      ensures this.id == id && next == null
    {
      this.id, next := id, null;
    }
  }

  ghost function After(ns: seq<Node>, i: nat): (n: Node?)
  {
    if i + 1 < |ns| then ns[i + 1] else null
  }

  /** The nodes ns, in this order and without repetition, are the list that starts at head. */
  ghost predicate IsList(head: Node?, ns: seq<Node>)
    reads set n | n in ns
  {
    && head == (if ns == [] then null else ns[0])
    && (forall i :: 0 <= i < |ns| ==> ns[i].next == After(ns, i))
    && (forall i, j :: 0 <= i < j < |ns| ==> ns[i] != ns[j])
  }

  function Ids(ns: seq<Node>): (ids: seq<u16>)
    ensures |ids| == |ns| && forall i :: 0 <= i < |ns| ==> ids[i] == ns[i].id
  {
    seq(|ns|, i requires 0 <= i < |ns| => ns[i].id)
  }

  /** A list is acyclic: from the i-th node the end is |ns| - i steps away. Two descriptions of one list agree. */
  lemma {:induction false} ListIsUnique(head: Node?, ns: seq<Node>, ms: seq<Node>, k: nat)
    requires IsList(head, ns) && IsList(head, ms) && k <= |ns| && k <= |ms|
    ensures ns[..k] == ms[..k] && (k == |ns| <==> k == |ms|)
  {
    if k > 0 {
      ListIsUnique(head, ns, ms, k - 1);
      if k > 1 {
        assert ns[k - 2] == ns[..k - 1][k - 2] == ms[..k - 1][k - 2] == ms[k - 2];
        assert ns[k - 2].next == ns[k - 1] && ms[k - 2].next == ms[k - 1];
      }
      assert ns[k - 1] == ms[k - 1];
      assert ns[k - 1].next == (if k < |ns| then ns[k] else null);
      assert ms[k - 1].next == (if k < |ms| then ms[k] else null);
    }
  }

  // ----- the list as a map

  /** The node with an id, or null. */
  function At(ns: seq<Node>, id: u16): (n: Node?)
    ensures n != null ==> n in ns && n.id == id
  {
    var k := Below(Ids(ns), id);
    if k < |ns| && ns[k].id == id then ns[k] else null
  }

  lemma AtIs(ns: seq<Node>, id: u16, j: nat)
    requires StrictlySorted(Ids(ns)) && j < |ns| && ns[j].id == id
    ensures At(ns, id) == ns[j]
  {
    var ids, k := Ids(ns), Below(Ids(ns), id);
    assert ids[j] == id;
    assert !(j < k) && !(k < j);
  }

  lemma AtNone(ns: seq<Node>, id: u16)
    requires forall j :: 0 <= j < |ns| ==> ns[j].id != id
    ensures At(ns, id) == null
  {
    var k := Below(Ids(ns), id);
    assert k < |ns| ==> Ids(ns)[k] == ns[k].id;
  }

  /** Adding a node with a new id adds it to the map and changes nothing else. */
  lemma AddLaw(ns: seq<Node>, node: Node, x: u16)
    requires StrictlySorted(Ids(ns)) && node.id !in Ids(ns)
    ensures var ns' := With(ns, Place(Ids(ns), node.id), node);
            StrictlySorted(Ids(ns')) && At(ns', x) == if x == node.id then node else At(ns, x)
  {
    var k := Place(Ids(ns), node.id);
    IdsInserted(ns, node, k);
    assert Sorted(Ids(ns));
    InsertedIsSorted(Ids(ns), node.id);
    hide Place, Inserted, Below, At, StrictlySorted, Sorted;
    AtWith(ns, k, node, x);
  }

  lemma AtWith(ns: seq<Node>, k: nat, node: Node, x: u16)
    requires k <= |ns| && StrictlySorted(Ids(ns)) && StrictlySorted(Ids(With(ns, k, node)))
    ensures At(With(ns, k, node), x) == if x == node.id then node else At(ns, x)
  {
    if x == node.id {
      hide *;
      WithIndex(ns, k, node, k);
      AtIs(With(ns, k, node), x, k);
    } else if j :| 0 <= j < |ns| && ns[j].id == x {
      hide *;
      WithIndex(ns, k, node, j);
      AtIs(ns, x, j);
      AtIs(With(ns, k, node), x, if j < k then j else j + 1);
    } else {
      hide *;
      WithNone(ns, k, node, x);
      AtNone(ns, x);
      AtNone(With(ns, k, node), x);
    }
  }

  /** Where the nodes are in the longer list. */
  lemma WithIndex(ns: seq<Node>, k: nat, node: Node, j: nat)
    requires k <= |ns|
    ensures |With(ns, k, node)| == |ns| + 1 && With(ns, k, node)[k] == node
    ensures j < |ns| ==> With(ns, k, node)[if j < k then j else j + 1] == ns[j]
  {}

  lemma WithNone(ns: seq<Node>, k: nat, node: Node, x: u16)
    requires k <= |ns| && node.id != x && forall j :: 0 <= j < |ns| ==> ns[j].id != x
    ensures forall j :: 0 <= j < |With(ns, k, node)| ==> With(ns, k, node)[j].id != x
  {
    var ns' := With(ns, k, node);
    hide With;
    forall j | 0 <= j < |ns'|
      ensures ns'[j].id != x
    {
      assert j != k ==> ns'[j] == ns[if j < k then j else j - 1];
    }
  }

  /** Removing a node removes its id from the map and changes nothing else. */
  lemma RemoveLaw(ns: seq<Node>, k: nat, x: u16)
    requires StrictlySorted(Ids(ns)) && k < |ns|
    ensures StrictlySorted(Ids(Without(ns, k))) && At(Without(ns, k), x) == if x == ns[k].id then null else At(ns, x)
  {
    WithoutIsSorted(ns, k);
    hide *;
    var ns' := Without(ns, k);
    if x == ns[k].id {
      AtNone(ns', x);
    } else if j :| 0 <= j < |ns| && ns[j].id == x {
      AtIs(ns, x, j);
      AtIs(ns', x, if j < k then j else j - 1);
    } else {
      AtNone(ns, x);
      AtNone(ns', x);
    }
  }

  lemma WithoutIsSorted(ns: seq<Node>, k: nat)
    requires StrictlySorted(Ids(ns)) && k < |ns|
    ensures var ns' := Without(ns, k);
            && StrictlySorted(Ids(ns'))
            && (forall j :: 0 <= j < |ns'| ==> ns'[j] == ns[if j < k then j else j + 1] && ns'[j].id != ns[k].id)
  {
    var ids, ns' := Ids(ns), Without(ns, k);
    hide Without, Ids;
    assert forall j :: 0 <= j < |ns'| ==> ns'[j] == ns[if j < k then j else j + 1];
    assert forall j :: 0 <= j < |ns'| ==> Ids(ns')[j] == ids[if j < k then j else j + 1];
    assert forall j :: 0 <= j < |ns| && j != k ==> ids[j] != ids[k];
  }

  /** xiny_lwm2m_list_add. */
  method Add(head: Node?, node: Node, ghost ns: seq<Node>) returns (h: Node?, ghost ns': seq<Node>)
    requires IsList(head, ns) && node !in ns && node.next == null
    modifies node`next, (set n | n in ns)`next
    ensures ns' == With(ns, Place(Ids(ns), node.id), node) && IsList(h, ns') && Ids(ns') == Inserted(Ids(ns), node.id)
  {
    HeadOf(head, ns);
    PlaceInFront(Ids(ns), node.id);
    ghost var k := Place(Ids(ns), node.id);
    ns' := With(ns, k, node);
    IdsInserted(ns, node, k);
    hide *;
    if head == null {
      OnlyNode(node, ns);
      h := node;
    } else if head.id > node.id {
      LinkFront(head, node, ns);
      h := node;
    } else {
      var target, i := StopAt(head, node.id, ns);
      LinkAfter(head, target, node, ns, i);
      h := head;
    }
  }

  lemma HeadOf(head: Node?, ns: seq<Node>)
    requires IsList(head, ns)
    ensures head == null <==> ns == []
    ensures head != null ==> head == ns[0] && Ids(ns)[0] == head.id
  {}

  lemma PlaceInFront(ids: seq<u16>, x: u16)
    ensures (ids == [] || ids[0] > x) ==> Place(ids, x) == 0
  {}

  lemma OnlyNode(node: Node, ns: seq<Node>)
    requires ns == [] && node.next == null
    ensures IsList(node, With(ns, 0, node))
  {}

  /** The search of xiny_lwm2m_list_add, when the head stays: the node goes behind the target. */
  method StopAt(head: Node, id: u16, ghost ns: seq<Node>) returns (target: Node, ghost i: nat)
    requires IsList(head, ns) && head.id <= id
    ensures i < |ns| && target == ns[i] && Place(Ids(ns), id) == i + 1
  {
    ghost var ids := Ids(ns);
    target, i := head, 0;
    NextIs(head, ns, 0);
    while target.next != null && target.next.id < id
      invariant 0 <= i < |ns| && target == ns[i] && target.next == (if i + 1 < |ns| then ns[i + 1] else null)
      invariant Below(ids[1..], id) == i + Below(ids[i + 1..], id)
      decreases |ns| - i
    {
      BelowStep(ids, i + 1, id);
      NextIs(head, ns, i + 1);
      hide *;
      target := target.next;
      i := i + 1;
    }
    BelowStops(ids, i + 1, id);
  }

  lemma BelowStep(ids: seq<u16>, i: nat, x: u16)
    requires i < |ids| && ids[i] < x
    ensures Below(ids[i..], x) == 1 + Below(ids[i + 1..], x)
  {
    assert ids[i..][1..] == ids[i + 1..];
  }

  lemma BelowStops(ids: seq<u16>, i: nat, x: u16)
    requires i <= |ids| && (i < |ids| ==> ids[i] >= x)
    ensures Below(ids[i..], x) == 0
  {}

  /** The assignment that puts a node in front. */
  method LinkFront(head: Node, node: Node, ghost ns: seq<Node>)
    requires IsList(head, ns) && node !in ns
    modifies node`next
    ensures IsList(node, With(ns, 0, node))
  {
    node.next := head;
    ghost var r := With(ns, 0, node);
    forall j | 0 <= j < |r|
      ensures r[j].next == After(r, j)
    {
      assert j > 0 ==> r[j] == ns[j - 1] && r[j] != node;
    }
  }

  ghost function With(ns: seq<Node>, k: nat, node: Node): (r: seq<Node>)
    requires k <= |ns|
    ensures |r| == |ns| + 1 && r[k] == node
    ensures (forall j :: 0 <= j < k ==> r[j] == ns[j]) && (forall j :: k < j < |r| ==> r[j] == ns[j - 1])
  {
    ns[..k] + [node] + ns[k..]
  }

  ghost function Without(ns: seq<Node>, k: nat): (r: seq<Node>)
    requires k < |ns|
    ensures |r| == |ns| - 1
    ensures (forall j :: 0 <= j < k ==> r[j] == ns[j]) && (forall j :: k <= j < |r| ==> r[j] == ns[j + 1])
  {
    ns[..k] + ns[k + 1..]
  }

  /** The two assignments that put a node behind the i-th one. */
  method LinkAfter(head: Node?, target: Node, node: Node, ghost ns: seq<Node>, ghost i: nat)
    requires IsList(head, ns) && node !in ns && i < |ns| && target == ns[i]
    modifies node`next, target`next
    ensures IsList(head, With(ns, i + 1, node))
  {
    assert forall j :: 0 <= j < |ns| && j != i ==> ns[j] != target;
    node.next := target.next;
    target.next := node;
    Linked(head, node, ns, i);
  }

  lemma Linked(head: Node?, node: Node, ns: seq<Node>, i: nat)
    requires i < |ns| && head == ns[0] && node !in ns && forall j, l :: 0 <= j < l < |ns| ==> ns[j] != ns[l]
    requires forall j :: 0 <= j < |ns| && j != i ==> ns[j].next == After(ns, j)
    requires ns[i].next == node && node.next == After(ns, i)
    ensures IsList(head, With(ns, i + 1, node))
  {
    hide With;
    var r := With(ns, i + 1, node);
    forall j | 0 <= j < |r|
      ensures r[j].next == After(r, j)
    {
      if j > i + 1 {
        assert r[j] == ns[j - 1];
      }
    }
    forall j, l | 0 <= j < l < |r|
      ensures r[j] != r[l]
    {
      assert j != i + 1 ==> r[j] == ns[if j <= i then j else j - 1];
      assert l != i + 1 ==> r[l] == ns[if l <= i then l else l - 1];
    }
  }

  /** The assignment that takes out the node behind the i-th one. */
  method UnlinkAfter(head: Node?, target: Node, ghost ns: seq<Node>, ghost i: nat) returns (node: Node)
    requires IsList(head, ns) && i + 1 < |ns| && target == ns[i]
    modifies target`next
    ensures node == ns[i + 1] && IsList(head, Without(ns, i + 1))
  {
    hide Without;
    ghost var r := Without(ns, i + 1);
    assert target.next == After(ns, i) && ns[i + 1].next == After(ns, i + 1);
    node := target.next;
    target.next := target.next.next;
    forall j | 0 <= j < |r|
      ensures r[j].next == After(r, j)
    {
      if j == i {
        assert r[j] == target;
      } else {
        assert r[j] == ns[if j < i then j else j + 1] != target;
      }
    }
  }

  lemma IdsInserted(ns: seq<Node>, node: Node, k: nat)
    requires k == Place(Ids(ns), node.id)
    ensures Ids(With(ns, k, node)) == Inserted(Ids(ns), node.id)
  {
    hide Place;
  }

  /** xiny_lwm2m_list_find: on a sorted list the search that stops early agrees with membership. */
  method Find(head: Node?, id: u16, ghost ns: seq<Node>) returns (node: Node?)
    requires IsList(head, ns) && Sorted(Ids(ns))
    ensures node == At(ns, id) && (node != null <==> id in Ids(ns))
  {
    ghost var ids := Ids(ns);
    BelowFinds(ids, id);
    var target := head;
    ghost var i := 0;
    while target != null && target.id < id
      invariant 0 <= i <= |ns| && target == (if i < |ns| then ns[i] else null)
      invariant Below(ids, id) == i + Below(ids[i..], id)
      decreases |ns| - i
    {
      assert ids[i..][1..] == ids[i + 1..];
      target := target.next;
      i := i + 1;
    }
    assert i == Below(ids, id);
    if target != null && target.id == id {
      return target;
    }
    return null;
  }

  /** xiny_lwm2m_list_remove: the first node with the id, if there is one, is unlinked and returned. */
  method Remove(head: Node?, id: u16, ghost ns: seq<Node>) returns (h: Node?, node: Node?, ghost ns': seq<Node>)
    requires IsList(head, ns) && Sorted(Ids(ns))
    modifies (set n | n in ns)`next
    ensures var ids := Ids(ns); var k := Below(ids, id);
            && (node != null <==> id in ids)
            && (node != null ==> k < |ns| && node == ns[k] && node.id == id && ns' == Without(ns, k))
            && (node == null ==> ns' == ns)
            && IsList(h, ns')
  {
    ghost var ids := Ids(ns);
    ghost var k := Below(ids, id);
    BelowFinds(ids, id);
    ns' := if k < |ns| && ids[k] == id then Without(ns, k) else ns;
    if head == null {
      return null, null, ns';
    }
    if head.id == id {
      RestIsList(head, ns);
      return head.next, head, ns';
    }
    var target, i := StopBefore(head, id, ns);
    hide Below, Sorted, IsList;
    if target.next != null && target.next.id == id {
      node := UnlinkAfter(head, target, ns, i);
    } else {
      node := null;
    }
    h := head;
  }

  lemma RestIsList(head: Node, ns: seq<Node>)
    requires IsList(head, ns)
    ensures ns != [] && IsList(head.next, Without(ns, 0))
  {
    var r := Without(ns, 0);
    assert ns[0].next == After(ns, 0);
    assert forall j :: 0 <= j < |r| ==> r[j] == ns[j + 1] && r[j].next == After(ns, j + 1) == After(r, j);
  }

  /** The search of xiny_lwm2m_list_remove, when the head is not the node: the node to unlink would be the next one. */
  method StopBefore(head: Node, id: u16, ghost ns: seq<Node>) returns (target: Node, ghost i: nat)
    requires IsList(head, ns) && Sorted(Ids(ns)) && head.id != id
    ensures i < |ns| && target == ns[i] && target.next == After(ns, i)
    ensures var k := Below(Ids(ns), id);
            if i + 1 < |ns| && ns[i + 1].id == id then k == i + 1 else !(k < |ns| && ns[k].id == id)
  {
    ghost var ids := Ids(ns);
    BelowFinds(ids, id);
    target, i := head, 0;
    while target.next != null && target.next.id < id
      invariant 0 <= i < |ns| && target == ns[i] && target.next == After(ns, i)
      invariant i > 0 ==> ids[i] < id
      decreases |ns| - i
    {
      assert ns[i + 1].next == After(ns, i + 1);
      target := target.next;
      i := i + 1;
    }
    ghost var k := Below(ids, id);
    if i + 1 < |ns| && ids[i + 1] == id {
      assert ids[0] <= ids[i + 1];
    }
  }

  /** xiny_lwm2m_list_newId: the least unused id; when all are used the 16-bit number wraps to 0. */
  method NewId(head: Node?, ghost ns: seq<Node>) returns (id: u16)
    requires IsList(head, ns) && StrictlySorted(Ids(ns))
    ensures Unused(Ids(ns), id) <==> exists n :: Unused(Ids(ns), n)
    ensures forall k :: 0 <= k < id ==> !Unused(Ids(ns), k)
    ensures !Unused(Ids(ns), id) ==> id == 0
  {
    ghost var ids := Ids(ns);
    RunIsBounded(ids);
    LeastUnused(ids);
    hide Unused, Run, StrictlySorted, IsList;
    ghost var n := Run(ids, 0);
    id := 0;
    var target := head;
    ghost var i := 0;
    while target != null && id == target.id
      invariant 0 <= i <= n && target == (if i < |ns| then ns[i] else null)
      invariant id == Wrapped(i)
      decreases |ns| - i
    {
      NextIs(head, ns, i);
      assert i < 65536 && ids[i] == i;
      assert i < n;
      id := Wrapped(target.id + 1);
      target := target.next;
      i := i + 1;
    }
    if i < |ns| {
      assert i < 65536;
      assert ids[i] != i;
    }
  }

  lemma NextIs(head: Node?, ns: seq<Node>, i: nat)
    requires IsList(head, ns) && i < |ns|
    ensures ns[i].next == if i + 1 < |ns| then ns[i + 1] else null
  {}

  lemma RunIsBounded(ids: seq<u16>)
    requires StrictlySorted(ids)
    ensures Run(ids, 0) <= |ids| <= 65536
  {
    if ids != [] {
      AtLeastIndex(ids, |ids| - 1);
    }
  }

  lemma LeastUnused(ids: seq<u16>)
    requires StrictlySorted(ids) && Run(ids, 0) <= 65536
    ensures var id := Wrapped(Run(ids, 0));
            && (Unused(ids, id) <==> exists n :: Unused(ids, n))
            && (forall k :: 0 <= k < id ==> !Unused(ids, k))
            && (!Unused(ids, id) ==> id == 0)
  {
    RunIsBounded(ids);
    RunIsLeastUnused(ids);
    var n := Run(ids, 0);
    hide Run, StrictlySorted;
    if n == 65536 {
      hide Unused;
      assert !Unused(ids, 0);
      forall m: nat
        ensures !Unused(ids, m)
      {
        if m >= 65536 {
          TooLarge(ids, m);
        }
      }
    }
  }

  lemma TooLarge(ids: seq<u16>, m: nat)
    requires m >= 65536
    ensures !Unused(ids, m)
  {}
}
