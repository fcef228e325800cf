// The linked list of src/list.c: the nodes carry the links, and the head has a node of its own
// that ends the list.

module IntrusiveLists {
  import opened Sequences

  datatype Option<T> = None | Some(value: T)

  class Node<T> {
    var list: List?<T>
    var next: Node?<T>
    var prev: Node?<T>
    var item: Option<T>
    var freed: bool

    constructor (list: List?<T>, item: Option<T>)
      ensures this.list == list && this.item == item && !freed && next == null && prev == null
    {
      this.list, this.item, freed := list, item, false;
      next, prev := null, null;
    }

    // kfree, which a node must meet only once.
    method Free()
      requires !freed
      modifies this`freed
      ensures freed
    {
      freed := true;
    }
  }

  // The links and the state of a node.
  datatype Links<T> = Links(list: List?<T>, next: Node?<T>, prev: Node?<T>, freed: bool)

  ghost function LinksOf<T>(spine: seq<Node<T>>): (links: seq<Links<T>>)
    reads spine
    ensures |links| == |spine|
  {
    seq(|spine|, i requires 0 <= i < |spine| reads spine =>
      Links(spine[i].list, spine[i].next, spine[i].prev, spine[i].freed))
  }

  // Node number k is in use and has its neighbours on both sides.
  ghost predicate LinkOk<T>(list: List<T>, spine: seq<Node<T>>, links: seq<Links<T>>, k: nat)
    requires k < |spine| == |links|
  {
    links[k] == Links(list, if k + 1 < |spine| then spine[k + 1] else null, if 0 < k then spine[k - 1] else null, false)
  }

  // Nodes of one list that are all different and in use, with links that go both ways.
  ghost predicate LinkedBy<T>(list: List<T>, spine: seq<Node<T>>, links: seq<Links<T>>) {
    |links| == |spine| && Distinct(spine) && forall k: nat | k < |spine| :: LinkOk(list, spine, links, k)
  }

  ghost predicate Linked<T>(list: List<T>, spine: seq<Node<T>>)
    reads spine
  {
    LinkedBy(list, spine, LinksOf(spine))
  }

  ghost function Items<T>(nodes: seq<Node<T>>): seq<Option<T>>
    reads nodes
  {
    seq(|nodes|, i requires 0 <= i < |nodes| reads nodes => nodes[i].item)
  }

  // The links of a list's nodes once u was put in front of node number `at`.
  ghost function LinksWith<T>(links: seq<Links<T>>, at: nat, u: Node<T>): (new': seq<Links<T>>)
    requires at < |links|
    ensures |new'| == |links|
  {
    var right := links[at := links[at].(prev := u)];
    if 0 < at then right[at - 1 := right[at - 1].(next := u)] else right
  }

  lemma LinksOfParts<T>(spine: seq<Node<T>>, at: nat, u: Node<T>)
    requires at < |spine|
    ensures LinksOf(spine[..at] + [u] + spine[at..]) == LinksOf(spine)[..at] + LinksOf([u]) + LinksOf(spine)[at..]
  {
  }

  lemma InOrder<T>(list: List<T>, spine: seq<Node<T>>, links: seq<Links<T>>, at: nat, u: Node<T>, k: nat)
    requires LinkedBy(list, spine, links) && at < |spine| && k <= |spine|
    ensures var now := LinksWith(links, at, u);
      LinkOk(list, spine[..at] + [u] + spine[at..],
             now[..at] + [Links(list, spine[at], links[at].prev, false)] + now[at..], k)
  {
    assert LinkOk(list, spine, links, at);
    if k < at {
      assert LinkOk(list, spine, links, k);
    } else if at < k {
      assert LinkOk(list, spine, links, k - 1);
    }
  }

  lemma PutIn<T>(list: List<T>, spine: seq<Node<T>>, links: seq<Links<T>>, at: nat, u: Node<T>)
    requires LinkedBy(list, spine, links) && at < |spine| && u !in spine
    requires LinksOf([u]) == [Links(list, spine[at], links[at].prev, false)]
    requires LinksOf(spine) == LinksWith(links, at, u)
    ensures Linked(list, spine[..at] + [u] + spine[at..])
  {
    hide LinkOk;
    var new', now := spine[..at] + [u] + spine[at..], LinksWith(links, at, u);
    LinksOfParts(spine, at, u);
    forall k: nat | k < |new'| ensures LinkOk(list, new', LinksOf(new'), k) {
      InOrder(list, spine, links, at, u, k);
    }
    DistinctWith(spine, at, u);
  }

  lemma Neighbours<T>(list: List<T>, spine: seq<Node<T>>, i: nat)
    requires Linked(list, spine) && i < |spine|
    ensures spine[i].prev == if i == 0 then null else spine[i - 1]
    ensures spine[i].next == if i + 1 == |spine| then null else spine[i + 1]
    ensures spine[i].list == list && !spine[i].freed
    ensures forall k | 0 <= k < |spine| && k != i :: spine[k] != spine[i]
  {
    assert LinkOk(list, spine, LinksOf(spine), i);
  }

  // The links of a list's nodes once node number `at` was passed over.
  ghost function LinksWithout<T>(spine: seq<Node<T>>, links: seq<Links<T>>, at: nat): (new': seq<Links<T>>)
    requires at + 1 < |spine| == |links|
    ensures |new'| == |links| - 1
  {
    var right := links[at + 1 := links[at + 1].(prev := links[at].prev)];
    var both := if 0 < at then right[at - 1 := right[at - 1].(next := spine[at + 1])] else right;
    both[..at] + both[at + 1..]
  }

  lemma StillInOrder<T>(list: List<T>, spine: seq<Node<T>>, links: seq<Links<T>>, at: nat, k: nat)
    requires LinkedBy(list, spine, links) && at + 1 < |spine| && k + 1 < |spine|
    ensures LinkOk(list, spine[..at] + spine[at + 1..], LinksWithout(spine, links, at), k)
  {
    assert LinkOk(list, spine, links, at);
    assert LinkOk(list, spine, links, if k < at then k else k + 1);
  }

  lemma TakeOut<T>(list: List<T>, spine: seq<Node<T>>, links: seq<Links<T>>, at: nat)
    requires LinkedBy(list, spine, links) && at + 1 < |spine|
    requires LinksOf(spine[..at] + spine[at + 1..]) == LinksWithout(spine, links, at)
    ensures Linked(list, spine[..at] + spine[at + 1..]) && spine[at] !in spine[..at] + spine[at + 1..]
  {
    var new' := spine[..at] + spine[at + 1..];
    forall k: nat | k < |new'| ensures LinkOk(list, new', LinksOf(new'), k) {
      StillInOrder(list, spine, links, at, k);
    }
  }

  lemma ItemsWithout<T>(nodes: seq<Node<T>>, at: nat)
    requires at < |nodes|
    ensures Items(nodes[..at] + nodes[at + 1..]) == Items(nodes)[..at] + Items(nodes)[at + 1..]
  {
  }

  lemma WithoutBeforeEnd<T>(nodes: seq<Node<T>>, end: Node<T>, at: nat)
    requires at < |nodes|
    ensures nodes[..at] + nodes[at + 1..] + [end] == (nodes + [end])[..at] + (nodes + [end])[at + 1..]
  {
  }

  lemma BeforeEnd<T>(nodes: seq<Node<T>>, end: Node<T>, at: nat, u: Node<T>)
    requires at <= |nodes|
    ensures nodes[..at] + [u] + nodes[at..] + [end] == (nodes + [end])[..at] + [u] + (nodes + [end])[at..]
  {
  }

  lemma ItemsWith<T>(nodes: seq<Node<T>>, at: nat, u: Node<T>)
    requires at <= |nodes|
    ensures Items(nodes[..at] + [u] + nodes[at..]) == Items(nodes)[..at] + [u.item] + Items(nodes)[at..]
  {
  }

  // What an insertion or a removal at a place does to a sequence.
  datatype Edit<T> = Insert(place: nat, val: T, isAfter: bool) | Erase(place: nat)

  function EditOne<T>(s: seq<Option<T>>, edit: Edit<T>): seq<Option<T>> {
    var i := edit.place;
    if i > |s| then s
    else match edit
      case Insert(_, val, false) => s[..i] + [Some(val)] + s[i..]
      case Insert(_, val, true) => if i < |s| then s[..i + 1] + [Some(val)] + s[i + 1..] else s
      case Erase(_) => if i < |s| then s[..i] + s[i + 1..] else s
  }

  function EditAll<T>(s: seq<Option<T>>, edits: seq<Edit<T>>): seq<Option<T>> {
    if edits == [] then s else EditOne(EditAll(s, edits[..|edits| - 1]), edits[|edits| - 1])
  }

  lemma AtEnd<T>(spine: seq<Node<T>>, k: nat)
    requires Distinct(spine) && k < |spine| && spine[k] == spine[|spine| - 1]
    ensures k == |spine| - 1
  {
  }

  class List<T> {
    const realEnd: Node<T>
    var size: nat
    var begin: Node<T>
    var end: Node<T>
    ghost var nodes: seq<Node<T>>

    ghost function Spine(): seq<Node<T>>
      reads this
    {
      nodes + [realEnd]
    }

    ghost predicate Chained()
      reads this, realEnd, nodes
    {
      Linked(this, Spine()) && begin == Spine()[0] && end == realEnd
    }

    ghost predicate Valid()
      reads this, realEnd, nodes
    {
      Chained() && size == |nodes|
    }

    ghost function Contents(): seq<Option<T>>
      reads this, nodes
    {
      Items(nodes)
    }

    // list_init
    constructor ()
      ensures Valid() && nodes == [] && fresh(realEnd)
    {
      var sentinel := new Node<T>(null, None);
      realEnd, begin, end := sentinel, sentinel, sentinel;
      size, nodes := 0, [];
      new;
      realEnd.list := this;
    }

    lemma InUse(i: nat)
      requires Chained() && i <= |nodes|
      ensures (Spine()[i] == end <==> i == |nodes|)
      ensures realEnd !in nodes
    {
      forall k | 0 <= k < |nodes| ensures Spine()[k] == nodes[k] != realEnd {
        assert Spine()[|nodes|] == realEnd;
      }
    }

    // The branch of an insertion behind l.
    method LinkAfter(u: Node<T>, l: Node<T>, ghost i: nat)
      requires Chained() && i < |nodes| && l == nodes[i]
      requires u !in Spine() && u.list == this && !u.freed
      modifies this`nodes, u, nodes, realEnd
      ensures Chained() && nodes == old(nodes)[..i + 1] + [u] + old(nodes)[i + 1..]
      ensures u.item == old(u.item) && Items(old(nodes)) == old(Contents())
    {
      ghost var spine, links := Spine(), LinksOf(Spine());
      assert LinkedBy(this, spine, links);
      hide Linked, LinkedBy;
      Neighbours(this, spine, i);
      Neighbours(this, spine, i + 1);
      InUse(i);
      u.next := l.next;
      if u.next != null {
        l.next.prev := u;
      } else {
        assert false;
      }
      u.prev := l;
      l.next := u;
      assert LinksOf(spine) == LinksWith(links, i + 1, u);
      PutIn(this, spine, links, i + 1, u);
      BeforeEnd(nodes, realEnd, i + 1, u);
      nodes := nodes[..i + 1] + [u] + nodes[i + 1..];
    }

    // The branch of an insertion in front of l, which may be the end.
    method LinkBefore(u: Node<T>, l: Node<T>, ghost i: nat)
      requires Chained() && i <= |nodes| && l == Spine()[i]
      requires u !in Spine() && u.list == this && !u.freed
      modifies this`nodes, this`begin, u, nodes, realEnd
      ensures Chained() && nodes == old(nodes)[..i] + [u] + old(nodes)[i..]
      ensures u.item == old(u.item) && Items(old(nodes)) == old(Contents())
    {
      ghost var spine, links := Spine(), LinksOf(Spine());
      assert LinkedBy(this, spine, links);
      hide Linked, LinkedBy;
      Neighbours(this, spine, i);
      if 0 < i {
        Neighbours(this, spine, i - 1);
      }
      InUse(i);
      u.prev := l.prev;
      if u.prev != null {
        l.prev.next := u;
      } else {
        begin := u;
      }
      u.next := l;
      l.prev := u;
      assert LinksOf(spine) == LinksWith(links, i, u);
      PutIn(this, spine, links, i, u);
      BeforeEnd(nodes, realEnd, i, u);
      nodes := nodes[..i] + [u] + nodes[i..];
    }

    // list_insert_before and list_insert_after, at node number i or, for the first, at the end.
    method Insert(l: Node<T>, val: T, isAfter: bool, room: bool, ghost i: nat) returns (ok: bool)
      requires Valid() && i <= |nodes| && l == Spine()[i]
      modifies this, nodes, realEnd
      ensures Valid() && ok == (room && (isAfter ==> l != end))
      ensures !ok ==> nodes == old(nodes) && Contents() == old(Contents())
      ensures ok ==> var at := if isAfter then i + 1 else i;
        && |nodes| == |old(nodes)| + 1 && fresh(nodes[at])
        && nodes == old(nodes)[..at] + [nodes[at]] + old(nodes)[at..]
        && Contents() == old(Contents())[..at] + [Some(val)] + old(Contents())[at..]
    {
      Neighbours(this, Spine(), i);
      InUse(i);
      if isAfter && l.next == null {
        return false;
      }
      if !room {
        return false;
      }
      hide Linked;
      var u := new Node<T>(l.list, Some(val));
      size := size + 1;
      if isAfter {
        LinkAfter(u, l, i);
      } else {
        LinkBefore(u, l, i);
      }
      ItemsWith(old(nodes), if isAfter then i + 1 else i, u);
      return true;
    }

    // The part of list_erase that changes the links.
    method Unlink(l: Node<T>, ghost i: nat)
      requires Chained() && i < |nodes| && l == nodes[i]
      modifies this`nodes, this`begin, nodes, realEnd
      ensures Chained() && nodes == old(nodes)[..i] + old(nodes)[i + 1..] && l !in Spine()
      ensures Items(old(nodes)) == old(Contents()) && l.next == old(l.next) && l.freed == old(l.freed)
    {
      ghost var spine, links := Spine(), LinksOf(Spine());
      assert LinkedBy(this, spine, links);
      hide Linked, LinkedBy;
      Neighbours(this, spine, i);
      Neighbours(this, spine, i + 1);
      if 0 < i {
        Neighbours(this, spine, i - 1);
      }
      InUse(i);
      if begin == l {
        begin := l.next;
      }
      if l.next != null {
        l.next.prev := l.prev;
      }
      if l.prev != null {
        l.prev.next := l.next;
      }
      assert LinksOf(spine[..i] + spine[i + 1..]) == LinksWithout(spine, links, i);
      TakeOut(this, spine, links, i);
      WithoutBeforeEnd(nodes, realEnd, i);
      nodes := nodes[..i] + nodes[i + 1..];
    }

    // list_erase: what it returns is the node that followed.
    method Erase(l: Node?<T>, ghost i: nat) returns (next: Node?<T>)
      requires Valid() && (l != null && l.list != null ==> i <= |nodes| && l == Spine()[i])
      modifies this, nodes, realEnd
      ensures Valid()
      ensures var erased := l != null && old(l.list) != null && l != old(end);
        && (!erased ==> next == null && nodes == old(nodes) && Contents() == old(Contents()))
        && (erased ==>
              && i < |old(nodes)| && nodes == old(nodes)[..i] + old(nodes)[i + 1..]
              && Contents() == old(Contents())[..i] + old(Contents())[i + 1..]
              && l.freed && l !in Spine() && next == Spine()[i])
    {
      if l == null || l.list == null || l == end {
        return null;
      }
      InUse(i);
      Neighbours(this, Spine(), i);
      Neighbours(this, Spine(), i + 1);
      Unlink(l, i);
      next := l.next;
      size := size - 1;
      l.Free();
      ItemsWithout(old(nodes), i);
      Neighbours(this, Spine(), i);
    }

    // list_destroy: every node is freed, each of them once, and the list is empty again.
    method Destroy()
      requires Valid()
      modifies this, nodes, realEnd
      ensures Valid() && nodes == [] && !realEnd.freed
      ensures forall n | n in old(nodes) :: n.freed
    {
      ghost var spine, links := Spine(), LinksOf(Spine());
      assert LinkedBy(this, spine, links);
      forall j: nat | j < |spine| ensures spine[j].next == links[j].next && spine[j].list == this && !spine[j].freed {
        assert LinkOk(this, spine, links, j);
      }
      InUse(0);
      ghost var k: nat := 0;
      while begin != end
        invariant nodes == old(nodes) && end == realEnd && k <= |nodes|
        invariant begin == spine[k] && size == |nodes| - k
        invariant forall j: nat | j < |spine| :: spine[j].next == links[j].next && spine[j].list == this
        invariant forall j: nat | j < |spine| :: spine[j].freed <==> j < k
        decreases size
      {
        assert LinkOk(this, spine, links, k) && begin == nodes[k];
        var f := begin;
        begin := begin.next;
        size := size - 1;
        f.Free();
        k := k + 1;
      }
      AtEnd(spine, k);
      assert forall n | n in nodes :: n.freed by {
        assert forall j: nat | j < |nodes| :: nodes[j] == spine[j];
      }
      nodes := [];
      end.next, end.prev := null, null;
    }

    // The iterator at a place: list_begin and as many times list_next.
    method Seek(place: nat) returns (iter: Node<T>)
      requires Valid() && place <= |nodes|
      ensures iter == Spine()[place]
    {
      iter := begin;
      var k: nat := 0;
      while k < place
        invariant k <= place && iter == Spine()[k]
      {
        Neighbours(this, Spine(), k);
        iter := iter.next;
        k := k + 1;
      }
    }

    method Do(edit: Edit<T>)
      requires Valid()
      modifies this, nodes, realEnd
      ensures Valid() && Contents() == EditOne(old(Contents()), edit)
      ensures forall i | 0 <= i < |nodes| :: nodes[i] in old(nodes) || fresh(nodes[i])
    {
      if edit.place > size {
        return;
      }
      var iter := Seek(edit.place);
      InUse(edit.place);
      Neighbours(this, Spine(), edit.place);
      match edit {
        case Insert(place, val, isAfter) =>
          var ok := Insert(iter, val, isAfter, true, place);
        case Erase(place) =>
          var next := Erase(iter, place);
      }
    }

    // Every run of insertions and removals does to the list what it does to a sequence.
    method Run(edits: seq<Edit<T>>)
      requires Valid()
      modifies this, nodes, realEnd
      ensures Valid() && Contents() == EditAll(old(Contents()), edits)
      ensures forall i | 0 <= i < |nodes| :: nodes[i] in old(nodes) || fresh(nodes[i])
    {
      var k: nat := 0;
      while k < |edits|
        invariant k <= |edits| && Valid() && Contents() == EditAll(old(Contents()), edits[..k])
        invariant forall i | 0 <= i < |nodes| :: nodes[i] in old(nodes) || fresh(nodes[i])
      {
        Do(edits[k]);
        assert edits[..k + 1][..k] == edits[..k];
        k := k + 1;
      }
      assert edits[..k] == edits;
    }

    // list_loop from the front, and the same from the back.
    method Forwards() returns (items: seq<Option<T>>)
      requires Valid()
      ensures items == Contents()
    {
      items := [];
      var iter: Node?<T> := begin;
      ghost var k: nat := 0;
      while iter != end
        invariant k <= |nodes| && iter == Spine()[k] && items == Contents()[..k]
        decreases |nodes| - k
      {
        Neighbours(this, Spine(), k);
        InUse(k);
        items := items + [iter.item];
        iter := iter.next;
        k := k + 1;
      }
      InUse(k);
    }

    method Backwards() returns (items: seq<Option<T>>)
      requires Valid()
      ensures items == Contents()
    {
      items := [];
      Neighbours(this, Spine(), |nodes|);
      var iter := end.prev;
      ghost var k: nat := |nodes|;
      while iter != null
        invariant k <= |nodes| == |Contents()| && items == Contents()[k..]
        invariant iter == if 0 < k then nodes[k - 1] else null
        decreases k
      {
        k := k - 1;
        Neighbours(this, Spine(), k);
        items := [iter.item] + items;
        iter := iter.prev;
      }
    }
  }
}
