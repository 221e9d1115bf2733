/** Singly linked lists, in insertion order or sorted by key, and the sequences they represent. */
module Lists {
  import opened Sequences

  /** An item with its sort key. */
  datatype Entry<T> = Entry(item: T, key: int)

  /** Insertion before the first entry with a greater key. */
  function Insert<T>(s: seq<Entry<T>>, e: Entry<T>): (r: seq<Entry<T>>)
    ensures |r| == |s| + 1
  {
    if s == [] || e.key < s[0].key then [e] + s else [s[0]] + Insert(s[1..], e)
  }

  /** The position at which Insert puts an entry with this key. */
  function InsertPos<T>(s: seq<Entry<T>>, key: int): (p: nat)
    ensures p <= |s|
  {
    if s == [] || key < s[0].key then 0 else 1 + InsertPos(s[1..], key)
  }

  lemma {:induction false} InsertAt<T>(s: seq<Entry<T>>, e: Entry<T>)
    ensures Insert(s, e) == s[..InsertPos(s, e.key)] + [e] + s[InsertPos(s, e.key)..]
  {
    if !(s == [] || e.key < s[0].key) {
      InsertAt(s[1..], e);
    }
  }

  lemma {:induction false} InsertPosIs<T>(s: seq<Entry<T>>, key: int, p: nat)
    requires p <= |s| && (forall i :: 0 <= i < p ==> s[i].key <= key) && (p < |s| ==> key < s[p].key)
    ensures InsertPos(s, key) == p
  {
    if p > 0 {
      InsertPosIs(s[1..], key, p - 1);
    }
  }

  ghost predicate Sorted<T>(s: seq<Entry<T>>) {
    forall i, j :: 0 <= i < j < |s| ==> s[i].key <= s[j].key
  }

  /** SortedInsert adds exactly the one entry, */
  lemma InsertAdds<T>(s: seq<Entry<T>>, e: Entry<T>)
    ensures multiset(Insert(s, e)) == multiset(s) + multiset{e}
  {
    InsertAt(s, e);
    assert s == s[..InsertPos(s, e.key)] + s[InsertPos(s, e.key)..];
  }

  /** and keeps a sorted list sorted. */
  lemma InsertSorted<T>(s: seq<Entry<T>>, e: Entry<T>)
    requires Sorted(s)
    ensures Sorted(Insert(s, e))
  {
    var p, r := InsertPos(s, e.key), Insert(s, e);
    InsertAt(s, e);
    InsertPosOrder(s, e.key);
    assert forall i :: 0 <= i < |r| ==> r[i] == if i < p then s[i] else if i == p then e else s[i - 1];
    forall i, j | 0 <= i < j < |r| ensures r[i].key <= r[j].key {
      assert j > p ==> s[p].key <= s[j - 1].key;
    }
  }

  /** What is before the insertion position is not greater, and what comes next is. */
  lemma {:induction false} InsertPosOrder<T>(s: seq<Entry<T>>, key: int)
    ensures forall i :: 0 <= i < InsertPos(s, key) ==> s[i].key <= key
    ensures InsertPos(s, key) < |s| ==> key < s[InsertPos(s, key)].key
  {
    if !(s == [] || key < s[0].key) {
      InsertPosOrder(s[1..], key);
      assert forall i :: 0 < i < |s| ==> s[i] == s[1..][i - 1];
    }
  }

  /** The items of a list, in order. */
  function ItemsOf<T>(s: seq<Entry<T>>): (r: seq<T>)
    ensures |r| == |s| && forall i :: 0 <= i < |s| ==> r[i] == s[i].item
  {
    if s == [] then [] else [s[0].item] + ItemsOf(s[1..])
  }

  class ListElement<T> {
    var item: T
    var key: int
    var next: ListElement?<T>
    /** The list that it was made for. */
    ghost const owner: object

    constructor (item: T, key: int, ghost owner: object)
      ensures this.item == item && this.key == key && next == null && this.owner == owner
    {
      this.item, this.key, this.next, this.owner := item, key, null, owner;
    }
  }

  /** Distinct elements, each holding its entry and leading to the next; the last one leads nowhere. */
  ghost predicate Chain<T>(nodes: seq<ListElement<T>>, contents: seq<Entry<T>>)
    reads nodes
  {
    && |nodes| == |contents|
    && Distinct(nodes)
    && forall i :: 0 <= i < |nodes| ==> Linked(nodes, contents, i)
  }

  ghost predicate Linked<T>(nodes: seq<ListElement<T>>, contents: seq<Entry<T>>, i: nat)
    requires i < |nodes| == |contents|
    reads nodes
  {
    && nodes[i].item == contents[i].item && nodes[i].key == contents[i].key
    && nodes[i].next == if i + 1 < |nodes| then nodes[i + 1] else null
  }

  lemma InsertDistinct<T>(s: seq<T>, x: T, p: nat)
    requires p <= |s| && x !in s && Distinct(s)
    ensures Distinct(s[..p] + [x] + s[p..])
  {
  }

  class List<T> {
    var first: ListElement?<T>
    var last: ListElement?<T>
    var size: int
    /** The chain of elements and what they hold, in order. */
    ghost var nodes: seq<ListElement<T>>
    ghost var contents: seq<Entry<T>>

    ghost predicate Valid()
      reads this, nodes
    {
      && first == (if nodes == [] then null else nodes[0])
      && last == (if nodes == [] then null else nodes[|nodes| - 1])
      && Chain(nodes, contents) && forall n :: n in nodes ==> n.owner == this
    }

    constructor ()
      ensures Valid() && contents == [] && nodes == [] && size == 0
    {
      first, last, size, nodes, contents := null, null, 0, [], [];
    }

    method IsEmpty() returns (empty: bool)
      requires Valid()
      ensures empty <==> contents == []
    {
      empty := first == null;
    }

    method Append(item: T)
      requires Valid()
      modifies this, nodes
      ensures Valid() && size == old(size) + 1
      ensures contents == old(contents) + [Entry(item, 0)]
      ensures |nodes| == |old(nodes)| + 1 && nodes[..|nodes| - 1] == old(nodes) && fresh(nodes[|nodes| - 1])
    {
      var element := new ListElement(item, 0, this);
      size := size + 1;
      if first == null {
        LinkFirst(element);
      } else {
        LinkAfter(last, element, |nodes| - 1);
      }
    }

    method Prepend(item: T)
      requires Valid()
      modifies this, nodes
      ensures Valid() && size == old(size) + 1
      ensures contents == [Entry(item, 0)] + old(contents)
      ensures |nodes| == |old(nodes)| + 1 && nodes[1..] == old(nodes) && fresh(nodes[0])
    {
      var element := new ListElement(item, 0, this);
      size := size + 1;
      LinkFirst(element);
    }

    /** Remove the first element, without counting it. */
    method SortedRemove() returns (removed: Option<Entry<T>>)
      requires Valid()
      modifies this
      ensures Valid() && size == old(size)
      ensures old(contents) == [] ==> removed == None && contents == [] && nodes == []
      ensures old(contents) != [] ==> removed == Some(old(contents)[0]) && contents == old(contents)[1..] && nodes == old(nodes)[1..]
    {
      if first == null {
        return None;
      }
      var element := first;
      assert Linked(nodes, contents, 0);
      if first == last {
        first := null;
        last := null;
      } else {
        first := element.next;
      }
      nodes, contents := nodes[1..], contents[1..];
      forall i | 0 <= i < |nodes| ensures Linked(nodes, contents, i) {
        assert Linked(old(nodes), old(contents), i + 1);
      }
      return Some(Entry(element.item, element.key));
    }

    /** Remove the first element; `size` goes down even when there is none. */
    method Remove() returns (removed: Option<T>)
      requires Valid()
      modifies this
      ensures Valid() && size == old(size) - 1
      ensures old(contents) == [] ==> removed == None && contents == [] && nodes == []
      ensures old(contents) != [] ==> removed == Some(old(contents)[0].item) && contents == old(contents)[1..] && nodes == old(nodes)[1..]
    {
      size := size - 1;
      var r := SortedRemove();
      removed := match r case None => None case Some(e) => Some(e.item);
    }

    /** Insert in front of the first element with a greater key, without counting it. */
    method SortedInsert(item: T, sortKey: int)
      requires Valid()
      modifies this, nodes
      ensures Valid() && size == old(size)
      ensures contents == Insert(old(contents), Entry(item, sortKey))
      ensures forall i :: 0 <= i < |nodes| ==> nodes[i] in old(nodes) || fresh(nodes[i])
    {
      var element := new ListElement(item, sortKey, this);
      if first == null {
        LinkFirst(element);
        return;
      }
      assert Linked(nodes, contents, 0);
      if sortKey < first.key {
        LinkFirst(element);
        return;
      }
      InsertLater(element);
    }

    /** The case of SortedInsert in which the first element stays the first. */
    method InsertLater(element: ListElement<T>)
      requires Valid() && nodes != [] && contents[0].key <= element.key && element !in nodes && element.next == null && element.owner == this
      modifies this, nodes, element
      ensures Valid() && size == old(size)
      ensures contents == Insert(old(contents), Entry(old(element.item), old(element.key)))
      ensures forall i :: 0 <= i < |nodes| ==> nodes[i] in old(nodes) || nodes[i] == element
    {
      var ptr, i := FindPlace(element.key);
      InsertPosIs(contents, element.key, i + 1);
      InsertAt(contents, Entry(element.item, element.key));
      LinkAfter(ptr, element, i);
    }

    /** The last element before the first one with a greater key. */
    method FindPlace(sortKey: int) returns (ptr: ListElement<T>, ghost i: nat)
      requires Valid() && nodes != [] && contents[0].key <= sortKey
      ensures i < |nodes| && ptr == nodes[i]
      ensures forall k :: 0 <= k <= i ==> contents[k].key <= sortKey
      ensures i + 1 < |nodes| ==> sortKey < contents[i + 1].key
    {
      ptr := first;
      i := 0;
      while ptr.next != null && sortKey >= ptr.next.key
        invariant 0 <= i < |nodes| && ptr == nodes[i]
        invariant forall k :: 0 <= k <= i ==> contents[k].key <= sortKey
        decreases |nodes| - i
      {
        assert Linked(nodes, contents, i);
        ptr := ptr.next;
        i := i + 1;
        assert Linked(nodes, contents, i);
      }
      assert Linked(nodes, contents, i) && (i + 1 < |nodes| ==> Linked(nodes, contents, i + 1));
    }

    /** Link a new element in at the front. */
    method LinkFirst(element: ListElement<T>)
      requires Valid() && element !in nodes && element.next == null && element.owner == this
      modifies this, element
      ensures Valid() && size == old(size) && nodes == [element] + old(nodes)
      ensures contents == [Entry(old(element.item), old(element.key))] + old(contents)
    {
      if first == null {
        first := element;
        last := element;
      } else {
        element.next := first;
        first := element;
      }
      nodes, contents := [element] + nodes, [Entry(element.item, element.key)] + contents;
      forall i | 0 <= i < |nodes| ensures Linked(nodes, contents, i) {
        if i > 0 {
          assert Linked(old(nodes), old(contents), i - 1);
        }
      }
    }

    /** Link a new element in after element `i`. */
    method LinkAfter(ptr: ListElement<T>, element: ListElement<T>, ghost i: nat)
      requires Valid() && element !in nodes && element.next == null && element.owner == this && i < |nodes| && ptr == nodes[i]
      modifies this, ptr, element
      ensures Valid() && size == old(size) && nodes == old(nodes)[..i + 1] + [element] + old(nodes)[i + 1..]
      ensures contents == old(contents)[..i + 1] + [Entry(old(element.item), old(element.key))] + old(contents)[i + 1..]
    {
      assert Linked(nodes, contents, i);
      if ptr.next != null {
        element.next := ptr.next;
        ptr.next := element;
      } else {
        last.next := element;
        last := element;
      }
      InsertDistinct(nodes, element, i + 1);
      nodes := nodes[..i + 1] + [element] + nodes[i + 1..];
      contents := contents[..i + 1] + [Entry(element.item, element.key)] + contents[i + 1..];
      forall k | 0 <= k < |nodes| ensures Linked(nodes, contents, k) {
        if k > i + 1 {
          assert old(Linked(nodes, contents, k - 1));
        } else if k <= i {
          assert old(Linked(nodes, contents, k));
        }
      }
    }
  }
}
