/** The list of active threads: how a finishing thread leaves it, and how a thread is found by its ID. */
module ThreadLists {
  import opened Sequences
  import opened Lists

  /** A thread object, known by its address, and the ID it was given. */
  datatype Thread = Thread(address: nat, id: int)

  /** A list that only Append and Remove have worked on, with its count in step. */
  ghost predicate Sized(active: List<Thread>)
    reads active, active.nodes
  {
    active.Valid() && active.size == |active.contents| && forall e :: e in active.contents ==> e.key == 0
  }

  /** What the loop of Finish leaves when the current thread is element `k`: the rest, in order,
      except that the last one has moved to the front. */
  function Filtered<T>(s: seq<T>, k: nat): (r: seq<T>)
    requires k < |s|
    ensures |r| == |s| - 1
  {
    if k == |s| - 1 then s[..k] else [s[|s| - 1]] + s[..k] + s[k + 1..|s| - 1]
  }

  lemma DropOne<T>(front: seq<T>, x: T, middle: seq<T>, last: T)
    ensures multiset([last] + front + middle) == multiset(front + [x] + middle + [last]) - multiset{x}
  {
  }

  lemma FilteredDrops<T>(s: seq<T>, k: nat)
    requires k < |s|
    ensures multiset(Filtered(s, k)) == multiset(s) - multiset{s[k]}
  {
    if k == |s| - 1 {
      assert s == s[..k] + [s[k]];
    } else {
      var front, middle, last := s[..k], s[k + 1..|s| - 1], s[|s| - 1];
      assert s == front + [s[k]] + middle + [last];
      DropOne(front, s[k], middle, last);
    }
  }

  /** Those before the current thread move up by one behind the last, and those after it stay where they are. */
  lemma FilteredOrder<T>(s: seq<T>, k: nat, i: nat)
    requires k < |s| - 1 && i < |s|
    ensures Filtered(s, k)[0] == s[|s| - 1]
    ensures i < k ==> Filtered(s, k)[i + 1] == s[i]
    ensures k < i < |s| - 1 ==> Filtered(s, k)[i] == s[i]
  {
  }

  /** The state of Finish's loop after `i` rounds: `k` is where the current thread was found, or -1. */
  ghost predicate Going(s: seq<Entry<Thread>>, c: seq<Entry<Thread>>, i: nat, k: int, current: Thread) {
    if k == -1 then
      i <= |s| && c == Rotate(s, i) && forall j :: 0 <= j < i ==> s[j].item != current
    else
      0 <= k < i <= |s| && s[k].item == current && (i == |s| ==> k == |s| - 1) &&
      c == Rotate(Rotate(s, k)[1..], i - k - 1)
  }

  lemma GoingStep(s: seq<Entry<Thread>>, c: seq<Entry<Thread>>, i: nat, k: int, current: Thread)
    requires Going(s, c, i, k, current) && i < |c| && Distinct(s) && (forall e :: e in s ==> e.key == 0)
    ensures if c[0].item != current then Going(s, c[1..] + [c[0]], i + 1, k, current)
            else k == -1 && Going(s, c[1..], i + 1, i, current)
  {
  }

  lemma GoingEnd(s: seq<Entry<Thread>>, c: seq<Entry<Thread>>, i: nat, k: int, current: Thread)
    requires Going(s, c, i, k, current) && i >= |c| && Distinct(s) && (forall e :: e in s ==> e.key == 0)
    ensures k == -1 ==> c == s && Entry(current, 0) !in s
    ensures k != -1 ==> 0 <= k < |s| && s[k].item == current && c == Filtered(s, k)
  {
    if k != -1 && k < |s| - 1 {
      var t := Rotate(s, k)[1..];
      assert i == |s| - 1 && t == s[k + 1..] + s[..k];
      assert t[i - k - 1..] == [s[|s| - 1]] + s[..k];
      assert t[..i - k - 1] == s[k + 1..|s| - 1];
    }
  }

  lemma SamePlace(s: seq<Entry<Thread>>, k: nat, l: nat)
    requires Distinct(s) && (forall e :: e in s ==> e.key == 0) && k < |s| && l < |s| && s[k].item == s[l].item
    ensures k == l
  {
  }

  lemma GoingDone(s: seq<Entry<Thread>>, c: seq<Entry<Thread>>, i: nat, k: int, current: Thread)
    requires Going(s, c, i, k, current) && i >= |c| && Distinct(s) && (forall e :: e in s ==> e.key == 0)
    ensures Entry(current, 0) !in s ==> c == s
    ensures forall l: nat :: l < |s| && s[l].item == current ==> c == Filtered(s, l)
  {
    GoingEnd(s, c, i, k, current);
    forall l: nat | l < |s| && s[l].item == current ensures c == Filtered(s, l) {
      assert s[l] in s;
      SamePlace(s, k, l);
    }
  }

  /** The first thread goes to the end of the list, unless it is the current one. */
  method TakeNext(active: List<Thread>, current: Thread) returns (kept: bool)
    requires Sized(active) && active.contents != []
    modifies active, active.nodes
    ensures Sized(active) && kept == (old(active.contents)[0].item != current)
    ensures active.contents == old(active.contents)[1..] + if kept then [old(active.contents)[0]] else []
    ensures forall j :: 0 <= j < |active.nodes| ==> active.nodes[j] in old(active.nodes) || fresh(active.nodes[j])
  {
    assert active.contents[0] in active.contents;
    var temp := active.Remove();
    kept := temp.value != current;
    if kept {
      active.Append(temp.value);
    }
  }

  /** Thread::Finish takes the current thread off the list: the bound of its loop is the shrinking size. */
  method LeaveActive(active: List<Thread>, current: Thread)
    requires Sized(active) && Distinct(active.contents)
    modifies active, active.nodes
    ensures Sized(active)
    ensures Entry(current, 0) !in old(active.contents) ==> active.contents == old(active.contents)
    ensures forall k: nat :: k < |old(active.contents)| && old(active.contents)[k].item == current ==>
                               active.contents == Filtered(old(active.contents), k)
    ensures forall j :: 0 <= j < |active.nodes| ==> active.nodes[j] in old(active.nodes) || fresh(active.nodes[j])
  {
    ghost var s := active.contents;
    var i := 0;
    ghost var k := -1;
    while i < active.size
      invariant Sized(active) && i >= 0
      invariant forall j :: 0 <= j < |active.nodes| ==> active.nodes[j] in old(active.nodes) || fresh(active.nodes[j])
      invariant Going(s, active.contents, i, k, current)
      decreases |s| - i
    {
      GoingStep(s, active.contents, i, k, current);
      var kept := TakeNext(active, current);
      if !kept {
        k := i;
      }
      i := i + 1;
    }
    GoingDone(s, active.contents, i, k, current);
  }

  /** The last element with the given ID, or none. */
  function LastWithID(s: seq<Entry<Thread>>, id: int): (r: Option<Thread>) {
    if s == [] then None
    else if s[|s| - 1].item.id == id then Some(s[|s| - 1].item)
    else LastWithID(s[..|s| - 1], id)
  }

  lemma {:induction false} FoundIffPresent(s: seq<Entry<Thread>>, id: int)
    ensures LastWithID(s, id).Some? <==> exists i :: 0 <= i < |s| && s[i].item.id == id
    ensures LastWithID(s, id).Some? ==> LastWithID(s, id).value.id == id && exists i :: 0 <= i < |s| && s[i].item == LastWithID(s, id).value
    ensures forall i :: 0 <= i < |s| && s[i].item.id == id && (forall j :: i < j < |s| ==> s[j].item.id != id) ==>
                          LastWithID(s, id) == Some(s[i].item)
  {
    if s != [] {
      FoundIffPresent(s[..|s| - 1], id);
    }
  }

  /** getID goes once around the list, which leaves it as it was. */
  method GetID(active: List<Thread>, toGet: int) returns (found: Option<Thread>)
    requires Sized(active)
    modifies active, active.nodes
    ensures Sized(active) && active.contents == old(active.contents)
    ensures found == LastWithID(active.contents, toGet)
    ensures forall j :: 0 <= j < |active.nodes| ==> active.nodes[j] in old(active.nodes) || fresh(active.nodes[j])
  {
    ghost var s := active.contents;
    var size := active.size;
    found := None;
    for i := 0 to size
      invariant Sized(active) && active.contents == Rotate(s, i)
      invariant forall j :: 0 <= j < |active.nodes| ==> active.nodes[j] in old(active.nodes) || fresh(active.nodes[j])
      invariant found == LastWithID(s[..i], toGet)
    {
      var temp := active.Remove();
      RotateOnce(s, i);
      assert s[..i + 1][..i] == s[..i];
      if temp.value.id == toGet {
        found := temp;
      }
      active.Append(temp.value);
    }
    assert s[..|s|] == s;
  }
}
