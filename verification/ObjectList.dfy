/** lib/libdvbsub/tools.cpp: the intrusive doubly linked list. */
module ObjectList {

  /** cListObject. Compare answers by the difference of the values, so an order on values stands for any total preorder. */
  class ListObject {
    var prev: ListObject?
    var next: ListObject?
    const value: int

    constructor (v: int)
      ensures prev == null && next == null && value == v
    {
      prev, next := null, null;
      value := v;
    }

    method Append(o: ListObject)
      modifies `next, o`prev
      ensures next == o && o.prev == this
    {
      next := o;
      o.prev := this;
    }

    method Insert(o: ListObject)
      modifies `prev, o`next
      ensures prev == o && o.next == this
    {
      prev := o;
      o.next := this;
    }

    /** Takes this object out of the chain s, where it stands at position k. */
    method Unlink(ghost s: seq<ListObject>, ghost k: nat)
      requires Chain(s) && k < |s| && s[k] == this
      modifies s
      ensures Chain(Without(s, k)) && prev == null && next == null
    {
      if next != null {
        next.prev := prev;
      }
      if prev != null {
        prev.next := next;
      }
      next, prev := null, null;
    }

    /** The number of predecessors. */
    method Index(ghost s: seq<ListObject>, ghost k: nat) returns (i: nat)
      requires Chain(s) && k < |s| && s[k] == this
      ensures i == k
    {
      var p := prev;
      i := 0;
      while p != null
        invariant i <= k && p == (if i < k then s[k - i - 1] else null)
        decreases k - i
      {
        i := i + 1;
        p := p.prev;
      }
    }
  }

  ghost predicate Distinct(s: seq<ListObject>) {
    forall i, j :: 0 <= i < j < |s| ==> s[i] != s[j]
  }

  /** The objects of s are linked in this order, both ways, and to nothing else. */
  ghost predicate Chain(s: seq<ListObject>)
    reads s
  {
    && Distinct(s)
    && (forall i {:trigger s[i].prev} :: 0 <= i < |s| ==> s[i].prev == if i == 0 then null else s[i - 1])
    && (forall i {:trigger s[i].next} :: 0 <= i < |s| ==> s[i].next == if i == |s| - 1 then null else s[i + 1])
  }

  function Without<T>(s: seq<T>, k: nat): seq<T>
    requires k < |s|
  {
    s[..k] + s[k + 1..]
  }

  function With<T>(s: seq<T>, k: nat, x: T): seq<T>
    requires k <= |s|
  {
    s[..k] + [x] + s[k..]
  }

  /** Take the element at i out and put it in again at j. */
  function Moved<T>(s: seq<T>, i: nat, j: nat): seq<T>
    requires i < |s| && j < |s|
  {
    With(Without(s, i), j, s[i])
  }

  /** cListBase, with the ghost sequence of its objects. */
  class ListBase {
    var objects: ListObject?
    var lastObject: ListObject?
    var count: int
    ghost var items: seq<ListObject>

    ghost predicate Linked()
      reads this, items
    {
      && Chain(items)
      && objects == (if items == [] then null else items[0])
      && lastObject == (if items == [] then null else items[|items| - 1])
    }

    ghost predicate Valid()
      reads this, items
    {
      Linked() && count == |items|
    }

    constructor ()
      ensures Valid() && items == []
    {
      objects, lastObject, count, items := null, null, 0, [];
    }

    /** What Add and Ins do in the middle of the list: link an object between two neighbours, the right one at k. */
    method Splice(left: ListObject, right: ListObject, o: ListObject, ghost k: nat)
      requires Linked() && o !in items && 0 < k < |items| && left == items[k - 1] && right == items[k]
      modifies `items, o, items
      ensures Linked() && items == With(old(items), k, o)
    {
      right.Insert(o);
      left.Append(o);
      items := With(items, k, o);
    }

    /** Adds an unlinked object behind After (which stands at k), or at the end when After is null. */
    method Add(o: ListObject, after: ListObject?, ghost k: nat)
      requires Linked() && o !in items && o.prev == null && o.next == null
      requires after != null ==> k < |items| && items[k] == after
      modifies this, o, items
      ensures Linked() && count == old(count) + 1
      ensures items == if after == null then old(items) + [o] else With(old(items), k + 1, o)
    {
      if after != null && after != lastObject {
        Splice(after, after.next, o, k + 1);
      } else {
        if lastObject != null {
          lastObject.Append(o);
        } else {
          objects := o;
        }
        lastObject := o;
        items := items + [o];
      }
      count := count + 1;
    }

    /** Inserts an unlinked object in front of Before (which stands at k), or at the start when Before is null. */
    method Ins(o: ListObject, before: ListObject?, ghost k: nat)
      requires Linked() && o !in items && o.prev == null && o.next == null
      requires before != null ==> k < |items| && items[k] == before
      modifies this, o, items
      ensures Linked() && count == old(count) + 1
      ensures items == With(old(items), if before == null then 0 else k, o)
    {
      if before != null && before != objects {
        Splice(before.prev, before, o, k);
      } else {
        if objects != null {
          objects.Insert(o);
        } else {
          lastObject := o;
        }
        objects := o;
        items := [o] + items;
      }
      count := count + 1;
    }

    /** What Del and Move have in common: the object at k leaves the chain, the count stays. */
    method Detach(o: ListObject, ghost k: nat)
      requires Linked() && k < |items| && items[k] == o
      modifies `objects, `lastObject, `items, items
      ensures Linked() && items == Without(old(items), k) && o !in items
      ensures o.prev == null && o.next == null
    {
      if o == objects {
        objects := o.next;
      }
      if o == lastObject {
        lastObject := o.prev;
      }
      o.Unlink(items, k);
      items := Without(items, k);
    }

    /** Takes out the object at k; the count follows only when the object is deleted as well. */
    method Del(o: ListObject, deleteObject: bool, ghost k: nat)
      requires Linked() && k < |items| && items[k] == o
      modifies this, items
      ensures Linked() && items == Without(old(items), k)
      ensures count == old(count) - (if deleteObject then 1 else 0)
      ensures old(Valid()) ==> (Valid() <==> deleteObject)
    {
      Detach(o, k);
      if deleteObject {
        count := count - 1;
      }
    }

    method Get(index: int) returns (o: ListObject?)
      requires Linked()
      ensures o == if 0 <= index < |items| then items[index] else null
    {
      if index < 0 {
        return null;
      }
      o := objects;
      var left, i := index, 0;
      while o != null && left > 0
        invariant 0 <= left && left + i == index && i <= |items|
        invariant o == if i < |items| then items[i] else null
        decreases left
      {
        left, i := left - 1, i + 1;
        o := o.next;
      }
    }

    method Clear()
      requires Linked()
      modifies this
      ensures Valid() && items == []
    {
      ghost var i := 0;
      while objects != null
        invariant i <= |items| && items == old(items) && Chain(items)
        invariant objects == if i < |items| then items[i] else null
        decreases |items| - i
      {
        objects := objects.next;
        i := i + 1;
      }
      objects, lastObject, count, items := null, null, 0, [];
    }

    /** The second half of Move: a detached object goes in front of the target (which stands at k) or to the end. */
    method Relink(o: ListObject, target: ListObject?, ghost k: nat)
      requires Linked() && o !in items && o.prev == null && o.next == null && k <= |items|
      requires target != o ==> target == if k < |items| then items[k] else null
      requires target == null ==> items != []
      modifies `objects, `lastObject, `items, o, items
      ensures Linked()
      ensures target != o ==> items == With(old(items), k, o)
      ensures target == o ==> items == old(items) && o.prev == o.next == o
    {
      if target != null {
        RelinkBefore(o, target, k);
      } else {
        lastObject.Append(o);
        lastObject := o;
        items := items + [o];
      }
    }

    method RelinkBefore(o: ListObject, target: ListObject, ghost k: nat)
      requires Linked() && o !in items && o.prev == null && o.next == null
      requires target != o ==> k < |items| && target == items[k]
      modifies `objects, `items, o, items
      ensures Linked()
      ensures target != o ==> items == With(old(items), k, o)
      ensures target == o ==> items == old(items) && o.prev == o.next == o
    {
      if target.prev != null {
        Splice(target.prev, target, o, k);
      } else {
        o.Append(target);
        if o.prev == null {
          objects := o;
          items := [o] + items;
        }
      }
    }

    /** Moves the object at i to position j. Moving an object onto itself loses it: it ends up linked to itself
        and outside the chain, while the count still includes it. */
    method MoveObject(from: ListObject?, to: ListObject?, ghost i: nat, ghost j: nat)
      requires Valid()
      requires from != null ==> i < |items| && items[i] == from
      requires to != null ==> j < |items| && items[j] == to
      modifies this, items
      ensures Linked() && count == old(count)
      ensures from == null || to == null ==> items == old(items)
      ensures from != null && to != null && from != to ==> Valid() && items == Moved(old(items), i, j)
      ensures from != null && from == to ==>
        items == Without(old(items), i) && from.prev == from.next == from && !Valid()
    {
      if from != null && to != null {
        var target: ListObject? := to;
        var indexFrom := from.Index(items, i);
        var indexTo := to.Index(items, j);
        if indexFrom < indexTo {
          target := target.next;
        }
        Detach(from, i);
        Relink(from, target, if from == to then 0 else j);
      }
    }

    /** Moves by position; positions outside the list leave it alone. */
    method Move(from: int, to: int)
      requires Valid()
      modifies this, items
      ensures Linked() && count == old(count)
      ensures if 0 <= from < |old(items)| && 0 <= to < |old(items)| then
                (Valid() <==> from != to)
                && items == (if from != to then Moved(old(items), from, to) else Without(old(items), from))
              else Valid() && items == old(items)
    {
      var f := Get(from);
      var t := Get(to);
      MoveObject(f, t, if from >= 0 then from else 0, if to >= 0 then to else 0);
    }

    /** Unlinks and re-appends node by node in sorted order: the shrinking old chain and the growing new one coexist. */
    method Sort()
      requires Valid()
      modifies this, items
      ensures Valid() && multiset(items) == multiset(old(items))
      ensures forall i, j :: 0 <= i < j < |items| ==> items[i].value <= items[j].value
    {
      var a, o := [], objects;
      while o != null && |a| < count
        invariant |a| <= |items| && a == items[..|a|]
        invariant o == if |a| < |items| then items[|a|] else null
        decreases count - |a|
      {
        a := a + [o];
        o := o.next;
      }
      assert a == items;
      var sorted := Qsort(a);
      DistinctPermutation(a, sorted);
      Rebuild(sorted);
    }

    /** The relinking loop of Sort, for any reordering of the objects. */
    method Rebuild(a: seq<ListObject>)
      requires Valid() && Distinct(a) && |a| == |items| && SameElements(items, a)
      modifies this, items
      ensures Valid() && items == a
    {
      ghost var rest := items;
      ghost var all := set x | x in items;
      objects, lastObject, items := null, null, [];
      for i := 0 to |a|
        invariant Linked() && items == a[..i] && count == |a|
        invariant Chain(rest) && SameElements(rest, a[i..])
        invariant (forall x :: x in rest ==> x in all) && (forall x :: x in items ==> x in all)
        invariant Apart(items, rest)
      {
        ghost var k := TakeFirst(rest, a[i..]);
        TakeOver(a[i], rest, k, all);
        rest := Without(rest, k);
      }
      assert a[..|a|] == a;
    }

    /** One step of Sort: the object at k of the old chain becomes the last of this list; the two chains share nothing. */
    method TakeOver(o: ListObject, ghost rest: seq<ListObject>, ghost k: nat, ghost all: set<ListObject>)
      requires Linked() && Chain(rest) && k < |rest| && rest[k] == o
      requires Apart(items, rest)
      requires (forall x :: x in rest ==> x in all) && (forall x :: x in items ==> x in all)
      modifies this, all
      ensures Linked() && items == old(items) + [o] && count == old(count)
      ensures Chain(Without(rest, k))
    {
      o.Unlink(rest, k);
      assert Linked();
      count := count - 1;
      assert Apart(Without(rest, k), items) && Apart(Without(rest, k), [o]);
      Add(o, null, 0);
    }
  }

  ghost predicate Sorted(s: seq<ListObject>) {
    forall i, j :: 0 <= i < j < |s| ==> s[i].value <= s[j].value
  }

  /** The C library's qsort with CompareListObjects: some sorted permutation. */
  method Qsort(a: seq<ListObject>) returns (s: seq<ListObject>)
    ensures Sorted(s) && multiset(s) == multiset(a)
  {
    s := [];
    for i := 0 to |a|
      invariant Sorted(s) && multiset(s) == multiset(a[..i])
    {
      var k := |s|;
      while k > 0 && a[i].value < s[k - 1].value
        invariant 0 <= k <= |s|
        invariant k < |s| ==> a[i].value < s[k].value
      {
        k := k - 1;
      }
      assert a[..i + 1] == a[..i] + [a[i]];
      InsertedSorted(s, k, a[i]);
      InsertedElements(s, k, a[i]);
      s := With(s, k, a[i]);
    }
    assert a[..|a|] == a;
  }

  lemma InsertedSorted(s: seq<ListObject>, k: nat, x: ListObject)
    requires Sorted(s) && k <= |s|
    requires k > 0 ==> s[k - 1].value <= x.value
    requires k < |s| ==> x.value <= s[k].value
    ensures Sorted(With(s, k, x))
  {
    var w := With(s, k, x);
    forall i, j | 0 <= i < j < |w|
      ensures w[i].value <= w[j].value
    {
      assert i < k ==> w[i] == s[i] && w[i].value <= s[k - 1].value;
      assert j > k ==> w[j] == s[j - 1] && s[k].value <= w[j].value;
    }
  }

  lemma InsertedElements<T>(s: seq<T>, k: nat, x: T)
    requires k <= |s|
    ensures multiset(With(s, k, x)) == multiset(s) + multiset{x}
  {
    assert s == s[..k] + s[k..];
  }

  ghost predicate Apart(s: seq<ListObject>, t: seq<ListObject>) {
    forall i, j :: 0 <= i < |s| && 0 <= j < |t| ==> s[i] != t[j]
  }

  ghost predicate SameElements(s: seq<ListObject>, t: seq<ListObject>) {
    (forall x :: x in s ==> x in t) && (forall x :: x in t ==> x in s)
  }

  /** Where the first element of t stands in s, and that both keep the same elements without it. */
  lemma TakeFirst(s: seq<ListObject>, t: seq<ListObject>) returns (k: nat)
    requires Distinct(s) && Distinct(t) && SameElements(s, t) && t != []
    ensures k < |s| && s[k] == t[0] && SameElements(Without(s, k), t[1..])
  {
    assert t[0] in s;
    k :| 0 <= k < |s| && s[k] == t[0];
    WithoutElement(s, k);
    WithoutElement(t, 0);
    assert Without(t, 0) == t[1..];
  }

  lemma WithoutElement(s: seq<ListObject>, k: nat)
    requires Distinct(s) && k < |s|
    ensures forall x :: x in Without(s, k) ==> x in s && x != s[k]
    ensures forall x :: x in s && x != s[k] ==> x in Without(s, k)
  {
    forall x | x in s && x != s[k]
      ensures x in Without(s, k)
    {
      var i :| 0 <= i < |s| && s[i] == x;
      assert Without(s, k)[if i < k then i else i - 1] == x;
    }
  }

  lemma DistinctPermutation(s: seq<ListObject>, t: seq<ListObject>)
    requires Distinct(s) && multiset(s) == multiset(t)
    ensures Distinct(t) && |s| == |t| && SameElements(s, t)
  {
    assert |multiset(s)| == |multiset(t)|;
    forall i, j | 0 <= i < j < |t|
      ensures t[i] != t[j]
    {
      if t[i] == t[j] {
        TwiceCounted(t, i, j);
        OnceCounted(s, t[i]);
      }
    }
    assert forall x :: x in s ==> x in multiset(s);
    assert forall x :: x in t ==> x in multiset(t);
  }

  lemma TwiceCounted(t: seq<ListObject>, i: nat, j: nat)
    requires i < j < |t| && t[i] == t[j]
    ensures multiset(t)[t[i]] >= 2
  {
    assert t == t[..i] + [t[i]] + t[i + 1..j] + [t[j]] + t[j + 1..];
  }

  lemma {:induction false} OnceCounted(s: seq<ListObject>, x: ListObject)
    requires Distinct(s)
    ensures multiset(s)[x] <= 1
  {
    if s != [] {
      assert s == [s[0]] + s[1..];
      OnceCounted(s[1..], x);
    }
  }

  /** Moving back undoes a move. */
  lemma MovedBack<T>(s: seq<T>, i: nat, j: nat)
    requires i < |s| && j < |s|
    ensures Moved(Moved(s, i, j), j, i) == s
  {
    var others := Without(s, i);
    assert Without(With(others, j, s[i]), j) == others;
    assert With(others, i, s[i]) == s;
  }

  /** What a move does to each position. */
  lemma MovedAt<T>(s: seq<T>, i: nat, j: nat, k: nat)
    requires i < |s| && j < |s| && k < |s|
    ensures Moved(s, i, j)[k] ==
      if k == j then s[i] else if i <= k < j then s[k + 1] else if j < k <= i then s[k - 1] else s[k]
  {
  }
}