/** list.cc: a singly linked list with pointers to its first and last elements, as a sequence of items
    with their keys. */
module Lists {
  import opened Common

  datatype Entry<+T> = Entry(item: T, key: int)

  // ---------------------------------------------------------------- sorted sequences

  predicate Sorted<T>(s: seq<Entry<T>>) {
    forall i, j :: 0 <= i < j < |s| ==> s[i].key <= s[j].key
  }

  /** Index of the first entry with a key above k, or |s|. */
  function FirstAbove<T>(s: seq<Entry<T>>, k: int): (i: nat)
    ensures i <= |s| && (i < |s| ==> k < s[i].key)
    ensures forall j :: 0 <= j < i ==> s[j].key <= k
  {
    if s == [] || k < s[0].key then 0 else 1 + FirstAbove(s[1..], k)
  }

  lemma FirstAboveUnique<T>(s: seq<Entry<T>>, k: int, i: nat)
    requires i <= |s| && (i < |s| ==> k < s[i].key)
    requires forall j :: 0 <= j < i ==> s[j].key <= k
    ensures FirstAbove(s, k) == i
  {
  }

  function Inserted<T>(s: seq<Entry<T>>, e: Entry<T>): seq<Entry<T>> {
    var i := FirstAbove(s, e.key);
    s[..i] + [e] + s[i..]
  }

  lemma AboveFromThere<T>(s: seq<Entry<T>>, k: int, j: nat)
    requires Sorted(s) && FirstAbove(s, k) <= j < |s|
    ensures k < s[j].key
  {
  }

  lemma InsertedContents<T>(s: seq<Entry<T>>, e: Entry<T>)
    ensures multiset(Inserted(s, e)) == multiset(s) + multiset{e}
  {
    var i := FirstAbove(s, e.key);
    assert s == s[..i] + s[i..];
  }

  /** Insertion keeps a sorted list sorted, loses nothing, and puts the new entry behind every entry
      with the same key: equal keys leave in the order they came. */
  lemma InsertedIsSorted<T>(s: seq<Entry<T>>, e: Entry<T>)
    requires Sorted(s)
    ensures var r, i := Inserted(s, e), FirstAbove(s, e.key);
      && Sorted(r) && multiset(r) == multiset(s) + multiset{e} && |r| == |s| + 1 && r[i] == e
      && (forall j :: 0 <= j < i ==> r[j] == s[j] && r[j].key <= e.key)
      && (forall j :: i < j < |r| ==> r[j] == s[j - 1] && e.key < r[j].key)
  {
    InsertedContents(s, e);
    InsertedPlaces(s, e);
    var r, i := Inserted(s, e), FirstAbove(s, e.key);
    hide Inserted, FirstAbove;
    forall j | i < j < |r| ensures e.key < r[j].key {
      AboveFromThere(s, e.key, j - 1);
    }
    forall j, k | 0 <= j < k < |r| ensures r[j].key <= r[k].key {
      if k < i || i < j {
        assert (if k < i then s[j] else s[j - 1]).key <= (if k < i then s[k] else s[k - 1]).key;
      }
    }
  }

  lemma InsertedPlaces<T>(s: seq<Entry<T>>, e: Entry<T>)
    ensures var r, i := Inserted(s, e), FirstAbove(s, e.key);
      && |r| == |s| + 1 && r[i] == e
      && (forall j :: 0 <= j < i ==> r[j] == s[j]) && (forall j :: i < j < |r| ==> r[j] == s[j - 1])
  {
  }

  lemma InsertedBehind<T>(s: seq<Entry<T>>, e: Entry<T>, i: nat)
    requires i == FirstAbove(s, e.key)
    ensures i <= |s| && Inserted(s, e) == s[..i] + [e] + s[i..]
  {
    hide FirstAbove;
  }

  lemma InsertedAtEnds<T>(s: seq<Entry<T>>, e: Entry<T>)
    ensures FirstAbove(s, e.key) == 0 ==> Inserted(s, e) == [e] + s
    ensures FirstAbove(s, e.key) == |s| ==> Inserted(s, e) == s + [e]
  {
    assert s[..|s|] == s && s[0..] == s;
    hide FirstAbove;
  }

  // ---------------------------------------------------------------- the linked list

  class ListElement<T> {
    var next: ListElement?<T>
    const key: int
    const item: T

    constructor (itemPtr: T, sortKey: int)
      ensures item == itemPtr && key == sortKey && next == null
    {
      item, key, next := itemPtr, sortKey, null;
    }
  }

  function ItemsOf<T>(spine: seq<ListElement<T>>): (s: seq<Entry<T>>)
    ensures |s| == |spine|
    ensures forall i :: 0 <= i < |s| ==> s[i] == Entry(spine[i].item, spine[i].key)
  {
    seq(|spine|, i requires 0 <= i < |spine| => Entry(spine[i].item, spine[i].key))
  }

  lemma ItemsJoin<T>(a: seq<ListElement<T>>, b: seq<ListElement<T>>)
    ensures ItemsOf(a + b) == ItemsOf(a) + ItemsOf(b)
  {
  }

  lemma ItemsOfOne<T>(e: ListElement<T>)
    ensures ItemsOf([e]) == [Entry(e.item, e.key)]
  {
  }

  lemma ItemsSplit<T>(s: seq<ListElement<T>>, i: nat)
    requires i <= |s|
    ensures ItemsOf(s[..i]) == ItemsOf(s)[..i] && ItemsOf(s[i..]) == ItemsOf(s)[i..]
  {
  }

  lemma Places<T>(s: seq<ListElement<T>>, element: ListElement<T>, i: nat, t: seq<ListElement<T>>)
    requires i + 1 < |s| && t == s[..i + 1] + [element] + s[i + 1..]
    requires element !in s && forall j, k :: 0 <= j < k < |s| ==> s[j] != s[k]
    ensures |t| == |s| + 1 && t[i + 1] == element
    ensures forall k :: 0 <= k <= i ==> t[k] == s[k] && t[k] != element
    ensures forall k :: i + 1 < k < |t| ==> t[k] == s[k - 1] && t[k] != element
    ensures forall j, k :: 0 <= j < k < |t| ==> t[j] != t[k]
  {
  }

  class List<T> {
    var first: ListElement?<T>
    var last: ListElement?<T>
    /** The elements in order. */
    ghost var spine: seq<ListElement<T>>

    ghost predicate Valid()
      reads this, spine
    {
      && (spine == [] ==> first == null && last == null)
      && (spine != [] ==> first == spine[0] && last == spine[|spine| - 1] && spine[|spine| - 1].next == null)
      && (forall i :: 0 <= i < |spine| - 1 ==> spine[i].next == spine[i + 1])
      && (forall i, j :: 0 <= i < j < |spine| ==> spine[i] != spine[j])
    }

    ghost function Contents(): (s: seq<Entry<T>>)
      reads this, spine
      ensures |s| == |spine|
    {
      ItemsOf(spine)
    }

    constructor ()
      ensures Valid() && Contents() == [] && spine == []
    {
      first, last := null, null;
      spine := [];
    }

    method IsEmpty() returns (empty: bool)
      requires Valid()
      ensures empty == (Contents() == [])
    {
      empty := first == null;
    }

    method Append(item: T)
      requires Valid()
      modifies this, spine
      ensures Valid() && fresh(set e | e in spine && e !in old(spine))
      ensures Contents() == old(Contents()) + [Entry(item, 0)]
    {
      var element := new ListElement(item, 0);
      LinkLast(element);
    }

    method Prepend(item: T)
      requires Valid()
      modifies this, spine
      ensures Valid() && fresh(set e | e in spine && e !in old(spine))
      ensures Contents() == [Entry(item, 0)] + old(Contents())
    {
      var element := new ListElement(item, 0);
      LinkFirst(element);
    }

    method SortedInsert(item: T, sortKey: int)
      requires Valid()
      modifies this, spine
      ensures Valid() && fresh(set e | e in spine && e !in old(spine))
      ensures Contents() == Inserted(old(Contents()), Entry(item, sortKey))
    {
      hide FirstAbove, Inserted, ItemsOf;
      var element := new ListElement(item, sortKey);
      ghost var s := Contents();
      InsertedAtEnds(s, Entry(item, sortKey));
      if first == null || sortKey < first.key {
        FirstAboveUnique(s, sortKey, 0);
        LinkFirst(element);
      } else {
        LinkBehind(element);
      }
    }

    /** The second half of SortedInsert: the new element goes behind the first, or further down. */
    method LinkBehind(element: ListElement<T>)
      requires Valid() && element !in spine && element.next == null && first != null && first.key <= element.key
      modifies this, spine, element
      ensures Valid() && forall e :: e in spine ==> e in old(spine) || e == element
      ensures Contents() == Inserted(old(Contents()), Entry(element.item, element.key))
    {
      hide FirstAbove, Inserted, ItemsOf;
      ghost var s := Contents();
      InsertedAtEnds(s, Entry(element.item, element.key));
      ghost var i;
      var ptr;
      ptr, i := Walk(element.key);
      InsertedBehind(s, Entry(element.item, element.key), i + 1);
      if ptr.next != null {
        InsertAfter(ptr, element, i);
      } else {
        LinkLast(element);
      }
    }

    /** The walk of SortedInsert: to the last element before the first one with a greater key. */
    method Walk(sortKey: int) returns (ptr: ListElement<T>, ghost i: nat)
      requires Valid() && first != null && first.key <= sortKey
      ensures i < |spine| && ptr == spine[i] && i + 1 == FirstAbove(Contents(), sortKey)
      ensures ptr.next == null <==> i + 1 == |spine|
    {
      ghost var s := Contents();
      ptr, i := first, 0;
      while ptr.next != null && !(sortKey < ptr.next.key)
        invariant i < |spine| && ptr == spine[i] && (i + 1 < |spine| ==> ptr.next == spine[i + 1])
        invariant forall j :: 0 <= j <= i ==> s[j].key <= sortKey
        decreases |spine| - i
      {
        ptr := ptr.next;
        i := i + 1;
      }
      FirstAboveUnique(s, sortKey, i + 1);
    }

    method LinkFirst(element: ListElement<T>)
      requires Valid() && element !in spine && element.next == null
      modifies this, element
      ensures Valid() && spine == [element] + old(spine)
      ensures Contents() == [Entry(element.item, element.key)] + old(Contents())
    {
      hide ItemsOf;
      if first == null {
        first := element;
        last := element;
      } else {
        element.next := first;
        first := element;
      }
      ItemsJoin([element], spine);
      ItemsOfOne(element);
      spine := [element] + spine;
    }

    method LinkLast(element: ListElement<T>)
      requires Valid() && element !in spine && element.next == null
      modifies this, spine
      ensures Valid() && spine == old(spine) + [element]
      ensures Contents() == old(Contents()) + [Entry(element.item, element.key)]
    {
      hide ItemsOf;
      if first == null {
        first := element;
        last := element;
      } else {
        last.next := element;
        last := element;
      }
      ItemsJoin(spine, [element]);
      ItemsOfOne(element);
      spine := spine + [element];
    }

    /** Relinks element into the list behind ptr, which is not the last. */
    method InsertAfter(ptr: ListElement<T>, element: ListElement<T>, ghost i: nat)
      requires Valid() && i + 1 < |spine| && ptr == spine[i] && element !in spine
      modifies this, ptr, element
      ensures Valid() && spine == old(spine[..i + 1]) + [element] + old(spine[i + 1..])
      ensures Contents() == old(Contents()[..i + 1]) + [Entry(element.item, element.key)] + old(Contents()[i + 1..])
    {
      hide ItemsOf;
      ghost var s, t := spine, spine[..i + 1] + [element] + spine[i + 1..];
      assert s[i].next == s[i + 1];
      element.next := ptr.next;
      ptr.next := element;
      ItemsSplit(s, i + 1);
      ItemsOfOne(element);
      ItemsJoin(s[..i + 1], [element]);
      ItemsJoin(s[..i + 1] + [element], s[i + 1..]);
      Places(s, element, i, t);
      forall k | 0 <= k < |t| - 1 ensures t[k].next == t[k + 1] {
        if k < i {
          assert s[k].next == s[k + 1];
        } else if k > i + 1 {
          assert s[k - 1].next == s[k];
        }
      }
      spine := t;
    }

    /** The first item and its key, or nothing. */
    method SortedRemove() returns (thing: Option<Entry<T>>)
      requires Valid()
      modifies this
      ensures Valid() && (forall e :: e in spine ==> e in old(spine))
      ensures old(Contents()) == [] ==> thing == None && Contents() == []
      ensures old(Contents()) != [] ==> thing == Some(old(Contents())[0]) && Contents() == old(Contents())[1..]
    {
      hide ItemsOf;
      if first == null {
        return None;
      }
      var element := first;
      thing := Some(Entry(element.item, element.key));
      if first == last {
        first := null;
        last := null;
      } else {
        first := element.next;
      }
      ItemsSplit(spine, 1);
      spine := spine[1..];
    }

    method Remove() returns (thing: Option<T>)
      requires Valid()
      modifies this
      ensures Valid() && (forall e :: e in spine ==> e in old(spine))
      ensures old(Contents()) == [] ==> thing == None && Contents() == []
      ensures old(Contents()) != [] ==> thing == Some(old(Contents())[0].item) && Contents() == old(Contents())[1..]
    {
      var e := SortedRemove();
      thing := if e.Some? then Some(e.value.item) else None;
    }
  }
}
