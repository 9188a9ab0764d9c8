/** ArrayLL.java: a list of names kept at the front of an array of items, front first, with
    the free slots after them. A slot holding no item (null in Java) is None; an item is
    Some(name), its `next` index left out. The ghost field `names` is the list the array
    holds. The methods follow the code as written; where that differs from what the comments
    promise, the functions below say both what it does and what was meant. */
module ArrayLinkedList {

  import opened Options

  /** Position of the first `name` in ns: where the search loops of delete and contains
      stop. */
  function FirstIndex(ns: seq<string>, name: string): (i: nat)
    requires name in ns
    ensures i < |ns| && ns[i] == name && forall j :: 0 <= j < i ==> ns[j] != name
  {
    if ns[0] == name then 0 else 1 + FirstIndex(ns[1..], name)
  }

  /** The names after delete(name) as written: unchanged when name is missing; otherwise the
      first `name` is shifted out, except that when it is the front name nothing is shifted
      and the last slot is cleared, so the last name goes instead. */
  function DeletedAsWritten(ns: seq<string>, name: string): (r: seq<string>)
    ensures name !in ns ==> r == ns
    ensures name in ns ==> |r| == |ns| - 1
  {
    if name !in ns then ns
    else
      var i := FirstIndex(ns, name);
      if i == 0 then ns[..|ns| - 1] else ns[..i] + ns[i + 1..]
  }

  /** What delete promises: the first occurrence of `name` leaves the list, the other names
      keep their order; a missing name changes nothing. */
  function Deleted(ns: seq<string>, name: string): (r: seq<string>)
    ensures name !in ns ==> r == ns
    ensures name in ns ==> |r| == |ns| - 1
  {
    if name !in ns then ns
    else
      var i := FirstIndex(ns, name);
      ns[..i] + ns[i + 1..]
  }

  /** Deleted takes out exactly one `name` and no other name. */
  lemma DeletedRemovesOne(ns: seq<string>, name: string)
    requires name in ns
    ensures multiset(Deleted(ns, name)) == multiset(ns) - multiset{name}
  {
    var i := FirstIndex(ns, name);
    assert ns == ns[..i] + [name] + ns[i + 1..];
  }

  /** Deleted undoes an insertion in front of every earlier `name`, at any position. */
  lemma {:induction false} DeletedUndoesInsert(ns: seq<string>, k: nat, name: string)
    requires k <= |ns| && name !in ns[..k]
    ensures Deleted(ns[..k] + [name] + ns[k..], name) == ns
  {
    var t := ns[..k] + [name] + ns[k..];
    assert t[k] == name;
    var i := FirstIndex(t, name);
    assert i == k;
    assert t[..k] == ns[..k] && t[k + 1..] == ns[k..];
    assert ns[..k] + ns[k..] == ns;
  }

  /** Away from the front, delete as written does what it promises. */
  lemma DeletedAsWrittenAwayFromFront(ns: seq<string>, name: string)
    requires name !in ns || FirstIndex(ns, name) != 0 || |ns| == 1
    ensures DeletedAsWritten(ns, name) == Deleted(ns, name)
  {
  }

  /** Deleting the front name of two as written drops the other name and keeps the front
      one. */
  lemma DeleteFrontNameDropsLast(a: string, b: string)
    requires a != b
    ensures DeletedAsWritten([a, b], a) == [a]
    ensures Deleted([a, b], a) == [b]
  {
    assert FirstIndex([a, b], a) == 0;
  }

  /** The name deleteFront returns and the names after it, as written: with one name the
      list is left as it was. The code reads the front item before any check, so a list
      with no names is excluded. */
  function DeletedFrontAsWritten(ns: seq<string>): (r: (string, seq<string>))
    requires |ns| >= 1
    ensures r.0 == ns[0]
    ensures |ns| == 1 ==> r.1 == ns
    ensures |ns| > 1 ==> [r.0] + r.1 == ns
  {
    (ns[0], if |ns| == 1 then ns else ns[1..])
  }

  /** What deleteFront promises: None on an empty list, otherwise the front name, which
      leaves the list. */
  function DeletedFront(ns: seq<string>): (r: (Option<string>, seq<string>))
    ensures ns == [] <==> r.0.None?
    ensures r.0.Some? ==> [r.0.value] + r.1 == ns
  {
    if ns == [] then (None, ns) else (Some(ns[0]), ns[1..])
  }

  /** DeletedFront undoes addFront. */
  lemma {:induction false} DeletedFrontUndoesAddFront(ns: seq<string>, name: string)
    ensures DeletedFront([name] + ns) == (Some(name), ns)
  {
    assert ([name] + ns)[1..] == ns;
  }

  /** As written, deleteFront undoes addFront only when the list was not empty before. */
  lemma {:induction false} DeletedFrontAsWrittenUndoesAddFront(ns: seq<string>, name: string)
    ensures ns != [] ==> DeletedFrontAsWritten([name] + ns) == (name, ns)
    ensures ns == [] ==> DeletedFrontAsWritten([name] + ns) == (name, [name])
  {
    assert ([name] + ns)[1..] == ns;
    if ns == [] {
      assert [name] + ns == [name];
    }
  }

  class ArrayLL {
    /** The item array: slot i < numItems holds the i-th name, the rest are empty. */
    var all: array<Option<string>>
    var numItems: nat
    var numAvail: nat
    /** The names in the list, front first. */
    ghost var names: seq<string>

    ghost predicate Valid()
      reads this, all
    {
      all.Length == numItems + numAvail && |names| == numItems &&
      (forall i :: 0 <= i < numItems ==> all[i] == Some(names[i])) &&
      (forall i :: numItems <= i < all.Length ==> all[i] == None)
    }

    /** An empty list with room for maxItems names. */
    constructor (maxItems: nat)
      ensures Valid() && fresh(all)
      ensures names == [] && all.Length == maxItems && numAvail == maxItems
    {
      all := new Option<string>[maxItems](_ => None);
      numItems := 0;
      numAvail := maxItems;
      names := [];
    }

    /** addFront: false on a full array; otherwise every name moves up one slot, starting
        from the last, and `name` goes into slot 0. */
    method AddFront(name: string) returns (ok: bool)
      requires Valid()
      modifies this, all
      ensures Valid() && all == old(all)
      ensures ok == (old(numAvail) > 0)
      ensures ok ==> names == [name] + old(names)
      ensures !ok ==> names == old(names) && unchanged(all)
    {
      if numAvail == 0 {
        return false;
      } else if all[0] == None {
        // slot 0 is empty only in an empty list
        all[0] := Some(name);
      } else {
        var i := 0;
        while i < numItems
          modifies all
          invariant 0 <= i <= numItems < all.Length
          invariant forall k :: 0 <= k < numItems - i ==> all[k] == Some(names[k])
          invariant forall k :: numItems - i < k <= numItems ==> all[k] == Some(names[k - 1])
          invariant forall k :: numItems < k < all.Length ==> all[k] == None
        {
          var firstname := all[numItems - (i + 1)].value;
          all[numItems - i] := Some(firstname);
          i := i + 1;
        }
        all[0] := Some(name);
      }
      numAvail := numAvail - 1;
      numItems := numItems + 1;
      names := [name] + names;
      ok := true;
    }

    /** deleteFront: reads the front name, then (with more than one name) moves every other
        name down one slot and clears the last one. */
    method DeleteFront() returns (name: string)
      requires Valid() && numItems >= 1
      modifies this, all
      ensures Valid() && all == old(all)
      ensures (name, names) == DeletedFrontAsWritten(old(names))
    {
      name := all[0].value;
      if numItems == 1 {
        return;
      }
      var i := 0;
      while i < numItems - 1
        modifies all
        invariant 0 <= i <= numItems - 1
        invariant forall k :: 0 <= k < i ==> all[k] == Some(names[k + 1])
        invariant forall k :: i <= k < numItems ==> all[k] == Some(names[k])
        invariant forall k :: numItems <= k < all.Length ==> all[k] == None
      {
        all[i] := Some(all[i + 1].value);
        i := i + 1;
      }
      all[numItems - 1] := None;
      numItems := numItems - 1;
      numAvail := numAvail + 1;
      names := names[1..];
    }

    /** delete: searches for the first `name` and takes its slot out with DropAt. */
    method Delete(name: string) returns (ok: bool)
      requires Valid()
      modifies this, all
      ensures Valid() && all == old(all)
      ensures ok == (name in old(names))
      ensures names == DeletedAsWritten(old(names), name)
    {
      if numItems == 0 {
        return false;
      }
      var i := 0;
      while i < numItems
        invariant 0 <= i <= numItems
        invariant forall k :: 0 <= k < i ==> names[k] != name
        invariant Valid() && unchanged(this) && unchanged(all)
      {
        if all[i].value == name {
          assert FirstIndex(names, name) == i;
          DropAt(i);
          return true;
        }
        i := i + 1;
      }
      return false;
    }

    /** The body of delete once the name is found in slot i: away from the front the names
        after slot i move down one slot; either way the last slot is cleared. */
    method DropAt(i: nat)
      requires Valid() && i < numItems
      modifies this, all
      ensures Valid() && all == old(all)
      ensures names == if i == 0 then old(names)[..|old(names)| - 1]
                       else old(names)[..i] + old(names)[i + 1..]
    {
      ghost var r := if i == 0 then names[..numItems - 1] else names[..i] + names[i + 1..];
      if i <= numItems - 1 && i != 0 {
        assert forall k :: 0 <= k < i ==> r[k] == names[k];
        assert forall k :: i <= k < numItems - 1 ==> r[k] == names[k + 1];
        var j := i;
        while j < numItems - 1
          modifies all
          invariant i <= j <= numItems - 1
          invariant forall k :: 0 <= k < j ==> all[k] == Some(r[k])
          invariant forall k :: j <= k < numItems ==> all[k] == Some(names[k])
          invariant forall k :: numItems <= k < all.Length ==> all[k] == None
        {
          all[j] := Some(all[j + 1].value);
          j := j + 1;
        }
      } else {
        assert forall k :: 0 <= k < numItems - 1 ==> r[k] == names[k];
      }
      all[numItems - 1] := None;
      assert forall k :: 0 <= k < numItems - 1 ==> all[k] == Some(r[k]);
      assert forall k :: numItems - 1 <= k < all.Length ==> all[k] == None;
      numItems := numItems - 1;
      numAvail := numAvail + 1;
      names := r;
    }

    /** contains: a linear search over the first numItems slots. */
    method Contains(name: string) returns (b: bool)
      requires Valid()
      ensures b == (name in names)
    {
      if numItems == 0 {
        return false;
      }
      var i := 0;
      while i < numItems
        invariant 0 <= i <= numItems
        invariant forall k :: 0 <= k < i ==> names[k] != name
      {
        if all[i].value == name {
          return true;
        }
        i := i + 1;
      }
      return false;
    }
  }

  /** On an empty list the slot deleteFront reads first holds no item. */
  lemma EmptyListHasNoFrontItem(l: ArrayLL)
    requires l.Valid() && l.numItems == 0 && l.all.Length >= 1
    ensures l.all[0].None?
  {
  }
}
