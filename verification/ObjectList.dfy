/** A doubly linked list of objects with a built-in iterator. */
module ObjectList {
  import opened Sequences

  type Object = nat  // an address; 0 is the null pointer

  class Element {
    var prev: Element?
    var next: Element?
    const obj: Object

    constructor (obj: Object)
      ensures prev == null && next == null && this.obj == obj
    {
      prev, next := null, null;
      this.obj := obj;
    }
  }

  /** The objects of a chain of elements. */
  function Objects(nodes: seq<Element>): (objects: seq<Object>)
    ensures |objects| == |nodes|
    ensures forall i :: 0 <= i < |nodes| ==> objects[i] == nodes[i].obj
  {
    seq(|nodes|, i requires 0 <= i < |nodes| => nodes[i].obj)
  }

  /** Neighbours in the sequence point to each other, and its ends point nowhere. */
  ghost predicate Linked(nodes: seq<Element>)
    reads nodes
  {
    && (forall i {:trigger nodes[i].prev} :: 0 <= i < |nodes| ==> nodes[i].prev == if i == 0 then null else nodes[i - 1])
    && (forall i {:trigger nodes[i].next} :: 0 <= i < |nodes| ==> nodes[i].next == if i + 1 == |nodes| then null else nodes[i + 1])
  }

  class ObjectList {
    var m_head: Element?
    var m_tail: Element?
    var m_current: Element?
    var m_number: nat

    ghost var nodes: seq<Element>  // the elements from head to tail

    ghost predicate Valid()
      reads this, nodes
    {
      && Distinct(nodes)
      && m_number == |nodes|
      && (nodes == [] ==> m_head == null && m_tail == null)
      && (nodes != [] ==> m_head == nodes[0] && m_tail == nodes[|nodes| - 1])
      && Linked(nodes)
    }

    /** The iterator stands at an element of the list or at its end. */
    ghost predicate CurrentIn()
      reads this
    {
      m_current == null || m_current in nodes
    }

    /** How many elements the iterator has passed. */
    ghost function Passed(): (k: nat)
      requires CurrentIn()
      reads this
      ensures k <= |nodes|
      ensures m_current == null ==> k == |nodes|
      ensures m_current != null ==> k < |nodes| && nodes[k] == m_current
    {
      if m_current == null then |nodes| else IndexOf(nodes, m_current)
    }

    static ghost function IndexOf(s: seq<Element>, e: Element): (i: nat)
      requires e in s
      ensures i < |s| && s[i] == e
    {
      var i :| 0 <= i < |s| && s[i] == e;
      i
    }

    constructor ()
      ensures Valid() && nodes == [] && m_current == null
    {
      m_head, m_tail, m_current := null, null, null;
      m_number := 0;
      nodes := [];
    }

    /** AddHead */
    method AddHead(newObject: Object) returns (ok: bool, ghost e: Element)
      requires Valid()
      modifies this`m_head, this`m_tail, this`m_number, this`nodes, nodes
      ensures Valid() && ok && fresh(e) && e.obj == newObject && nodes == [e] + old(nodes)
    {
      var newElement := new Element(newObject);
      if m_head != null {
        newElement.next := m_head;
        m_head.prev := newElement;
      }
      m_head := newElement;
      if m_tail == null {
        m_tail := m_head;
      }
      m_number := m_number + 1;
      nodes := [newElement] + nodes;
      ok, e := true, newElement;
    }

    /** AddTail, Add */
    method AddTail(newObject: Object) returns (ok: bool, ghost e: Element)
      requires Valid()
      modifies this`m_head, this`m_tail, this`m_number, this`nodes, nodes
      ensures Valid() && ok && fresh(e) && e.obj == newObject && nodes == old(nodes) + [e]
    {
      var newElement := new Element(newObject);
      if m_tail != null {
        newElement.prev := m_tail;
        m_tail.next := newElement;
      }
      m_tail := newElement;
      if m_head == null {
        m_head := m_tail;
      }
      m_number := m_number + 1;
      nodes := nodes + [newElement];
      ok, e := true, newElement;
    }

    /** RemoveHead. An iterator standing at the head is left behind. */
    method RemoveHead() returns (retObj: Object)
      requires Valid()
      modifies this`m_head, this`m_tail, this`m_number, this`nodes, nodes
      ensures Valid()
      ensures if old(nodes) == [] then retObj == 0 && nodes == []
              else retObj == old(nodes)[0].obj && nodes == old(nodes)[1..]
      ensures old(CurrentIn()) ==> (CurrentIn() <==> old(nodes) == [] || m_current != old(nodes)[0])
    {
      if m_head != null {
        retObj := m_head.obj;
        var newHead := m_head.next;
        if newHead != null {
          newHead.prev := null;
        }
        if m_tail == m_head {
          m_tail := null;
        }
        m_head := newHead;
        m_number := m_number - 1;
        nodes := nodes[1..];
      } else {
        retObj := 0;
      }
    }

    /** RemoveTail. An iterator standing at the tail is left behind. */
    method RemoveTail() returns (retObj: Object)
      requires Valid()
      modifies this`m_head, this`m_tail, this`m_number, this`nodes, nodes
      ensures Valid()
      ensures if old(nodes) == [] then retObj == 0 && nodes == []
              else retObj == old(nodes)[|old(nodes)| - 1].obj && nodes == old(nodes)[..|old(nodes)| - 1]
      ensures old(CurrentIn()) ==> (CurrentIn() <==> old(nodes) == [] || m_current != old(nodes)[|old(nodes)| - 1])
    {
      if m_tail != null {
        retObj := m_tail.obj;
        var newTail := m_tail.prev;
        if newTail != null {
          newTail.next := null;
        }
        if m_head == m_tail {
          m_head := null;
        }
        m_tail := newTail;
        m_number := m_number - 1;
        nodes := nodes[..|nodes| - 1];
      } else {
        retObj := 0;
      }
    }

    /** IsEmpty, CountElements */
    method Count() returns (empty: bool, n: nat)
      requires Valid()
      ensures empty <==> nodes == []
      ensures n == |nodes|
    {
      empty := m_head == null;
      n := m_number;
    }

    /** The search that Contains and Remove share. */
    method Find(obj: Object) returns (e: Element?, ghost k: nat)
      requires Valid()
      ensures k == FirstIndex(Objects(nodes), obj)
      ensures if k == |nodes| then e == null else e == nodes[k]
    {
      hide Objects;
      e, k := m_head, 0;
      while e != null && e.obj != obj
        invariant k <= |nodes| && if k == |nodes| then e == null else e == nodes[k]
        invariant forall i :: 0 <= i < k ==> nodes[i].obj != obj
        decreases |nodes| - k
      {
        e, k := e.next, k + 1;
      }
    }

    /** Contains: a found object becomes the iterator's position. */
    method Contains(obj: Object) returns (found: bool)
      requires Valid()
      modifies this`m_current
      ensures found <==> obj in Objects(nodes)
      ensures Valid()
      ensures m_current == if found then nodes[FirstIndex(Objects(nodes), obj)] else old(m_current)
    {
      hide Objects;
      var e, k := Find(obj);
      if e != null {
        m_current := e;
        return true;
      }
      return false;
    }

    /** Clear */
    method Clear()
      modifies this
      ensures Valid() && nodes == [] && m_current == null
    {
      m_head, m_tail, m_current := null, null, null;
      m_number := 0;
      nodes := [];
    }

    /** Remove: the first element with the object goes. An iterator standing there moves on, so
        that going on visits exactly what it would have visited, but for the removed element. */
    method Remove(obj: Object) returns (found: bool)
      requires Valid()
      modifies this`m_head, this`m_tail, this`m_current, this`m_number, this`nodes, nodes
      ensures Valid() && (found <==> obj in Objects(old(nodes)))
      ensures if !found then nodes == old(nodes) && m_current == old(m_current)
              else var k := FirstIndex(Objects(old(nodes)), obj);
                   && nodes == Without(old(nodes), k)
                   && m_current == if old(m_current) != old(nodes)[k] then old(m_current)
                                   else if k + 1 == |old(nodes)| then null else old(nodes)[k + 1]
      ensures found && old(CurrentIn()) ==>
                var k := FirstIndex(Objects(old(nodes)), obj);
                CurrentIn() && Passed() == if k < old(Passed()) then old(Passed()) - 1 else old(Passed())
    {
      hide Objects, Without, Linked, Passed;
      var e, k := Find(obj);
      if e != null {
        ghost var before, current := nodes, m_current;
        ghost var passed := if CurrentIn() then Passed() else 0;
        Unlink(e, k);
        if old(CurrentIn()) {
          PassedAfter(before, k, current, passed);
        }
      }
      found := e != null;
    }

    lemma PassedAfter(before: seq<Element>, k: nat, current: Element?, passed: nat)
      requires Valid() && Distinct(before) && k < |before| && nodes == Without(before, k)
      requires passed <= |before| && current == if passed == |before| then null else before[passed]
      requires m_current == if current != before[k] then current
                            else if k + 1 == |before| then null else before[k + 1]
      ensures CurrentIn() && Passed() == if k < passed then passed - 1 else passed
    {
      WithoutAt(before, k);
      hide Without, Linked;
      var p := if k < passed then passed - 1 else passed;
      assert p < |nodes| ==> nodes[p] == m_current;
    }

    /** The part of Remove that takes an element out of the chain. */
    method Unlink(e: Element, ghost k: nat)
      requires Valid() && k < |nodes| && e == nodes[k]
      modifies this`m_head, this`m_tail, this`m_current, this`m_number, this`nodes, nodes
      ensures Valid() && nodes == Without(old(nodes), k)
      ensures m_current == if old(m_current) != e then old(m_current)
                           else if k + 1 == |old(nodes)| then null else old(nodes)[k + 1]
    {
      hide Linked;
      EndsOf(k);
      Bypass(e, k);
      if m_head == e {
        m_head := e.next;
      }
      if m_tail == e {
        m_tail := e.prev;
      }
      if m_current == e {
        m_current := e.next;
      }
      m_number := m_number - 1;
      nodes := Without(nodes, k);
    }

    lemma EndsOf(k: nat)
      requires Valid() && k < |nodes|
      ensures nodes[k].prev == if k == 0 then null else nodes[k - 1]
      ensures nodes[k].next == if k + 1 == |nodes| then null else nodes[k + 1]
      ensures (k == 0 <==> m_head == nodes[k]) && (k == |nodes| - 1 <==> m_tail == nodes[k])
      ensures |Without(nodes, k)| == |nodes| - 1 && Distinct(Without(nodes, k))
    {
      WithoutAt(nodes, k);
    }

    /** Makes the neighbours of an element point to each other. */
    method Bypass(e: Element, ghost k: nat)
      requires Valid() && k < |nodes| && e == nodes[k]
      modifies nodes
      ensures Linked(Without(nodes, k)) && e.prev == old(e.prev) && e.next == old(e.next)
    {
      ghost var less := Without(nodes, k);
      WithoutAt(nodes, k);
      if e.prev != null {
        e.prev.next := e.next;
      }
      if e.next != null {
        e.next.prev := e.prev;
      }
      hide Without;
      forall i | 0 <= i < |less| ensures less[i].prev == if i == 0 then null else less[i - 1] {
        assert i > k ==> less[i] == nodes[i + 1] && less[i - 1] == nodes[i];
      }
      forall i | 0 <= i < |less| ensures less[i].next == if i + 1 == |less| then null else less[i + 1] {
        assert i >= k ==> less[i] == nodes[i + 1];
      }
    }

    /** GetFirst */
    method GetFirst() returns (obj: Object)
      requires Valid()
      modifies this`m_current
      ensures Valid() && CurrentIn()
      ensures if nodes == [] then obj == 0 && Passed() == 0 else obj == nodes[0].obj && Passed() == 1
    {
      if m_head != null {
        m_current := m_head.next;
        obj := m_head.obj;
      } else {
        m_current := null;
        obj := 0;
      }
    }

    /** GetNext */
    method GetNext() returns (obj: Object)
      requires Valid() && CurrentIn()
      modifies this`m_current
      ensures Valid() && CurrentIn()
      ensures if old(Passed()) == |nodes| then obj == 0 && m_current == null
              else obj == nodes[old(Passed())].obj && Passed() == old(Passed()) + 1
    {
      obj := 0;
      if m_current != null {
        obj := m_current.obj;
        m_current := m_current.next;
      }
    }
  }

  /** Where an object first stands, or the length if it is not there. */
  function FirstIndex(objects: seq<Object>, obj: Object): (k: nat)
    ensures k <= |objects|
    ensures k < |objects| <==> obj in objects
    ensures k < |objects| ==> objects[k] == obj
    ensures forall i :: 0 <= i < k ==> objects[i] != obj
  {
    if objects == [] || objects[0] == obj then 0 else 1 + FirstIndex(objects[1..], obj)
  }

  // ----- going through a list while taking elements out

  /** The objects that a sweep keeps. */
  function Kept(objects: seq<Object>, unwanted: Object -> bool): (kept: seq<Object>)
    ensures |kept| <= |objects|
  {
    if objects == [] then []
    else (if unwanted(objects[0]) then [] else [objects[0]]) + Kept(objects[1..], unwanted)
  }

  /** A sweep keeps exactly what is wanted. */
  lemma {:induction false} KeptWanted(objects: seq<Object>, unwanted: Object -> bool, o: Object)
    ensures o in Kept(objects, unwanted) <==> o in objects && !unwanted(o)
  {
    if objects != [] {
      KeptWanted(objects[1..], unwanted, o);
    }
  }

  lemma {:induction false} KeptSnoc(objects: seq<Object>, o: Object, unwanted: Object -> bool)
    ensures Kept(objects + [o], unwanted) == Kept(objects, unwanted) + if unwanted(o) then [] else [o]
  {
    if objects != [] {
      assert (objects + [o])[1..] == objects[1..] + [o];
      KeptSnoc(objects[1..], o, unwanted);
    }
  }

  ghost function Elements(nodes: seq<Element>): set<Element> {
    set e | e in nodes
  }

  /** In a sweep over `all`, v objects are dealt with and the iterator stands at the next. */
  ghost predicate SweptTo(list: ObjectList, all: seq<Object>, v: nat, unwanted: Object -> bool)
    reads list, list.nodes
  {
    && list.Valid() && list.CurrentIn() && v <= |all|
    && Objects(list.nodes) == Kept(all[..v], unwanted) + all[v..]
    && list.Passed() == |Kept(all[..v], unwanted)|
  }

  /** In a sweep over `all`, obj has just been returned; v objects were dealt with before it. */
  ghost predicate Returned(list: ObjectList, all: seq<Object>, v: nat, obj: Object, unwanted: Object -> bool)
    reads list, list.nodes
  {
    && list.Valid() && list.CurrentIn() && v <= |all|
    && Objects(list.nodes) == Kept(all[..v], unwanted) + all[v..]
    && if v == |all| then obj == 0
       else obj == all[v] && list.Passed() == |Kept(all[..v], unwanted)| + 1
  }

  /** A loop over the list whose body removes the element just returned: every original
      object is visited once, in order, and the kept ones stay in order. */
  method Sweep(list: ObjectList, unwanted: Object -> bool) returns (visited: seq<Object>)
    requires list.Valid() && Distinct(Objects(list.nodes)) && 0 !in Objects(list.nodes)
    modifies list, list.nodes
    ensures list.Valid() && visited == old(Objects(list.nodes))
    ensures Objects(list.nodes) == Kept(old(Objects(list.nodes)), unwanted)
  {
    ghost var all, repr := Objects(list.nodes), Elements(list.nodes);
    var obj := list.GetFirst();
    SweepStarts(list, obj, unwanted);
    hide *;
    visited := SweepOn(list, unwanted, obj, all, repr);
  }

  /** The loop itself. */
  method SweepOn(list: ObjectList, unwanted: Object -> bool, first: Object, ghost all: seq<Object>, ghost repr: set<Element>)
    returns (visited: seq<Object>)
    requires Returned(list, all, 0, first, unwanted) && Elements(list.nodes) <= repr
    requires 0 !in all && Distinct(all)
    modifies list, repr
    ensures list.Valid() && visited == all && Objects(list.nodes) == Kept(all, unwanted)
  {
    hide *;
    var obj := first;
    visited := [];
    while obj != 0
      invariant Returned(list, all, |visited|, obj, unwanted) && Elements(list.nodes) <= repr
      invariant visited <= all
      decreases |all| - |visited|
    {
      visited, obj := VisitOne(list, unwanted, obj, visited, all, repr);
    }
    ReturnedFacts(list, all, |visited|, obj, unwanted);
  }

  /** The object goes to the record and, if it is unwanted, out of the list. */
  method VisitOne(list: ObjectList, unwanted: Object -> bool, obj: Object, visited: seq<Object>,
                  ghost all: seq<Object>, ghost repr: set<Element>)
    returns (visited': seq<Object>, next: Object)
    requires Returned(list, all, |visited|, obj, unwanted) && Elements(list.nodes) <= repr
    requires obj != 0 && 0 !in all && Distinct(all) && visited <= all
    modifies list, repr
    ensures Returned(list, all, |visited'|, next, unwanted) && Elements(list.nodes) <= repr
    ensures visited' <= all && |visited'| == |visited| + 1
  {
    hide Objects, Kept, ObjectList.Valid, ObjectList.Passed, ObjectList.CurrentIn, Returned, SweptTo, Distinct, Elements;
    ReturnedFacts(list, all, |visited|, obj, unwanted);
    PrefixGrows(visited, all);
    TakeBody(list, unwanted, obj, all, |visited|, repr);
    visited' := visited + [obj];
    next := Advance(list, unwanted, all, |visited'|);
  }

  lemma PrefixGrows<T>(s: seq<T>, all: seq<T>)
    requires s <= all && |s| < |all|
    ensures s + [all[|s|]] <= all
  {
  }

  lemma SweepStarts(list: ObjectList, obj: Object, unwanted: Object -> bool)
    requires list.Valid() && list.CurrentIn()
    requires if list.nodes == [] then obj == 0 && list.Passed() == 0 else obj == list.nodes[0].obj && list.Passed() == 1
    ensures Returned(list, Objects(list.nodes), 0, obj, unwanted)
  {
    var all := Objects(list.nodes);
    assert all[..0] == [] && all[0..] == all;
  }

  lemma ReturnedFacts(list: ObjectList, all: seq<Object>, v: nat, obj: Object, unwanted: Object -> bool)
    requires Returned(list, all, v, obj, unwanted) && 0 !in all
    ensures list.Valid() && v <= |all|
    ensures if obj != 0 then v < |all| && obj == all[v] else v == |all| && Objects(list.nodes) == Kept(all, unwanted)
  {
    if v == |all| {
      assert all[..v] == all && all[v..] == [];
    } else {
      assert all[v] in all;
    }
  }

  /** The body of such a loop. */
  method TakeBody(list: ObjectList, unwanted: Object -> bool, obj: Object,
                  ghost all: seq<Object>, ghost v: nat, ghost repr: set<Element>)
    requires Returned(list, all, v, obj, unwanted) && v < |all| && Distinct(all) && Elements(list.nodes) <= repr
    modifies list, repr
    ensures SweptTo(list, all, v + 1, unwanted) && Elements(list.nodes) <= repr
  {
    hide Objects, Kept, ObjectList.Valid, Distinct, ObjectList.Passed, Without;
    ghost var kept := Kept(all[..v], unwanted);
    assert all[..v + 1] == all[..v] + [obj];
    KeptSnoc(all[..v], obj, unwanted);
    if unwanted(obj) {
      WhereItStands(kept, all, v, unwanted);
      ghost var before := list.nodes;
      var _ := list.Remove(obj);
      ObjectsWithout(before, |kept|);
    } else {
      assert kept + all[v..] == (kept + [obj]) + all[v + 1..];
    }
  }

  /** The step to the next object. */
  method Advance(list: ObjectList, unwanted: Object -> bool, ghost all: seq<Object>, ghost v: nat) returns (obj: Object)
    requires SweptTo(list, all, v, unwanted)
    modifies list`m_current
    ensures Returned(list, all, v, obj, unwanted)
  {
    hide Kept, ObjectList.Valid;
    obj := list.GetNext();
  }

  /** The object at v stands behind those kept so far. */
  lemma WhereItStands(kept: seq<Object>, all: seq<Object>, v: nat, unwanted: Object -> bool)
    requires v < |all| && Distinct(all) && kept == Kept(all[..v], unwanted)
    ensures FirstIndex(kept + all[v..], all[v]) == |kept|
    ensures Without(kept + all[v..], |kept|) == kept + all[v + 1..]
  {
    hide Kept;
    assert all[v] !in all[..v];
    KeptWanted(all[..v], unwanted, all[v]);
    var s := kept + all[v..];
    assert forall i :: 0 <= i < |kept| ==> s[i] in kept;
    assert s[|kept|] == all[v];
  }

  lemma ObjectsWithout(nodes: seq<Element>, k: nat)
    requires k < |nodes|
    ensures Objects(Without(nodes, k)) == Without(Objects(nodes), k)
    ensures Elements(Without(nodes, k)) <= Elements(nodes)
  {
  }
}
