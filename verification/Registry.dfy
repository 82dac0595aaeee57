/** The registries of console commands and console variables: two linked lists, both sorted by
    name without regard to case, that share one namespace. */
module Registry {
  import opened Names
  import opened Sequences

  // ----- the lists as sequences of entries

  datatype Entry = Entry(name: string, flags: bv32)

  predicate Sorted(es: seq<Entry>) {
    forall i, j :: 0 <= i < j < |es| ==> Stricmp(es[i].name, es[j].name) < 0
  }

  /** Where the name is found, or the end: Cmd_Exists and Cvar_FindVar. */
  function Find(es: seq<Entry>, name: string): (k: nat)
    ensures k <= |es|
    ensures k < |es| ==> Stricmp(name, es[k].name) == 0
    ensures forall i :: 0 <= i < k ==> Stricmp(name, es[i].name) != 0
  {
    if es == [] || Stricmp(name, es[0].name) == 0 then 0 else 1 + Find(es[1..], name)
  }

  predicate Defines(es: seq<Entry>, name: string) {
    Find(es, name) < |es|
  }

  /** The first place with a bigger name, or the end. */
  function Place(es: seq<Entry>, name: string): (k: nat)
    ensures k <= |es|
    ensures k < |es| ==> Stricmp(es[k].name, name) > 0
    ensures forall i :: 0 <= i < k ==> Stricmp(es[i].name, name) <= 0
  {
    if es == [] || Stricmp(es[0].name, name) > 0 then 0 else 1 + Place(es[1..], name)
  }

  function Inserted(es: seq<Entry>, e: Entry): seq<Entry> {
    var k := Place(es, e.name);
    es[..k] + [e] + es[k..]
  }

  predicate Has(flags: bv32, flag: bv32) {
    flags & flag != 0
  }

  /** That is: some bit is set in both. */
  lemma HasSharesBit(flags: bv32, k: nat)
    requires k < 32
    ensures Has(flags, 1 << k) <==> (flags >> k) & 1 == 1
  {
  }

  lemma HasEither(flags: bv32, a: bv32, b: bv32)
    ensures Has(flags, a | b) <==> Has(flags, a) || Has(flags, b)
    ensures !Has(flags, 0)
  {
    AndOverOr(flags, a, b);
    EitherBit(flags & a, flags & b);
  }

  lemma AndOverOr(flags: bv32, a: bv32, b: bv32)
    ensures flags & (a | b) == (flags & a) | (flags & b)
  {
  }

  lemma EitherBit(x: bv32, y: bv32)
    ensures x | y != 0 <==> x != 0 || y != 0
  {
  }

  /** The entries without the flag, in their order. */
  function Kept(es: seq<Entry>, flag: bv32): (r: seq<Entry>)
    ensures forall e :: e in r <==> e in es && !Has(e.flags, flag)
  {
    if es == [] then []
    else if Has(es[0].flags, flag) then Kept(es[1..], flag)
    else [es[0]] + Kept(es[1..], flag)
  }

  /** What Cmd_RemoveCmd leaves: it finds an entry only behind another one. */
  function Removed(es: seq<Entry>, name: string): seq<Entry> {
    var k := Find(es, name);
    if 0 < k < |es| then es[..k] + es[k + 1..] else es
  }

  // ----- what the operations make of the two lists

  datatype Lists = Lists(commands: seq<Entry>, variables: seq<Entry>)

  predicate Taken(s: Lists, name: string) {
    Defines(s.commands, name) || Defines(s.variables, name)
  }

  predicate Apart(s: Lists) {
    forall i, j :: 0 <= i < |s.commands| && 0 <= j < |s.variables| ==>
        Stricmp(s.commands[i].name, s.variables[j].name) != 0
  }

  /** Both lists are strictly increasing and no name is in both. */
  predicate Consistent(s: Lists) {
    Sorted(s.commands) && Sorted(s.variables) && Apart(s)
  }

  const FCVAR_EXTDLL: bv32 := 8
  const FCVAR_CLIENTDLL: bv32 := 16

  datatype Op =
    | AddCommand(entry: Entry)
    | RegisterVariable(entry: Entry)
    | RemoveCommand(name: string)
    | RemoveCommands(flag: bv32)
    | RemoveVariables(flag: bv32)

  function Step(s: Lists, op: Op): Lists {
    match op
    case AddCommand(e) => if Taken(s, e.name) then s else s.(commands := Inserted(s.commands, e))
    case RegisterVariable(e) => if Taken(s, e.name) then s else s.(variables := Inserted(s.variables, e))
    case RemoveCommand(name) => s.(commands := Removed(s.commands, name))
    case RemoveCommands(flag) => s.(commands := Kept(s.commands, flag))
    case RemoveVariables(flag) => s.(variables := Kept(s.variables, flag))
  }

  function Run(s: Lists, ops: seq<Op>): Lists
    decreases |ops|
  {
    if ops == [] then s else Run(Step(s, ops[0]), ops[1..])
  }

  const EMPTY := Lists([], [])

  // ----- every run keeps both orders and the shared namespace

  lemma {:induction false} RunKeepsConsistent(s: Lists, ops: seq<Op>)
    requires Consistent(s)
    ensures Consistent(Run(s, ops))
    decreases |ops|
  {
    if ops != [] {
      StepKeepsConsistent(s, ops[0]);
      RunKeepsConsistent(Step(s, ops[0]), ops[1..]);
    }
  }

  /** The shared sorted namespace, over every run from the start of the engine. */
  lemma NamespaceInvariant(ops: seq<Op>, name: string)
    ensures var s := Run(EMPTY, ops);
            Consistent(s) && !(Defines(s.commands, name) && Defines(s.variables, name))
  {
    hide Stricmp;
    RunKeepsConsistent(EMPTY, ops);
    NotInBoth(Run(EMPTY, ops), name);
  }

  lemma NotInBoth(s: Lists, name: string)
    requires Consistent(s)
    ensures !(Defines(s.commands, name) && Defines(s.variables, name))
  {
    hide Stricmp;
    if Defines(s.commands, name) && Defines(s.variables, name) {
      var a, b := s.commands[Find(s.commands, name)].name, s.variables[Find(s.variables, name)].name;
      StricmpFlip(name, a);
      StricmpOrder(a, name, b);
      StricmpFlip(b, name);
      StricmpFlip(a, b);
      StricmpOrder(b, name, a);
    }
  }

  lemma StepKeepsConsistent(s: Lists, op: Op)
    requires Consistent(s)
    ensures Consistent(Step(s, op))
  {
    hide Stricmp, Find, Inserted, Removed, Kept;
    match op {
      case AddCommand(e) =>
        if !Taken(s, e.name) {
          InsertedSorted(s.commands, e);
          InsertedApart(s.commands, s.variables, e);
        }
      case RegisterVariable(e) =>
        if !Taken(s, e.name) {
          InsertedSorted(s.variables, e);
          InsertedApart(s.variables, s.commands, e);
          FlipApart(Step(s, op));
        }
      case RemoveCommand(name) =>
        RemovedPart(s.commands, name);
        ApartPart(s, Removed(s.commands, name), s.variables);
      case RemoveCommands(flag) =>
        KeptPart(s.commands, flag);
      case RemoveVariables(flag) =>
        KeptPart(s.variables, flag);
    }
  }

  lemma InsertedSorted(es: seq<Entry>, e: Entry)
    requires Sorted(es) && !Defines(es, e.name)
    ensures Sorted(Inserted(es, e))
  {
    hide Stricmp;
    var k := Place(es, e.name);
    var r := Inserted(es, e);
    forall i, j | 0 <= i < j < |r| ensures Stricmp(r[i].name, r[j].name) < 0 {
      if i < k == j {
        StricmpFlip(e.name, es[i].name);
      } else if i == k < j {
        StricmpFlip(e.name, es[k].name);
        if j > k + 1 {
          StricmpOrder(e.name, es[k].name, es[j - 1].name);
        }
      }
    }
  }

  lemma InsertedMembers(es: seq<Entry>, e: Entry)
    ensures forall x :: x in Inserted(es, e) <==> x == e || x in es
  {
    var k := Place(es, e.name);
    assert es == es[..k] + es[k..];
  }

  lemma InsertedApart(es: seq<Entry>, others: seq<Entry>, e: Entry)
    requires !Defines(others, e.name)
    requires Apart(Lists(es, others)) || Apart(Lists(others, es))
    ensures Apart(Lists(Inserted(es, e), others))
  {
    hide Stricmp;
    InsertedMembers(es, e);
    var r := Inserted(es, e);
    forall i, j | 0 <= i < |r| && 0 <= j < |others| ensures Stricmp(r[i].name, others[j].name) != 0 {
      assert r[i] in r;
      if r[i] != e {
        var k :| 0 <= k < |es| && es[k] == r[i];
        StricmpFlip(es[k].name, others[j].name);
      }
    }
  }

  lemma FlipApart(s: Lists)
    requires Apart(Lists(s.variables, s.commands))
    ensures Apart(s)
  {
    hide Stricmp;
    forall i, j | 0 <= i < |s.commands| && 0 <= j < |s.variables|
      ensures Stricmp(s.commands[i].name, s.variables[j].name) != 0
    {
      StricmpFlip(s.commands[i].name, s.variables[j].name);
    }
  }

  lemma RemovedPart(es: seq<Entry>, name: string)
    requires Sorted(es)
    ensures Sorted(Removed(es, name)) && forall e :: e in Removed(es, name) ==> e in es
  {
    hide Stricmp, Find;
    var k := Find(es, name);
    if 0 < k < |es| {
      WithoutEntry(es, k);
    }
  }

  lemma WithoutEntry(es: seq<Entry>, k: nat)
    requires k < |es| && Sorted(es)
    ensures var r := es[..k] + es[k + 1..]; Sorted(r) && forall e :: e in r ==> e in es
  {
    hide Stricmp;
    var r := es[..k] + es[k + 1..];
    assert forall i :: 0 <= i < |r| ==> r[i] == if i < k then es[i] else es[i + 1];
  }

  lemma {:induction false} KeptPart(es: seq<Entry>, flag: bv32)
    requires Sorted(es)
    ensures Sorted(Kept(es, flag))
  {
    hide Stricmp, Has;
    if es != [] {
      KeptPart(es[1..], flag);
      var r := Kept(es[1..], flag);
      forall j | 0 <= j < |r| ensures Stricmp(es[0].name, r[j].name) < 0 {
        assert r[j] in es[1..];
      }
    }
  }

  lemma ApartPart(s: Lists, commands: seq<Entry>, variables: seq<Entry>)
    requires Apart(s)
    requires forall e :: e in commands ==> e in s.commands
    requires forall e :: e in variables ==> e in s.variables
    ensures Apart(Lists(commands, variables))
  {
    hide Stricmp;
    forall i, j | 0 <= i < |commands| && 0 <= j < |variables|
      ensures Stricmp(commands[i].name, variables[j].name) != 0
    {
      assert commands[i] in s.commands && variables[j] in s.variables;
    }
  }

  // ----- what is found after an operation

  lemma DefinesIff(es: seq<Entry>, name: string)
    ensures Defines(es, name) <==> exists e :: e in es && Stricmp(name, e.name) == 0
    ensures Defines(es, name) <==> exists e :: e in es && SameName(name, e.name)
  {
    hide Stricmp, Find, SameName;
    forall e: Entry ensures Stricmp(name, e.name) == 0 <==> SameName(name, e.name) {
      StricmpSame(name, e.name);
    }
    var k := Find(es, name);
    if k < |es| {
      assert es[k] in es;
    }
  }

  /** Names that differ in case only find the same entry. */
  lemma {:induction false} FindAnySpelling(es: seq<Entry>, a: string, b: string)
    requires SameName(a, b)
    ensures Find(es, a) == Find(es, b)
  {
    hide Stricmp, SameName;
    if es != [] {
      SameSpelling(a, b, es[0].name);
      FindAnySpelling(es[1..], a, b);
    }
  }

  /** Adding defines the new name, unless it was taken, and no other. */
  lemma AddedIsFound(s: Lists, e: Entry, name: string)
    ensures Taken(Step(s, AddCommand(e)), name) <==> Taken(s, name) || SameName(name, e.name)
    ensures Taken(Step(s, RegisterVariable(e)), name) <==> Taken(s, name) || SameName(name, e.name)
  {
    hide Stricmp, Find, SameName, Inserted;
    StricmpSame(name, e.name);
    if Taken(s, e.name) {
      if SameName(name, e.name) {
        FindAnySpelling(s.commands, name, e.name);
        FindAnySpelling(s.variables, name, e.name);
      }
    } else {
      InsertedDefines(s.commands, e, name);
      InsertedDefines(s.variables, e, name);
    }
  }

  lemma InsertedDefines(es: seq<Entry>, e: Entry, name: string)
    ensures Defines(Inserted(es, e), name) <==> Defines(es, name) || Stricmp(name, e.name) == 0
  {
    hide Stricmp, Find, Inserted;
    InsertedMembers(es, e);
    DefinesIff(es, name);
    DefinesIff(Inserted(es, e), name);
  }

  /** Cmd_RemoveCmd takes out the command of that name and nothing else, but it misses the
      first command of the list: the name stays defined exactly if it was first. */
  lemma RemovedUnlessFirst(es: seq<Entry>, name: string)
    requires Sorted(es)
    ensures Defines(Removed(es, name), name) <==> es != [] && Stricmp(name, es[0].name) == 0
    ensures forall e :: e in Removed(es, name) <==>
                e in es && (Stricmp(name, e.name) != 0 || Stricmp(name, es[0].name) == 0)
  {
    hide Stricmp, Find;
    var k := Find(es, name);
    SameNameSamePlace(es, name);
    DefinesIff(Removed(es, name), name);
  }

  /** The only command of a list cannot be removed. */
  lemma OnlyCommandStays(e: Entry)
    ensures Removed([e], e.name) == [e] && Defines(Removed([e], e.name), e.name)
  {
    StricmpSame(e.name, e.name);
  }

  lemma SameNameSamePlace(es: seq<Entry>, name: string)
    requires Sorted(es)
    ensures forall i :: 0 <= i < |es| && Stricmp(name, es[i].name) == 0 ==> i == Find(es, name)
  {
    hide Stricmp;
    forall i | 0 <= i < |es| && Stricmp(name, es[i].name) == 0 ensures i == Find(es, name) {
      var k := Find(es, name);
      if k < i {
        StricmpFlip(name, es[k].name);
        StricmpOrder(es[k].name, name, es[i].name);
        StricmpFlip(es[i].name, name);
        StricmpOrder(es[i].name, name, es[k].name);
        StricmpFlip(es[i].name, es[k].name);
      }
    }
  }

  // ----- the order of registration leaves no trace

  /** A sorted list is determined by the entries in it. */
  lemma {:induction false} SortedUnique(es: seq<Entry>, fs: seq<Entry>)
    requires Sorted(es) && Sorted(fs) && forall e :: e in es <==> e in fs
    ensures es == fs
  {
    hide Stricmp;
    if es == [] {
      if fs != [] {
        FirstIn(fs);
      }
    } else {
      assert es[0] in fs && fs != [] && fs[0] in es;
      SameFirst(es, fs);
      forall e ensures e in es[1..] <==> e in fs[1..] {
        NotAgain(es, e);
        NotAgain(fs, e);
      }
      SortedUnique(es[1..], fs[1..]);
    }
  }

  lemma FirstIn(es: seq<Entry>)
    requires es != []
    ensures es[0] in es
  {
  }

  lemma SameFirst(es: seq<Entry>, fs: seq<Entry>)
    requires Sorted(es) && Sorted(fs) && es != [] && fs != [] && es[0] in fs && fs[0] in es
    ensures es[0] == fs[0]
  {
    hide Stricmp;
    StricmpFlip(es[0].name, fs[0].name);
  }

  lemma NotAgain(es: seq<Entry>, e: Entry)
    requires Sorted(es) && es != []
    ensures e in es[1..] <==> e in es && e != es[0]
  {
    hide Stricmp;
    assert es == [es[0]] + es[1..];
    StricmpFlip(es[0].name, es[0].name);
  }

  /** Two commands of different names can be added in either order. */
  lemma OrderIrrelevant(s: Lists, a: Entry, b: Entry)
    requires Consistent(s) && !SameName(a.name, b.name)
    ensures Step(Step(s, AddCommand(a)), AddCommand(b)) == Step(Step(s, AddCommand(b)), AddCommand(a))
    ensures Step(Step(s, AddCommand(a)), RegisterVariable(b)) == Step(Step(s, RegisterVariable(b)), AddCommand(a))
  {
    hide Stricmp, Find, SameName, Inserted, Taken;
    SameNameFlip(a.name, b.name);
    AddedIsFound(s, a, b.name);
    AddedIsFound(s, b, a.name);
    if !Taken(s, a.name) && !Taken(s, b.name) {
      var ab := Step(Step(s, AddCommand(a)), AddCommand(b)).commands;
      var ba := Step(Step(s, AddCommand(b)), AddCommand(a)).commands;
      StepKeepsConsistent(s, AddCommand(a));
      StepKeepsConsistent(s, AddCommand(b));
      StepKeepsConsistent(Step(s, AddCommand(a)), AddCommand(b));
      StepKeepsConsistent(Step(s, AddCommand(b)), AddCommand(a));
      InsertedMembers(s.commands, a);
      InsertedMembers(s.commands, b);
      InsertedMembers(Inserted(s.commands, a), b);
      InsertedMembers(Inserted(s.commands, b), a);
      SortedUnique(ab, ba);
    }
  }

  // ----- the linked lists

  /** A cmd_function_t or a cvar_t. */
  class Node {
    const name: string
    const flags: bv32
    var next: Node?

    constructor (name: string, flags: bv32)
      ensures this.name == name && this.flags == flags && next == null
    {
      this.name, this.flags := name, flags;
      next := null;
    }
  }

  ghost function Entries(nodes: seq<Node>): (es: seq<Entry>)
    ensures |es| == |nodes|
    ensures forall i :: 0 <= i < |nodes| ==> es[i] == Entry(nodes[i].name, nodes[i].flags)
  {
    seq(|nodes|, i requires 0 <= i < |nodes| => Entry(nodes[i].name, nodes[i].flags))
  }

  ghost function NodeAt(nodes: seq<Node>, i: nat): Node? {
    if i < |nodes| then nodes[i] else null
  }

  ghost function NodeBefore(nodes: seq<Node>, i: nat): Node?
    requires i <= |nodes|
  {
    if i == 0 then null else nodes[i - 1]
  }

  /** The nodes hang together when their next fields hold these values. */
  ghost predicate Chain(head: Node?, nodes: seq<Node>, nexts: seq<Node?>) {
    && Distinct(nodes) && |nexts| == |nodes|
    && head == NodeAt(nodes, 0)
    && forall i :: 0 <= i < |nodes| ==> nexts[i] == NodeAt(nodes, i + 1)
  }

  ghost function Nexts(nodes: seq<Node>): (nexts: seq<Node?>)
    reads nodes
    ensures |nexts| == |nodes| && forall i :: 0 <= i < |nodes| ==> nexts[i] == nodes[i].next
  {
    seq(|nodes|, i requires 0 <= i < |nodes| reads nodes => nodes[i].next)
  }

  ghost predicate Linked(head: Node?, nodes: seq<Node>)
    reads nodes
  {
    && Distinct(nodes)
    && head == NodeAt(nodes, 0)
    && forall i :: 0 <= i < |nodes| ==> nodes[i].next == NodeAt(nodes, i + 1)
  }

  /** A list none of whose nodes were written is still what it was. */
  lemma StillLinked(head: Node?, nodes: seq<Node>, nexts: seq<Node?>)
    requires Chain(head, nodes, nexts)
    requires forall i :: 0 <= i < |nodes| ==> nodes[i].next == nexts[i]
    ensures Linked(head, nodes)
  {
  }

  lemma NowLinked(head: Node?, nodes: seq<Node>)
    requires Linked(head, nodes)
    ensures Chain(head, nodes, Nexts(nodes))
  {
  }

  /** The loop that Cmd_Exists and Cvar_FindVar share. */
  method FindName(head: Node?, name: string, ghost nodes: seq<Node>) returns (node: Node?)
    requires Linked(head, nodes)
    ensures node == NodeAt(nodes, Find(Entries(nodes), name))
  {
    hide Stricmp, Find, Entries;
    node := head;
    ghost var k := 0;
    while node != null && Stricmp(name, node.name) != 0
      invariant k <= |nodes| && node == NodeAt(nodes, k)
      invariant forall i :: 0 <= i < k ==> Stricmp(name, nodes[i].name) != 0
      decreases |nodes| - k
    {
      node, k := node.next, k + 1;
    }
    FoundAt(nodes, name, k);
  }

  lemma PlacedAt(nodes: seq<Node>, name: string, k: nat)
    requires k <= |nodes| && forall i :: 0 <= i < k ==> Stricmp(nodes[i].name, name) <= 0
    requires k < |nodes| ==> Stricmp(nodes[k].name, name) > 0
    ensures Place(Entries(nodes), name) == k
  {
    hide Stricmp, Place;
    var es := Entries(nodes);
    var p := Place(es, name);
    assert p < |es| ==> Stricmp(nodes[p].name, name) > 0;
    assert k < |es| ==> Stricmp(es[k].name, name) > 0;
  }

  lemma FoundAt(nodes: seq<Node>, name: string, k: nat)
    requires k <= |nodes| && forall i :: 0 <= i < k ==> Stricmp(name, nodes[i].name) != 0
    requires k < |nodes| ==> Stricmp(name, nodes[k].name) == 0
    ensures Find(Entries(nodes), name) == k
  {
    hide Stricmp, Find;
    var es := Entries(nodes);
    var f := Find(es, name);
    assert f < |es| ==> Stricmp(name, nodes[f].name) == 0;
    assert k < |es| ==> Stricmp(name, es[k].name) == 0;
  }

  /** Cmd_FindCmdPrev */
  method FindPrev(head: Node?, name: string, ghost nodes: seq<Node>) returns (prev: Node?)
    requires Linked(head, nodes) && Sorted(Entries(nodes))
    ensures var k := Find(Entries(nodes), name);
            prev == if 0 < k < |nodes| then nodes[k - 1] else null
  {
    hide Stricmp, Find;
    SameNameSamePlace(Entries(nodes), name);
    if head == null {
      return null;
    }
    prev := head;
    ghost var k := 0;
    while prev.next != null
      invariant k < |nodes| && prev == nodes[k]
      invariant forall i :: 1 <= i <= k ==> Stricmp(name, Entries(nodes)[i].name) != 0
      decreases |nodes| - k
    {
      if Stricmp(name, prev.next.name) == 0 {
        assert Stricmp(name, Entries(nodes)[k + 1].name) == 0;
        return;
      }
      prev, k := prev.next, k + 1;
    }
    prev := null;
  }

  /** Hangs a node in front of position k, behind prev; prev is null for the list head. */
  method LinkAt(head: Node?, prev: Node?, c: Node?, node: Node, ghost nodes: seq<Node>, ghost k: nat)
    returns (newHead: Node?)
    requires Linked(head, nodes) && k <= |nodes| && node !in nodes
    requires prev == NodeBefore(nodes, k) && c == NodeAt(nodes, k)
    modifies node, nodes
    ensures Linked(newHead, nodes[..k] + [node] + nodes[k..])
  {
    ghost var more := nodes[..k] + [node] + nodes[k..];
    WithNode(nodes, k, node);
    node.next := c;
    if prev == null {
      newHead := node;
    } else {
      prev.next := node;
      newHead := head;
    }
    forall i | 0 <= i < |more| ensures more[i].next == NodeAt(more, i + 1) {
      if i > k {
        assert more[i] == nodes[i - 1];
      }
    }
  }

  lemma WithNode(nodes: seq<Node>, k: nat, node: Node)
    requires k <= |nodes| && node !in nodes && Distinct(nodes)
    ensures var more := nodes[..k] + [node] + nodes[k..];
            && |more| == |nodes| + 1 && Distinct(more)
            && (forall i :: 0 <= i < |more| ==> more[i] == if i < k then nodes[i] else if i == k then node else nodes[i - 1])
  {
    var more := nodes[..k] + [node] + nodes[k..];
    forall i, j | 0 <= i < j < |more| ensures more[i] != more[j] {
      if i < k < j {
        assert more[i] == nodes[i] && more[j] == nodes[j - 1];
      }
    }
  }

  lemma WithoutNode(nodes: seq<Node>, k: nat)
    requires k < |nodes| && Distinct(nodes)
    ensures var less := nodes[..k] + nodes[k + 1..];
            && |less| == |nodes| - 1 && Distinct(less)
            && (forall i :: 0 <= i < |less| ==> less[i] == if i < k then nodes[i] else nodes[i + 1])
            && (forall i :: 0 <= i <= |less| ==> NodeAt(less, i) == NodeAt(nodes, if i < k then i else i + 1))
  {
  }

  /** Takes the node at position k, behind prev, out of the list. */
  method UnlinkAt(head: Node?, prev: Node?, c: Node, ghost nodes: seq<Node>, ghost k: nat)
    returns (newHead: Node?)
    requires Linked(head, nodes) && k < |nodes|
    requires prev == NodeBefore(nodes, k) && c == nodes[k]
    modifies nodes
    ensures Linked(newHead, nodes[..k] + nodes[k + 1..])
  {
    ghost var less := nodes[..k] + nodes[k + 1..];
    WithoutNode(nodes, k);
    if prev == null {
      newHead := c.next;
    } else {
      prev.next := c.next;
      newHead := head;
    }
    ghost var after := NodeAt(nodes, k + 1);
    forall i | 0 <= i < |less| ensures less[i].next == NodeAt(less, i + 1) {
      hide NodeAt;
      if i >= k {
        assert less[i] == nodes[i + 1];
      } else if i + 1 == k {
        assert less[i] == prev && prev.next == after;
      } else {
        assert less[i] == nodes[i] != prev;
      }
    }
  }

  /** Cmd_InsertCommand */
  method InsertCommand(head: Node?, cmd: Node, ghost nodes: seq<Node>)
    returns (newHead: Node?, ghost newNodes: seq<Node>)
    requires Linked(head, nodes) && cmd !in nodes
    modifies cmd, nodes
    ensures Linked(newHead, newNodes)
    ensures newNodes == var k := Place(Entries(nodes), cmd.name); nodes[..k] + [cmd] + nodes[k..]
  {
    hide Stricmp, Place, Entries;
    var c, prev := head, null;
    ghost var k := 0;
    while c != null
      invariant k <= |nodes| && c == NodeAt(nodes, k) && prev == NodeBefore(nodes, k)
      invariant forall i :: 0 <= i < k ==> Stricmp(nodes[i].name, cmd.name) <= 0
      decreases |nodes| - k
    {
      if Stricmp(c.name, cmd.name) > 0 {
        break;
      }
      prev, c, k := c, c.next, k + 1;
    }
    PlacedAt(nodes, cmd.name, k);
    newHead := LinkAt(head, prev, c, cmd, nodes, k);
    newNodes := nodes[..k] + [cmd] + nodes[k..];
  }

  /** The insertion of Cvar_RegisterVariable, with a dummy in front of the list. */
  method InsertVariable(head: Node?, variable: Node, ghost nodes: seq<Node>)
    returns (newHead: Node?, ghost newNodes: seq<Node>)
    requires Linked(head, nodes) && variable !in nodes
    modifies variable, nodes
    ensures Linked(newHead, newNodes)
    ensures newNodes == var k := Place(Entries(nodes), variable.name); nodes[..k] + [variable] + nodes[k..]
  {
    hide Stricmp, Place, Linked, Chain, Entries;
    ghost var nexts := Nexts(nodes);
    NowLinked(head, nodes);
    var dummyvar := new Node(" ", 0);
    dummyvar.next := head;
    StillLinked(head, nodes, nexts);
    WithDummy(head, nodes, dummyvar);
    ghost var all := [dummyvar] + nodes;
    var v, c := head, dummyvar;
    ghost var k := 0;
    while v != null
      invariant Linked(head, nodes) && Linked(dummyvar, all)
      invariant k <= |nodes| && v == NodeAt(nodes, k) && c == all[k]
      invariant forall i :: 0 <= i < k ==> Stricmp(nodes[i].name, variable.name) <= 0
      decreases |nodes| - k
    {
      if Stricmp(v.name, variable.name) > 0 {
        break;
      }
      NextOf(head, nodes, k);
      c, v, k := v, v.next, k + 1;
    }
    PlacedAt(nodes, variable.name, k);
    var first := LinkAt(dummyvar, c, v, variable, all, k + 1);
    newHead := dummyvar.next;
    newNodes := nodes[..k] + [variable] + nodes[k..];
    BehindDummy(nodes, dummyvar, variable, k);
    TailLinked(first, newNodes, dummyvar);
  }

  lemma BehindDummy(nodes: seq<Node>, dummy: Node, node: Node, k: nat)
    requires k <= |nodes|
    ensures var all := [dummy] + nodes;
            all[..k + 1] + [node] + all[k + 1..] == [dummy] + (nodes[..k] + [node] + nodes[k..])
  {
  }

  lemma WithDummy(head: Node?, nodes: seq<Node>, dummy: Node)
    requires Linked(head, nodes) && dummy !in nodes && dummy.next == head
    ensures Linked(dummy, [dummy] + nodes)
    ensures head == NodeAt(nodes, 0)
  {
    var all := [dummy] + nodes;
    assert forall i :: 1 <= i < |all| ==> all[i] == nodes[i - 1] && NodeAt(all, i + 1) == NodeAt(nodes, i);
  }

  lemma TailLinked(head: Node?, nodes: seq<Node>, first: Node)
    requires Linked(head, [first] + nodes)
    ensures Linked(first.next, nodes)
  {
    var all := [first] + nodes;
    assert all[0] == first;
    forall i | 0 <= i < |nodes| ensures nodes[i].next == NodeAt(nodes, i + 1) {
      assert all[i + 1].next == NodeAt(all, i + 2);
    }
    forall i, j | 0 <= i < j < |nodes| ensures nodes[i] != nodes[j] {
      assert all[i + 1] != all[j + 1];
    }
  }

  /** The loop that Cmd_RemoveMallocedCmds, Cvar_RemoveHudCvars and Cvar_UnlinkExternals share. */
  method UnlinkFlagged(head: Node?, flag: bv32, ghost nodes: seq<Node>)
    returns (newHead: Node?, ghost newNodes: seq<Node>)
    requires Linked(head, nodes)
    modifies nodes
    ensures Linked(newHead, newNodes)
    ensures Entries(newNodes) == Kept(Entries(nodes), flag)
    ensures forall i :: 0 <= i < |newNodes| ==> newNodes[i] in nodes
  {
    hide *;
    newHead, newNodes := head, nodes;
    var c, prev := head, null;
    ghost var k := 0;
    FirstStop(head, nodes, flag);
    while c != null
      invariant Linked(newHead, newNodes) && k <= |newNodes|
      invariant c == NodeAt(newNodes, k) && prev == NodeBefore(newNodes, k)
      invariant forall i :: 0 <= i < |newNodes| ==> newNodes[i] in nodes
      invariant KeptFrom(newNodes, k, flag) == Kept(Entries(nodes), flag)
      decreases |newNodes| - k
    {
      AtStop(newHead, newNodes, k, flag);
      if Has(c.flags, flag) {
        var next := c.next;
        newHead := UnlinkAt(newHead, prev, c, newNodes, k);
        newNodes := newNodes[..k] + newNodes[k + 1..];
        c := next;
      } else {
        prev, c, k := c, c.next, k + 1;
      }
    }
    LastStop(newNodes, k, flag);
  }

  /** The entries when those before k are kept and the others are still to be filtered. */
  ghost function KeptFrom(nodes: seq<Node>, k: nat, flag: bv32): seq<Entry>
    requires k <= |nodes|
  {
    Entries(nodes)[..k] + Kept(Entries(nodes)[k..], flag)
  }

  lemma FirstStop(head: Node?, nodes: seq<Node>, flag: bv32)
    requires Linked(head, nodes)
    ensures head == NodeAt(nodes, 0) && NodeBefore(nodes, 0) == null
    ensures KeptFrom(nodes, 0, flag) == Kept(Entries(nodes), flag)
  {
    assert Entries(nodes)[0..] == Entries(nodes);
  }

  /** What a step of the loop does: the node is passed or cut out. */
  lemma AtStop(head: Node?, nodes: seq<Node>, k: nat, flag: bv32)
    requires Linked(head, nodes) && k <= |nodes| && NodeAt(nodes, k) != null
    ensures k < |nodes| && NodeAt(nodes, k) == nodes[k]
    ensures nodes[k].next == NodeAt(nodes, k + 1) && NodeBefore(nodes, k + 1) == nodes[k]
    ensures !Has(nodes[k].flags, flag) ==> KeptFrom(nodes, k, flag) == KeptFrom(nodes, k + 1, flag)
    ensures var less := nodes[..k] + nodes[k + 1..];
            && NodeAt(less, k) == nodes[k].next && NodeBefore(less, k) == NodeBefore(nodes, k)
            && (Has(nodes[k].flags, flag) ==> KeptFrom(nodes, k, flag) == KeptFrom(less, k, flag))
  {
    hide Has;
    KeptStep(nodes, k, flag);
  }

  lemma LastStop(nodes: seq<Node>, k: nat, flag: bv32)
    requires k <= |nodes| && NodeAt(nodes, k) == null
    ensures Entries(nodes) == KeptFrom(nodes, k, flag)
  {
    assert Entries(nodes)[k..] == [];
  }

  lemma NextOf(head: Node?, nodes: seq<Node>, k: nat)
    requires Linked(head, nodes) && k < |nodes|
    ensures nodes[k].next == NodeAt(nodes, k + 1)
  {
  }

  lemma KeptStep(nodes: seq<Node>, k: nat, flag: bv32)
    requires k < |nodes|
    ensures if Has(nodes[k].flags, flag) then
              KeptFrom(nodes, k, flag) == KeptFrom(nodes[..k] + nodes[k + 1..], k, flag)
            else KeptFrom(nodes, k, flag) == KeptFrom(nodes, k + 1, flag)
  {
    hide Has, Kept, Entries;
    var es := Entries(nodes);
    KeptUnfold(es, k, flag);
    EntriesRemoved(nodes, k);
    CutSlices(es, k);
    Regroup(es[..k], es[k], Kept(es[k + 1..], flag));
  }

  lemma Regroup(a: seq<Entry>, e: Entry, b: seq<Entry>)
    ensures a + ([e] + b) == a + [e] + b
  {
  }

  lemma KeptUnfold(es: seq<Entry>, k: nat, flag: bv32)
    requires k < |es|
    ensures if Has(es[k].flags, flag) then Kept(es[k..], flag) == Kept(es[k + 1..], flag)
            else Kept(es[k..], flag) == [es[k]] + Kept(es[k + 1..], flag)
  {
    hide Has;
    assert es[k..][1..] == es[k + 1..];
  }

  lemma CutSlices(es: seq<Entry>, k: nat)
    requires k < |es|
    ensures var less := es[..k] + es[k + 1..]; less[..k] == es[..k] && less[k..] == es[k + 1..]
    ensures es[..k + 1] == es[..k] + [es[k]]
  {
  }

  lemma NodesApart(a: seq<Node>, b: seq<Node>)
    requires Apart(Lists(Entries(a), Entries(b)))
    ensures forall i :: 0 <= i < |a| ==> a[i] !in b
    ensures forall j :: 0 <= j < |b| ==> b[j] !in a
  {
    hide Stricmp;
    forall i, j | 0 <= i < |a| && 0 <= j < |b| ensures a[i] != b[j] {
      StricmpFlip(a[i].name, a[i].name);
      assert Stricmp(Entries(a)[i].name, Entries(b)[j].name) != 0;
    }
  }

  lemma NotListed(nodes: seq<Node>, n: Node)
    requires !Defines(Entries(nodes), n.name)
    ensures n !in nodes
    ensures forall i :: 0 <= i < |nodes| ==> nodes[i] != n
  {
    hide Stricmp;
    StricmpFlip(n.name, n.name);
    forall i | 0 <= i < |nodes| ensures nodes[i] != n {
      assert Stricmp(n.name, Entries(nodes)[i].name) != 0;
    }
  }

  lemma EntriesInserted(nodes: seq<Node>, n: Node)
    ensures var k := Place(Entries(nodes), n.name);
            Entries(nodes[..k] + [n] + nodes[k..]) == Inserted(Entries(nodes), Entry(n.name, n.flags))
  {
    hide Stricmp, Place, Entries;
  }

  lemma TakenIff(s: Lists, name: string)
    ensures Taken(s, name) <==> exists e :: (e in s.commands || e in s.variables) && SameName(name, e.name)
  {
    hide SameName, Stricmp, Find;
    DefinesIff(s.commands, name);
    DefinesIff(s.variables, name);
  }

  lemma FoundSame(es: seq<Entry>, name: string)
    ensures Defines(es, name) ==> SameName(name, es[Find(es, name)].name)
  {
    hide SameName, Stricmp;
    if Defines(es, name) {
      StricmpSame(name, es[Find(es, name)].name);
    }
  }

  lemma BitsOfFlags()
    ensures forall e: Entry :: Has(e.flags, FCVAR_EXTDLL) <==> (e.flags >> 3) & 1 != 0
    ensures forall e: Entry :: Has(e.flags, FCVAR_CLIENTDLL) <==> (e.flags >> 4) & 1 != 0
  {
    forall e: Entry
      ensures Has(e.flags, FCVAR_EXTDLL) <==> (e.flags >> 3) & 1 != 0
      ensures Has(e.flags, FCVAR_CLIENTDLL) <==> (e.flags >> 4) & 1 != 0
    {
      HasBits(e.flags);
    }
  }

  lemma HasBits(flags: bv32)
    ensures Has(flags, FCVAR_EXTDLL) <==> (flags >> 3) & 1 != 0
    ensures Has(flags, FCVAR_CLIENTDLL) <==> (flags >> 4) & 1 != 0
  {
  }

  lemma AddStep(s: Lists, e: Entry)
    ensures Step(s, AddCommand(e)) == if Taken(s, e.name) then s else s.(commands := Inserted(s.commands, e))
    ensures Step(s, RegisterVariable(e)) == if Taken(s, e.name) then s else s.(variables := Inserted(s.variables, e))
  {
  }

  lemma EntriesRemoved(nodes: seq<Node>, k: nat)
    requires k < |nodes|
    ensures Entries(nodes[..k] + nodes[k + 1..]) == Entries(nodes)[..k] + Entries(nodes)[k + 1..]
  {
  }

  // ----- the two registries

  class Registries {
    var cmd_functions: Node?
    var cvar_vars: Node?

    ghost var commands: seq<Node>
    ghost var variables: seq<Node>

    ghost predicate Valid()
      reads this, commands, variables
    {
      && Linked(cmd_functions, commands) && Linked(cvar_vars, variables)
      && Consistent(State())
    }

    ghost function State(): Lists
      reads this
    {
      Lists(Entries(commands), Entries(variables))
    }

    constructor ()
      ensures Valid() && State() == EMPTY
    {
      cmd_functions, cvar_vars := null, null;
      commands, variables := [], [];
    }

    /** Cmd_Exists */
    method CmdExists(name: string) returns (exists_: bool)
      requires Valid()
      ensures exists_ <==> Defines(State().commands, name)
      ensures exists_ <==> exists e :: e in State().commands && SameName(name, e.name)
    {
      DefinesIff(State().commands, name);
      hide SameName, Stricmp, Find;
      var node := FindName(cmd_functions, name, commands);
      exists_ := node != null;
    }

    /** Cvar_FindVar */
    method FindVar(name: string) returns (node: Node?)
      requires Valid()
      ensures node == NodeAt(variables, Find(State().variables, name))
      ensures if node != null then node in variables && SameName(name, node.name)
              else forall e :: e in State().variables ==> !SameName(name, e.name)
    {
      DefinesIff(State().variables, name);
      FoundSame(State().variables, name);
      hide SameName, Stricmp, Find;
      node := FindName(cvar_vars, name, variables);
    }

    /** Cmd_AddMallocCommand, and Cmd_AddCommand with no flags. */
    method AddMallocCommand(name: string, flag: bv32)
      requires Valid()
      modifies this, commands
      ensures Valid() && State() == Step(old(State()), AddCommand(Entry(name, flag)))
      ensures if exists e :: (e in old(State().commands) || e in old(State().variables)) && SameName(name, e.name)
              then State() == old(State())
              else State().variables == old(State().variables)
                   && forall e :: e in State().commands <==> e == Entry(name, flag) || e in old(State().commands)
    {
      hide Stricmp, SameName, Find, Linked, Consistent, Step, Inserted;
      AddStep(State(), Entry(name, flag));
      TakenIff(State(), name);
      InsertedMembers(State().commands, Entry(name, flag));
      var known := FindVar(name);
      if known != null {
        return;
      }
      var exists_ := CmdExists(name);
      if !exists_ {
        var cmd := new Node(name, flag);
        PushCommand(cmd);
      }
    }

    method PushCommand(cmd: Node)
      requires Valid() && !Taken(State(), cmd.name)
      modifies this, cmd, commands
      ensures Valid()
      ensures State() == old(State()).(commands := Inserted(old(State()).commands, Entry(cmd.name, cmd.flags)))
    {
      hide Stricmp, Find, Place, Linked, Sorted, Apart, Inserted, Chain;
      ghost var nexts := Nexts(variables);
      NowLinked(cvar_vars, variables);
      NotListed(commands, cmd);
      NotListed(variables, cmd);
      StepKeepsConsistent(State(), AddCommand(Entry(cmd.name, cmd.flags)));
      NodesApart(commands, variables);
      EntriesInserted(commands, cmd);
      cmd_functions, commands := InsertCommand(cmd_functions, cmd, commands);
      StillLinked(cvar_vars, variables, nexts);
    }

    /** Cvar_RegisterVariable */
    method RegisterVariable(variable: Node)
      requires Valid()
      modifies this, variable, variables
      ensures Valid() && State() == Step(old(State()), Op.RegisterVariable(Entry(variable.name, variable.flags)))
      ensures if exists e :: (e in old(State().commands) || e in old(State().variables)) && SameName(variable.name, e.name)
              then State() == old(State())
              else State().commands == old(State().commands)
                   && forall e :: e in State().variables <==>
                        e == Entry(variable.name, variable.flags) || e in old(State().variables)
    {
      hide Stricmp, SameName, Find, Linked, Consistent, Step, Inserted;
      AddStep(State(), Entry(variable.name, variable.flags));
      TakenIff(State(), variable.name);
      InsertedMembers(State().variables, Entry(variable.name, variable.flags));
      var known := FindVar(variable.name);
      if known != null {
        return;
      }
      var exists_ := CmdExists(variable.name);
      if !exists_ {
        PushVariable(variable);
      }
    }

    method PushVariable(variable: Node)
      requires Valid() && !Taken(State(), variable.name)
      modifies this, variable, variables
      ensures Valid()
      ensures State() == old(State()).(variables := Inserted(old(State()).variables, Entry(variable.name, variable.flags)))
    {
      hide Stricmp, Find, Place, Linked, Sorted, Apart, Inserted, Chain;
      ghost var nexts := Nexts(commands);
      NowLinked(cmd_functions, commands);
      NotListed(commands, variable);
      NotListed(variables, variable);
      StepKeepsConsistent(State(), Op.RegisterVariable(Entry(variable.name, variable.flags)));
      NodesApart(commands, variables);
      EntriesInserted(variables, variable);
      cvar_vars, variables := InsertVariable(cvar_vars, variable, variables);
      StillLinked(cmd_functions, commands, nexts);
    }

    /** Cmd_RemoveCmd */
    method RemoveCmd(name: string)
      requires Valid()
      modifies this, commands
      ensures Valid() && State() == Step(old(State()), RemoveCommand(name))
      ensures State().variables == old(State().variables)
    {
      hide Stricmp, Find, Linked, Sorted, Apart, Chain;
      ghost var nexts := Nexts(variables);
      NowLinked(cvar_vars, variables);
      var prev := FindPrev(cmd_functions, name, commands);
      StepKeepsConsistent(State(), RemoveCommand(name));
      if prev != null {
        ghost var k := Find(Entries(commands), name);
        NextOf(cmd_functions, commands, k - 1);
        NodesApart(commands, variables);
        EntriesRemoved(commands, k);
        cmd_functions := UnlinkAt(cmd_functions, prev, prev.next, commands, k);
        commands := commands[..k] + commands[k + 1..];
        StillLinked(cvar_vars, variables, nexts);
      }
    }

    /** Cmd_RemoveMallocedCmds */
    method RemoveMallocedCmds(flag: bv32)
      requires Valid()
      modifies this, commands
      ensures Valid() && State() == Step(old(State()), RemoveCommands(flag))
      ensures State().variables == old(State().variables)
      ensures forall e :: e in State().commands <==> e in old(State().commands) && e.flags & flag == 0
    {
      hide Kept, Linked, Sorted, Apart, Chain;
      ghost var nexts := Nexts(variables);
      NowLinked(cvar_vars, variables);
      StepKeepsConsistent(State(), RemoveCommands(flag));
      NodesApart(commands, variables);
      cmd_functions, commands := UnlinkFlagged(cmd_functions, flag, commands);
      StillLinked(cvar_vars, variables, nexts);
    }

    /** The loop of Cvar_UnlinkExternals and Cvar_RemoveHudCvars. */
    method RemoveVariables(flag: bv32)
      requires Valid()
      modifies this, variables
      ensures Valid() && State() == Step(old(State()), Op.RemoveVariables(flag))
      ensures State().commands == old(State().commands)
      ensures forall e :: e in State().variables <==> e in old(State().variables) && e.flags & flag == 0
    {
      hide Kept, Linked, Sorted, Apart, Chain;
      ghost var nexts := Nexts(commands);
      NowLinked(cmd_functions, commands);
      StepKeepsConsistent(State(), Op.RemoveVariables(flag));
      NodesApart(commands, variables);
      cvar_vars, variables := UnlinkFlagged(cvar_vars, flag, variables);
      StillLinked(cmd_functions, commands, nexts);
    }

    /** Cvar_UnlinkExternals */
    method UnlinkExternals()
      requires Valid()
      modifies this, variables
      ensures Valid() && State() == Step(old(State()), Op.RemoveVariables(FCVAR_EXTDLL))
      ensures forall e :: e in State().variables <==> e in old(State().variables) && (e.flags >> 3) & 1 == 0
    {
      BitsOfFlags();
      RemoveVariables(FCVAR_EXTDLL);
    }

    /** Cvar_RemoveHudCvars */
    method RemoveHudCvars()
      requires Valid()
      modifies this, variables
      ensures Valid() && State() == Step(old(State()), Op.RemoveVariables(FCVAR_CLIENTDLL))
      ensures forall e :: e in State().variables <==> e in old(State().variables) && (e.flags >> 4) & 1 == 0
    {
      BitsOfFlags();
      RemoveVariables(FCVAR_CLIENTDLL);
    }
  }
}
