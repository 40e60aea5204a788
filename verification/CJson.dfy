/**
 cJSON nodes on the heap: who owns what, what tree a node stands for, and how a tree is freed.
 */
module CJson {
  import opened Bytes
  import opened Json
  import opened JsonNumber
  import opened Memory

  /** The low byte of `type`, without raw items. */
  datatype Kind = Invalid | IsFalse | IsTrue | IsNull | IsNumber | IsString | IsArray | IsObject

  class Node {
    var next: Node?
    var prev: Node?
    var child: Node?
    var kind: Kind
    var valuestring: array?<byte>
    var valueint: int
    var valuedouble: real
    /** The field called `string` in the source. */
    var name: array?<byte>

    /** The children, in the order of their `next` pointers. */
    ghost var kids: seq<Node>
    /** Everything to be freed with this node, besides the node. */
    ghost var own: set<object>

    /** A node fresh from cJSON_New_Item: all zero. */
    constructor ()
      ensures Valid() && IsBlank() && next == prev == null && name == null && own == {}
    {
      next, prev, child, kind, valuestring, valueint, valuedouble, name := null, null, null, Invalid, null, 0, 0.0,
        null;
      kids, own := [], {};
    }

    ghost function Strings(): set<object>
      reads this`valuestring, this`name
    {
      (if valuestring == null then {} else {valuestring}) + (if name == null then {} else {name})
    }

    /** The node owns its strings and its children with all they own, and nothing twice. */
    ghost predicate Valid()
      reads this`child, this`valuestring, this`name, this`kids, this`own, own
      decreases own
    {
      && this !in own
      && (forall k :: k in kids ==> k in own && k.own < own)
      && child == (if kids == [] then null else kids[0])
      && own == Strings() + Owned(kids) && Strings() !! Owned(kids) && StringsEnded()
      && Linked(kids) && Separate(kids)
      && (forall k :: k in kids ==> k.Valid())
    }

    /** Each string has its own buffer and is terminated. */
    ghost predicate StringsEnded()
      reads this`valuestring, this`name, Strings()
    {
      && (valuestring == null || valuestring != name)
      && (valuestring == null || Ended(valuestring))
      && (name == null || Ended(name))
    }

    /** No value yet. */
    ghost predicate IsBlank()
      reads this`valuestring, this`kids
    {
      valuestring == null && kids == []
    }

    /** The tree this node stands for. */
    ghost predicate Holds(j: Json)
      reads this`child, this`kind, this`valuestring, this`valueint, this`valuedouble, this`name, this`kids, this`own,
        own
      decreases own, 0
    {
      && Valid()
      && match j
         case Null => kind == IsNull
         case False => kind == IsFalse
         case True => kind == IsTrue
         case Number(v) => kind == IsNumber && valuedouble == v && valueint == ValueInt(v)
         case String(s) => kind == IsString && valuestring != null && UpToNul(valuestring[..]) == s
         case Array(items) =>
           && kind == IsArray
           && var js := ItemsOf(items);
              |kids| == |js| && forall i :: 0 <= i < |kids| ==> kids[i].Holds(js[i])
         case Object(members) =>
           && kind == IsObject
           && var ms := MembersOf(members);
              |kids| == |ms| && forall i :: 0 <= i < |kids| ==> kids[i].HoldsMember(ms[i].key, ms[i].value)
    }

    /** The same, as a member of an object under key k. */
    ghost predicate HoldsMember(k: Text, j: Json)
      reads this`child, this`kind, this`valuestring, this`valueint, this`valuedouble, this`name, this`kids, this`own,
        own
      decreases own, 1
    {
      Holds(j) && name != null && UpToNul(name[..]) == k
    }
  }

  ghost function ItemsOf(items: Items): seq<Json> {
    match items
    case INil => []
    case ICons(j, rest) => [j] + ItemsOf(rest)
  }

  datatype Member = Member(key: Text, value: Json)

  ghost function MembersOf(members: Members): seq<Member> {
    match members
    case MNil => []
    case MCons(k, j, rest) => [Member(k, j)] + MembersOf(rest)
  }

  /** A zero-terminated buffer. */
  ghost predicate Ended(a: array<byte>)
    reads a
  {
    NUL in a[..]
  }

  // ---------------------------------------------------------------- sibling chains

  /** All that goes with a node when it is freed. */
  ghost function Foot(n: Node): set<object>
    reads n`own
  {
    {n} + n.own
  }

  ghost function Owned(nodes: seq<Node>): set<object>
    reads nodes`own
  {
    if nodes == [] then {} else Owned(nodes[..|nodes| - 1]) + Foot(nodes[|nodes| - 1])
  }

  /** No two siblings share anything. */
  ghost predicate Separate(nodes: seq<Node>)
    reads nodes`own
  {
    nodes == [] || (Separate(nodes[..|nodes| - 1]) && Owned(nodes[..|nodes| - 1]) !! Foot(nodes[|nodes| - 1]))
  }

  ghost predicate LinksAt(nodes: seq<Node>, i: nat)
    requires i < |nodes|
    reads nodes`next, nodes`prev
  {
    && nodes[i].next == (if i + 1 < |nodes| then nodes[i + 1] else null)
    && nodes[i].prev == (if i > 0 then nodes[i - 1] else null)
  }

  /** The pointers run through the nodes in order, and end at both sides. */
  ghost predicate Linked(nodes: seq<Node>)
    reads nodes`next, nodes`prev
  {
    forall i: nat :: i < |nodes| ==> LinksAt(nodes, i)
  }

  twostate lemma LinkedSnoc(nodes: seq<Node>, new node: Node)
    requires old(Linked(nodes))
    requires forall n :: n in nodes ==>
      && n.prev == old(n.prev)
      && n.next == if n == Last(nodes) then node else old(n.next)
    requires node.prev == Last(nodes) && node.next == null
    ensures Linked(nodes + [node])
  {
    forall i: nat | i < |nodes| + 1
      ensures LinksAt(nodes + [node], i)
    {
      if i < |nodes| {
        assert old(LinksAt(nodes, |nodes| - 1)) && old(LinksAt(nodes, i));
      }
    }
  }

  lemma {:induction false} OwnedMember(nodes: seq<Node>, i: nat)
    requires i < |nodes|
    ensures Foot(nodes[i]) <= Owned(nodes)
    decreases |nodes|
  {
    if i < |nodes| - 1 {
      OwnedMember(nodes[..|nodes| - 1], i);
    }
  }

  lemma {:induction false} SeparatePrefix(nodes: seq<Node>, i: nat)
    requires Separate(nodes) && i <= |nodes|
    ensures Separate(nodes[..i]) && Owned(nodes[..i]) <= Owned(nodes)
    ensures i < |nodes| ==> Owned(nodes[..i]) !! Foot(nodes[i])
    decreases |nodes|
  {
    if i == |nodes| {
      assert nodes[..i] == nodes;
    } else if i < |nodes| - 1 {
      assert nodes[..|nodes| - 1][..i] == nodes[..i];
      SeparatePrefix(nodes[..|nodes| - 1], i);
    }
  }

  lemma FootsApart(nodes: seq<Node>, i: nat, k: nat)
    requires Separate(nodes) && i < k < |nodes|
    ensures Foot(nodes[i]) !! Foot(nodes[k])
  {
    SeparatePrefix(nodes, k);
    OwnedMember(nodes[..k], i);
  }

  lemma OwnedSnoc(nodes: seq<Node>, i: nat)
    requires i < |nodes|
    ensures Owned(nodes[..i + 1]) == Owned(nodes[..i]) + Foot(nodes[i])
  {
    assert nodes[..i + 1][..i] == nodes[..i];
  }

  lemma OwnedNone()
    ensures Owned([]) == {}
  {
  }

  /** What lies below the top level of a chain. */
  ghost function Below(nodes: seq<Node>): set<object>
    reads nodes`own
  {
    set n, o | n in nodes && o in n.own :: o
  }

  ghost predicate AllValid(nodes: seq<Node>)
    reads nodes`child, nodes`valuestring, nodes`name, nodes`kids, nodes`own, Below(nodes)
  {
    forall i: nat :: i < |nodes| ==> nodes[i].Valid()
  }

  /** The nodes stand for these trees, one by one. */
  ghost predicate HoldsAll(nodes: seq<Node>, js: seq<Json>)
    reads nodes`child, nodes`kind, nodes`valuestring, nodes`valueint, nodes`valuedouble, nodes`name, nodes`kids,
      nodes`own, Below(nodes)
  {
    && |nodes| == |js|
    && forall i: nat :: i < |nodes| ==> nodes[i].Holds(js[i])
  }

  ghost predicate HoldsMembers(nodes: seq<Node>, ms: seq<Member>)
    reads nodes`child, nodes`kind, nodes`valuestring, nodes`valueint, nodes`valuedouble, nodes`name, nodes`kids,
      nodes`own, Below(nodes)
  {
    && |nodes| == |ms|
    && forall i: nat :: i < |nodes| ==> nodes[i].HoldsMember(ms[i].key, ms[i].value)
  }

  /** A chain of siblings, each whole and allocated. */
  ghost predicate Chain(nodes: seq<Node>, hooks: Hooks)
    reads nodes`next, nodes`prev, nodes`child, nodes`valuestring, nodes`name, nodes`kids, nodes`own, Below(nodes),
      hooks`live
  {
    Linked(nodes) && Separate(nodes) && AllValid(nodes) && Owned(nodes) <= hooks.live
  }

  ghost function Last(nodes: seq<Node>): Node? {
    if nodes == [] then null else nodes[|nodes| - 1]
  }

  lemma Snoc(nodes: seq<Node>, node: Node)
    requires Separate(nodes) && Owned(nodes) !! Foot(node)
    ensures Separate(nodes + [node]) && Owned(nodes + [node]) == Owned(nodes) + Foot(node)
  {
    assert (nodes + [node])[..|nodes|] == nodes;
  }

  lemma AllValidSnoc(nodes: seq<Node>, node: Node)
    requires AllValid(nodes) && node.Valid()
    ensures AllValid(nodes + [node])
  {
    hide Node.Valid;
  }

  lemma HoldsAllSnoc(nodes: seq<Node>, js: seq<Json>, node: Node, j: Json)
    requires HoldsAll(nodes, js) && node.Holds(j)
    ensures HoldsAll(nodes + [node], js + [j])
  {
    hide Node.Holds;
  }

  lemma HoldsMembersSnoc(nodes: seq<Node>, ms: seq<Member>, node: Node, k: Text, j: Json)
    requires HoldsMembers(nodes, ms) && node.HoldsMember(k, j)
    ensures HoldsMembers(nodes + [node], ms + [Member(k, j)])
  {
    hide Node.HoldsMember;
  }

  lemma ChainLive(nodes: seq<Node>, hooks: Hooks)
    requires Chain(nodes, hooks)
    ensures Owned(nodes) <= hooks.live && Below(nodes) <= hooks.live
  {
    BelowOwned(nodes);
  }

  lemma ChainSnoc(nodes: seq<Node>, node: Node, hooks: Hooks)
    requires Linked(nodes + [node]) && Separate(nodes) && AllValid(nodes) && node.Valid()
    requires Owned(nodes) !! Foot(node) && Owned(nodes) + Foot(node) <= hooks.live
    ensures Chain(nodes + [node], hooks) && Owned(nodes + [node]) == Owned(nodes) + Foot(node)
  {
    hide Node.Valid, Owned, Separate, AllValid, Linked;
    Snoc(nodes, node);
    AllValidSnoc(nodes, node);
  }

  lemma EmptyChain(hooks: Hooks)
    ensures Chain([], hooks) && HoldsAll([], []) && HoldsMembers([], []) && Owned([]) == {}
  {
  }

  lemma SingleChain(node: Node, hooks: Hooks)
    requires node.Valid() && node.next == node.prev == null && Foot(node) <= hooks.live
    ensures Chain([node], hooks) && Owned([node]) == Foot(node)
  {
    EmptyChain(hooks);
    assert [node] == [] + [node];
    OwnedNew([], node);
    Snoc([], node);
  }

  lemma OwnedNew(nodes: seq<Node>, node: Node)
    ensures Owned(nodes + [node]) == Owned(nodes) + Foot(node)
  {
    assert (nodes + [node])[..|nodes|] == nodes;
  }

  lemma BelowOwned(nodes: seq<Node>)
    ensures Below(nodes) <= Owned(nodes)
  {
    forall n, o | n in nodes && o in n.own
      ensures o in Owned(nodes)
    {
      var i: nat :| i < |nodes| && nodes[i] == n;
      OwnedMember(nodes, i);
    }
  }

  /** No node of a chain lies below another. */
  lemma TopApart(nodes: seq<Node>, i: nat)
    requires Separate(nodes) && AllValid(nodes) && i < |nodes|
    ensures nodes[i] !in Below(nodes)
  {
    hide Node.Valid, Separate;
    forall k: nat | k < |nodes|
      ensures nodes[i] !in nodes[k].own
    {
      if i < k {
        FootsApart(nodes, i, k);
      } else if k < i {
        FootsApart(nodes, k, i);
      } else {
        NotBelowItself(nodes[i]);
      }
    }
  }

  lemma LastApart(nodes: seq<Node>, hooks: Hooks)
    requires Chain(nodes, hooks) && nodes != []
    ensures Last(nodes) !in Below(nodes)
  {
    TopApart(nodes, |nodes| - 1);
  }

  // ---------------------------------------------------------------- one node, one tree

  lemma {:induction false} ItemsInjective(x: Items, y: Items)
    requires ItemsOf(x) == ItemsOf(y)
    ensures x == y
  {
    if x.ICons? {
      assert ItemsOf(x) == [x.head] + ItemsOf(x.tail);
      assert y.ICons? && ItemsOf(y)[0] == y.head && ItemsOf(x)[1..] == ItemsOf(x.tail)
        && ItemsOf(y)[1..] == ItemsOf(y.tail);
      ItemsInjective(x.tail, y.tail);
    }
  }

  lemma {:induction false} MembersInjective(x: Members, y: Members)
    requires MembersOf(x) == MembersOf(y)
    ensures x == y
  {
    if x.MCons? {
      assert MembersOf(x) == [Member(x.key, x.value)] + MembersOf(x.rest);
      assert y.MCons? && MembersOf(y)[0] == Member(y.key, y.value);
      assert MembersOf(x)[1..] == MembersOf(x.rest) && MembersOf(y)[1..] == MembersOf(y.rest);
      MembersInjective(x.rest, y.rest);
    }
  }

  /** A node stands for one tree at most. */
  lemma {:induction false} HoldsOne(n: Node, x: Json, y: Json)
    requires n.Holds(x) && n.Holds(y)
    ensures x == y
    decreases n.own
  {
    match x
    case Array(items) =>
      var xs, ys := ItemsOf(items), ItemsOf(y.items);
      forall i: nat | i < |n.kids|
        ensures xs[i] == ys[i]
      {
        HoldsOne(n.kids[i], xs[i], ys[i]);
      }
      assert xs == ys;
      ItemsInjective(items, y.items);
    case Object(members) =>
      var xs, ys := MembersOf(members), MembersOf(y.members);
      forall i: nat | i < |n.kids|
        ensures xs[i] == ys[i]
      {
        assert n.kids[i].HoldsMember(xs[i].key, xs[i].value) && n.kids[i].HoldsMember(ys[i].key, ys[i].value);
        HoldsOne(n.kids[i], xs[i].value, ys[i].value);
      }
      assert xs == ys;
      MembersInjective(members, y.members);
    case _ =>
  }

  // ---------------------------------------------------------------- walking along siblings

  lemma Tail<T>(s: seq<T>, i: nat, head: T, rest: seq<T>)
    requires i <= |s| && s[i..] == [head] + rest
    ensures i < |s| && s[i] == head && s[i + 1..] == rest
  {
    assert s[i..][0] == head && s[i..][1..] == rest;
  }

  /** At child i of an object, with `rest` still to come. */
  lemma MemberAt(parent: Node, members: Members, i: nat, rest: Members)
    requires parent.Holds(Object(members)) && i <= |parent.kids| == |MembersOf(members)|
      && MembersOf(members)[i..] == MembersOf(rest)
    ensures i == |parent.kids| <==> rest.MNil?
    ensures i < |parent.kids| ==>
      && parent.kids[i].HoldsMember(rest.key, rest.value) && MembersOf(members)[i + 1..] == MembersOf(rest.rest)
      && parent.kids[i].next == (if i + 1 < |parent.kids| then parent.kids[i + 1] else null)
      && Foot(parent.kids[i]) <= parent.own
  {
    if rest.MCons? {
      Tail(MembersOf(members), i, Member(rest.key, rest.value), MembersOf(rest.rest));
      assert LinksAt(parent.kids, i) && parent.kids[i] in parent.kids;
    }
  }

  /** At child i of an array. */
  lemma ItemAt(parent: Node, items: Items, i: nat, rest: Items)
    requires parent.Holds(Array(items)) && i <= |parent.kids| == |ItemsOf(items)|
      && ItemsOf(items)[i..] == ItemsOf(rest)
    ensures i == |parent.kids| <==> rest.INil?
    ensures i < |parent.kids| ==>
      && parent.kids[i].Holds(rest.head) && ItemsOf(items)[i + 1..] == ItemsOf(rest.tail)
      && parent.kids[i].next == (if i + 1 < |parent.kids| then parent.kids[i + 1] else null)
      && Foot(parent.kids[i]) <= parent.own
  {
    if rest.ICons? {
      Tail(ItemsOf(items), i, rest.head, ItemsOf(rest.tail));
      assert LinksAt(parent.kids, i) && parent.kids[i] in parent.kids;
    }
  }

  lemma ItemNext(parent: Node, items: Items, i: nat, rest: Items)
    requires parent.Holds(Array(items)) && i < |parent.kids| == |ItemsOf(items)| && ItemsOf(items)[i..] == ItemsOf(rest)
    ensures rest.ICons? && (parent.kids[i].next == null <==> rest.tail.INil?)
  {
    ItemAt(parent, items, i, rest);
    ItemAt(parent, items, i + 1, rest.tail);
  }

  lemma MemberNext(parent: Node, members: Members, i: nat, rest: Members)
    requires parent.Holds(Object(members)) && i < |parent.kids| == |MembersOf(members)|
      && MembersOf(members)[i..] == MembersOf(rest)
    ensures rest.MCons? && (parent.kids[i].next == null <==> rest.rest.MNil?)
  {
    MemberAt(parent, members, i, rest);
    MemberAt(parent, members, i + 1, rest.rest);
  }

  lemma NameOwned(item: Node, k: Text, j: Json)
    requires item.HoldsMember(k, j)
    ensures Ended(item.name) && item.name in item.own
  {
  }

  lemma NameEnded(item: Node, k: Text, j: Json)
    requires item.HoldsMember(k, j)
    ensures Ended(item.name)
  {
  }

  lemma FirstMember(parent: Node, members: Members)
    requires parent.Holds(Object(members))
    ensures parent.child == (if parent.kids == [] then null else parent.kids[0])
      && |MembersOf(members)| == |parent.kids|
  {
  }

  lemma FirstItem(parent: Node, items: Items)
    requires parent.Holds(Array(items))
    ensures parent.child == (if parent.kids == [] then null else parent.kids[0]) && |ItemsOf(items)| == |parent.kids|
  {
  }

  /** A C string in its buffer. */
  lemma UpToNulLength(s: array<byte>)
    requires Ended(s)
    ensures |UpToNul(s[..])| < s.Length && s[|UpToNul(s[..])|] == NUL
    ensures forall k :: 0 <= k < |UpToNul(s[..])| ==> s[k] != NUL && UpToNul(s[..])[k] == s[k]
  {
    assert CString(UpToNul(s[..]));
  }

  // ---------------------------------------------------------------- building

  /** cJSON_New_Item. */
  method NewItem(hooks: Hooks) returns (item: Node?)
    modifies hooks
    ensures item == null ==> hooks.exhausted && hooks.live == old(hooks.live)
    ensures item != null ==>
      && fresh(item) && item.Valid() && item.IsBlank() && item.name == null && item.own == {}
      && item.next == item.prev == null
      && hooks.live == old(hooks.live) + {item} && hooks.exhausted == old(hooks.exhausted)
  {
    if * {
      item, hooks.exhausted := null, true;
    } else {
      item := new Node();
      hooks.live := hooks.live + {item};
    }
  }

  lemma NotBelowItself(node: Node)
    requires node.Valid()
    ensures node !in node.own
  {
  }

  /** A node without siblings goes to the end of a chain. */
  method Attach(last: Node?, ghost nodes: seq<Node>, node: Node, hooks: Hooks)
    requires Chain(nodes, hooks) && hooks !in hooks.live && last == Last(nodes)
    requires node.Valid() && node.next == node.prev == null && Foot(node) <= hooks.live && Owned(nodes) !! Foot(node)
    modifies (if last == null then {} else {last})`next, node`prev
    ensures Chain(nodes + [node], hooks) && node.Valid()
  {
    hide Node.Valid, Separate, Owned, AllValid, Below;
    Outside(node, nodes);
    NotBelowItself(node);
    if last != null {
      LastApart(nodes, hooks);
      OwnedMember(nodes, |nodes| - 1);
      assert last in Foot(last) && last !in node.own;
      last.next, node.prev := node, last;
    }
    Snoc(nodes, node);
    AllValidSnoc(nodes, node);
    LinkedSnoc(nodes, node);
  }

  /** A new node at the end of a chain. */
  method Append(last: Node?, ghost nodes: seq<Node>, hooks: Hooks) returns (node: Node?)
    requires Chain(nodes, hooks) && hooks !in hooks.live && last == Last(nodes)
    modifies hooks, (if last == null then {} else {last})`next
    ensures node == null ==> hooks.exhausted && hooks.live == old(hooks.live) && Chain(nodes, hooks)
    ensures node != null ==>
      && fresh(node) && node.Valid() && node.IsBlank() && node.name == null && node.own == {}
      && Chain(nodes + [node], hooks)
      && hooks.live == old(hooks.live) + {node} && hooks.exhausted == old(hooks.exhausted)
  {
    hide Node.Valid, Separate, Owned, AllValid, Below;
    BelowOwned(nodes);
    node := NewItem(hooks);
    if node != null {
      Attach(last, nodes, node, hooks);
    }
  }

  lemma BlankOwn(item: Node)
    requires item.Valid() && item.kids == []
    ensures item.own == item.Strings() && item !in item.own && item.StringsEnded() && item.child == null
  {
  }

  lemma ValidWith(item: Node, nodes: seq<Node>)
    requires Linked(nodes) && Separate(nodes) && AllValid(nodes)
    requires item.kids == nodes && item.child == (if nodes == [] then null else nodes[0])
    requires item.StringsEnded()
    requires item.own == item.Strings() + Owned(nodes) && item.Strings() !! Owned(nodes) && item !in item.own
    ensures item.Valid()
  {
    hide Owned, Separate, Linked;
    forall i: nat | i < |nodes|
      ensures nodes[i].Valid() && nodes[i] in item.own && nodes[i].own < item.own
    {
      OwnedMember(nodes, i);
    }
  }

  lemma Outside(item: Node, nodes: seq<Node>)
    requires item !in Owned(nodes)
    ensures item !in nodes && item !in Below(nodes)
  {
    hide Below, Owned;
    BelowOwned(nodes);
    forall i: nat | i < |nodes|
      ensures nodes[i] != item
    {
      OwnedMember(nodes, i);
    }
  }

  /** A finished chain becomes the children of a container. */
  method Adopt(item: Node, head: Node?, ghost nodes: seq<Node>, hooks: Hooks)
    requires item.Valid() && item.kids == [] && Foot(item) !! Owned(nodes)
    requires Chain(nodes, hooks) && head == if nodes == [] then null else nodes[0]
    modifies item`child, item`kids, item`own
    ensures item.Valid() && item.kids == nodes && item.own == old(item.own) + Owned(nodes)
    ensures Chain(nodes, hooks)
    ensures forall js :: old(HoldsAll(nodes, js)) ==> HoldsAll(nodes, js)
    ensures forall ms :: old(HoldsMembers(nodes, ms)) ==> HoldsMembers(nodes, ms)
  {
    hide Owned, Separate, Linked, AllValid, HoldsAll, HoldsMembers, Node.Valid, Below;
    BlankOwn(item);
    Outside(item, nodes);
    item.child := head;
    item.kids := nodes;
    item.own := item.own + Owned(nodes);
    ValidWith(item, nodes);
  }

  lemma HoldsArray(item: Node, items: Items)
    requires item.Valid() && item.kind == IsArray && HoldsAll(item.kids, ItemsOf(items))
    ensures item.Holds(Array(items))
  {
  }

  lemma HoldsObject(item: Node, members: Members)
    requires item.Valid() && item.kind == IsObject && HoldsMembers(item.kids, MembersOf(members))
    ensures item.Holds(Object(members))
  {
  }

  // ---------------------------------------------------------------- freeing

  /**
   cJSON_Delete: the node, its younger siblings and everything below them are freed, each block
   once, and nothing else is.
   */
  method Delete(item: Node?, ghost nodes: seq<Node>, hooks: Hooks)
    requires Chain(nodes, hooks) && hooks !in hooks.live
    requires item == if nodes == [] then null else nodes[0]
    modifies hooks
    ensures hooks.live == old(hooks.live) - Owned(nodes) && hooks.exhausted == old(hooks.exhausted)
    decreases Owned(nodes), 1
  {
    hide Node.Valid, Separate, Owned;
    ghost var i: nat := 0;
    OwnedNone();
    assert nodes[..0] == [];
    var current := item;
    while current != null
      invariant 0 <= i <= |nodes| && Linked(nodes)
      invariant current == if i < |nodes| then nodes[i] else null
      invariant hooks.live == old(hooks.live) - Owned(nodes[..i]) && hooks.exhausted == old(hooks.exhausted)
      decreases |nodes| - i
    {
      OwnedMember(nodes, i);
      OwnedSnoc(nodes, i);
      SeparatePrefix(nodes, i);
      assert LinksAt(nodes, i);
      var next := current.next;
      DeleteOne(current, hooks);
      current, i := next, i + 1;
    }
    assert nodes[..i] == nodes;
  }

  /** The body of the loop in cJSON_Delete. */
  method DeleteOne(n: Node, hooks: Hooks)
    requires n.Valid() && Foot(n) <= hooks.live && hooks !in hooks.live
    modifies hooks
    ensures hooks.live == old(hooks.live) - Foot(n) && hooks.exhausted == old(hooks.exhausted)
    decreases Foot(n), 0
  {
    if n.child != null {
      Delete(n.child, n.kids, hooks);
    }
    if n.valuestring != null {
      hooks.Deallocate(n.valuestring);
    }
    if n.name != null {
      hooks.Deallocate(n.name);
    }
    hooks.Deallocate(n);
  }
}
