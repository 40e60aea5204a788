/**
 cJSON_Duplicate in jsonRead/cJSON.c: a copy of a tree on the heap that shares nothing with it, or
 nothing at all when memory runs out.
 */
module JsonDuplicate {
  import opened Bytes
  import opened Json
  import opened Memory
  import opened CJson
  import JsonCompare

  // ---------------------------------------------------------------- what a copy is

  /** Both absent, or both with the same characters in front of the terminator. */
  ghost predicate SameString(a: array?<byte>, b: array?<byte>)
    reads (if a == null then {} else {a}), (if b == null then {} else {b})
  {
    (a == null <==> b == null) && (a != null && b != null ==> UpToNul(a[..]) == UpToNul(b[..]))
  }

  /** Everything but the children, the key included. */
  ghost predicate SameFields(a: Node, b: Node)
    reads a`kind, a`valuestring, a`valueint, a`valuedouble, a`name, a.Strings()
    reads b`kind, b`valuestring, b`valueint, b`valuedouble, b`name, b.Strings()
  {
    && a.kind == b.kind && a.valueint == b.valueint && a.valuedouble == b.valuedouble
    && SameString(a.valuestring, b.valuestring) && SameString(a.name, b.name)
  }

  ghost predicate Same(a: Node, b: Node)
    requires a.Valid() && b.Valid()
    reads a`child, a`kind, a`valuestring, a`valueint, a`valuedouble, a`name, a`kids, a`own, a.own
    reads b`child, b`kind, b`valuestring, b`valueint, b`valuedouble, b`name, b`kids, b`own, b.own
    decreases a.own
  {
    && SameFields(a, b) && |a.kids| == |b.kids|
    && forall i: nat :: i < |a.kids| ==> Same(a.kids[i], b.kids[i])
  }

  /** A copy stands for whatever the original stands for. */
  lemma {:induction false} SameHolds(a: Node, b: Node, j: Json)
    requires a.Valid() && b.Valid() && Same(a, b) && a.Holds(j)
    ensures b.Holds(j)
    decreases a.own
  {
    match j
    case Array(items) =>
      var js := ItemsOf(items);
      forall i: nat | i < |a.kids|
        ensures b.kids[i].Holds(js[i])
      {
        SameHolds(a.kids[i], b.kids[i], js[i]);
      }
    case Object(members) =>
      var ms := MembersOf(members);
      forall i: nat | i < |a.kids|
        ensures b.kids[i].HoldsMember(ms[i].key, ms[i].value)
      {
        assert a.kids[i].HoldsMember(ms[i].key, ms[i].value);
        SameHolds(a.kids[i], b.kids[i], ms[i].value);
      }
    case _ =>
  }

  // ---------------------------------------------------------------- strings

  /** cJSON_strdup. */
  method Strdup(text: array<byte>, hooks: Hooks) returns (copy: array?<byte>)
    requires Ended(text)
    modifies hooks
    ensures copy == null ==> hooks.exhausted && hooks.live == old(hooks.live)
    ensures copy != null ==>
      && fresh(copy) && hooks.live == old(hooks.live) + {copy} && hooks.exhausted == old(hooks.exhausted)
      && Ended(copy) && UpToNul(copy[..]) == UpToNul(text[..]) && copy.Length == |UpToNul(text[..])| + 1
  {
    var length := 0;
    while text[length] != NUL
      invariant length < text.Length && forall i :: 0 <= i < length ==> text[i] != NUL
      decreases text.Length - length
    {
      length := length + 1;
    }
    copy := hooks.Allocate(length + 1);
    if copy != null {
      CopyBytes(copy, text, length + 1);
    }
  }

  // ---------------------------------------------------------------- nodes

  /** The value string is copied, if there is one. */
  method DuplicateValue(item: Node, copy: Node, hooks: Hooks) returns (ok: bool)
    requires item.Valid() && copy.Valid() && copy.kids == [] && copy.valuestring == null && copy != item
    requires hooks !in item.own && hooks !in copy.own
    modifies hooks, copy`valuestring, copy`own
    ensures copy.Valid() && fresh(copy.own - old(copy.own)) && old(copy.own) <= copy.own
    ensures hooks.live == old(hooks.live) + (copy.own - old(copy.own))
    ensures if ok then SameString(item.valuestring, copy.valuestring)
      && hooks.exhausted == old(hooks.exhausted) else hooks.exhausted
  {
    hide UpToNul, Node.Valid, Ended;
    BlankOwn(copy);
    StringsOwned(item);
    EmptyChain(hooks);
    if item.valuestring != null {
      var text := Strdup(item.valuestring, hooks);
      if text == null {
        return false;
      }
      copy.valuestring := text;
      copy.own := copy.own + {text};
      ValidWith(copy, []);
    }
    return true;
  }

  /** The key is copied, if there is one. */
  method DuplicateName(item: Node, copy: Node, hooks: Hooks) returns (ok: bool)
    requires item.Valid() && copy.Valid() && copy.kids == [] && copy.name == null && copy != item
    requires hooks !in item.own && hooks !in copy.own
    modifies hooks, copy`name, copy`own
    ensures copy.Valid() && fresh(copy.own - old(copy.own)) && old(copy.own) <= copy.own
    ensures hooks.live == old(hooks.live) + (copy.own - old(copy.own))
    ensures if ok then SameString(item.name, copy.name) && hooks.exhausted == old(hooks.exhausted) else hooks.exhausted
  {
    hide UpToNul, Node.Valid, Ended;
    BlankOwn(copy);
    StringsOwned(item);
    EmptyChain(hooks);
    if item.name != null {
      var key := Strdup(item.name, hooks);
      if key == null {
        return false;
      }
      copy.name := key;
      copy.own := copy.own + {key};
      ValidWith(copy, []);
    }
    return true;
  }

  lemma StringsOwned(item: Node)
    requires item.Valid()
    ensures item.StringsEnded() && item.Strings() <= item.own && item !in item.own
  {
  }

  /** The first part of cJSON_Duplicate: a new node with the same fields and no children. */
  method DuplicateFields(item: Node, hooks: Hooks) returns (copy: Node?)
    requires item.Valid() && hooks !in item.own && hooks !in hooks.live
    modifies hooks
    ensures copy == null ==> hooks.exhausted && hooks.live == old(hooks.live)
    ensures copy != null ==>
      && copy.Valid() && copy.kids == [] && copy.next == copy.prev == null && item.Valid() && SameFields(item, copy)
      && fresh(Foot(copy)) && hooks.live == old(hooks.live) + Foot(copy) && hooks.exhausted == old(hooks.exhausted)
  {
    hide UpToNul, Node.Valid, Node.StringsEnded, Ended, Chain, Owned, SameString;
    StringsOwned(item);
    copy := NewItem(hooks);
    if copy == null {
      return;
    }
    copy.kind, copy.valueint, copy.valuedouble := item.kind, item.valueint, item.valuedouble;
    var ok := DuplicateValue(item, copy, hooks);
    if ok {
      ok := DuplicateName(item, copy, hooks);
    }
    if !ok {
      SingleChain(copy, hooks);
      Delete(copy, [copy], hooks);
      copy := null;
    }
  }

  /** The first of the children of `from` have been copied. */
  ghost predicate CopiesOf(from: seq<Node>, to: seq<Node>)
    reads from`child, from`kind, from`valuestring, from`valueint, from`valuedouble, from`name, from`kids, from`own,
      Below(from)
    reads to`child, to`kind, to`valuestring, to`valueint, to`valuedouble, to`name, to`kids, to`own, Below(to)
  {
    && |to| <= |from| && AllValid(from) && AllValid(to)
    && forall i: nat :: i < |to| ==> Same(from[i], to[i])
  }

  lemma CopiesSnoc(from: seq<Node>, to: seq<Node>, node: Node)
    requires CopiesOf(from, to) && |to| < |from| && node.Valid() && Same(from[|to|], node)
    ensures CopiesOf(from, to + [node])
  {
    hide Same, Node.Valid;
  }

  lemma SameWith(a: Node, b: Node)
    requires a.Valid() && b.Valid() && SameFields(a, b) && |a.kids| == |b.kids| && CopiesOf(a.kids, b.kids)
    ensures Same(a, b)
  {
  }

  /** One turn of the loop of cJSON_Duplicate: the copy of a child at the end of the chain. */
  method DuplicateChild(child: Node, last: Node?, ghost nodes: seq<Node>, hooks: Hooks) returns (node: Node?)
    requires child.Valid() && hooks !in child.own && hooks !in hooks.live
    requires Chain(nodes, hooks) && last == Last(nodes) && (last != null ==> last !in child.own)
    modifies hooks, (if last == null then {} else {last})`next
    ensures node == null ==> hooks.exhausted && hooks.live == old(hooks.live) && Chain(nodes, hooks)
    ensures node != null ==>
      && node.Valid() && child.Valid() && Same(child, node) && Chain(nodes + [node], hooks)
      && fresh(node) && fresh(Foot(node)) && hooks.live == old(hooks.live) + Foot(node)
        && hooks.exhausted == old(hooks.exhausted)
    decreases child.own, 3
  {
    hide Node.Valid, Separate, Owned, AllValid, Below, Linked, Same;
    BelowOwned(nodes);
    node := Duplicate(child, true, hooks);
    if node != null {
      NotBelowItself(node);
      Attach(last, nodes, node, hooks);
    }
  }

  lemma ItemParts(item: Node)
    requires item.Valid()
    ensures item.child == (if item.kids == [] then null else item.kids[0]) && Linked(item.kids)
      && CopiesOf(item.kids, [])
    ensures Below(item.kids) <= item.own
    ensures item !in item.own && forall k :: k in item.kids ==> k.Valid() && k in item.own && k.own < item.own
  {
  }

  /** The loop of cJSON_Duplicate: a chain of copies, of all children unless an allocation fails. */
  method DuplicateList(item: Node, hooks: Hooks) returns (ok: bool, head: Node?, ghost nodes: seq<Node>)
    requires item.Valid() && hooks !in item.own && hooks !in hooks.live
    modifies hooks
    ensures item.Valid() && Chain(nodes, hooks) && head == if nodes == [] then null else nodes[0]
    ensures fresh(Owned(nodes)) && hooks.live == old(hooks.live) + Owned(nodes)
    ensures ok ==> |nodes| == |item.kids| && CopiesOf(item.kids, nodes) && hooks.exhausted == old(hooks.exhausted)
    ensures !ok ==> hooks.exhausted
    decreases item.own, 0
  {
    hide Node.Valid, Chain, Owned, Foot, Same, CopiesOf;
    var last: Node? := null;
    head, nodes := null, [];
    EmptyChain(hooks);
    ItemParts(item);
    var child := item.child;
    while child != null
      invariant item.Valid() && |nodes| <= |item.kids|
      invariant child == if |nodes| < |item.kids| then item.kids[|nodes|] else null
      invariant Chain(nodes, hooks) && CopiesOf(item.kids, nodes) && hooks !in hooks.live
      invariant last == Last(nodes) && (last != null ==> fresh(last)) && head == if nodes == [] then null else nodes[0]
      invariant fresh(Owned(nodes)) && hooks.live == old(hooks.live) + Owned(nodes)
      invariant hooks.exhausted == old(hooks.exhausted)
      decreases |item.kids| - |nodes|
    {
      ItemParts(item);
      assert LinksAt(item.kids, |nodes|);
      ChainLive(nodes, hooks);
      if last != null {
        LastApart(nodes, hooks);
      }
      var node := DuplicateChild(child, last, nodes, hooks);
      if node == null {
        return false, head, nodes;
      }
      CopiesSnoc(item.kids, nodes, node);
      OwnedNew(nodes, node);
      nodes := nodes + [node];
      if head == null {
        head := node;
      }
      last := node;
      child := child.next;
    }
    ok := true;
  }

  /** The children of the copy; whatever has been copied belongs to it even when not all have been. */
  method DuplicateChildren(item: Node, copy: Node, hooks: Hooks) returns (ok: bool)
    requires item.Valid() && copy.Valid() && copy.kids == [] && copy !in Foot(item)
    requires hooks !in item.own && hooks !in hooks.live && Foot(copy) <= hooks.live
    modifies hooks, copy`child, copy`kids, copy`own
    ensures item.Valid() && copy.Valid() && fresh(copy.own - old(copy.own)) && old(copy.own) <= copy.own
    ensures hooks.live == old(hooks.live) + copy.own
    ensures ok ==>
      && |copy.kids| == |item.kids| && CopiesOf(item.kids, copy.kids)
      && hooks.exhausted == old(hooks.exhausted)
    ensures !ok ==> hooks.exhausted
    decreases item.own, 1
  {
    hide Node.Valid, Chain, Owned, Same, CopiesOf;
    var head; ghost var nodes;
    ok, head, nodes := DuplicateList(item, hooks);
    ItemParts(item);
    Outside(copy, nodes);
    Adopt(copy, head, nodes, hooks);
  }

  /**
   cJSON_Duplicate: with recurse a copy of the whole tree, without it a copy of the top node, or
   nothing, and nothing left behind, when an allocation fails.
   */
  method Duplicate(item: Node, recurse: bool, hooks: Hooks) returns (copy: Node?)
    requires item.Valid() && hooks !in item.own && hooks !in hooks.live
    modifies hooks
    ensures copy == null ==> hooks.exhausted && hooks.live == old(hooks.live)
    ensures copy != null ==>
      && copy.Valid() && copy.next == copy.prev == null && item.Valid()
      && (if recurse then Same(item, copy) else copy.kids == [] && SameFields(item, copy))
      && fresh(Foot(copy)) && hooks.live == old(hooks.live) + Foot(copy) && hooks.exhausted == old(hooks.exhausted)
    decreases item.own, 2
  {
    hide Node.Valid, Node.StringsEnded, Chain, Owned, Same, SameString, CopiesOf;
    StringsOwned(item);
    copy := DuplicateFields(item, hooks);
    if copy == null || !recurse {
      return;
    }
    var ok := DuplicateChildren(item, copy, hooks);
    if ok {
      SameWith(item, copy);
    } else {
      SingleChain(copy, hooks);
      Delete(copy, [copy], hooks);
      copy := null;
    }
  }

  // ---------------------------------------------------------------- comparing a tree with its copy

  /** A tree and its copy compare equal exactly when no object contradicts itself, so whenever keys are distinct. */
  lemma CopyComparesEqual(a: Node, b: Node, x: Json, y: Json, sensitive: bool)
    requires a.Valid() && b.Valid() && Same(a, b) && a.Holds(x) && b.Holds(y)
    ensures JsonCompare.Equal(x, y, sensitive) <==> JsonCompare.Consistent(x, sensitive)
    ensures JsonCompare.DistinctKeys(x, sensitive) ==> JsonCompare.Equal(x, y, sensitive)
  {
    SameHolds(a, b, x);
    HoldsOne(b, x, y);
    JsonCompare.Reflexive(x, sensitive);
  }
}
