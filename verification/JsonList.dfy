/**
 Editing the sibling list of a container in jsonRead/cJSON.c: pointer surgery that acts on the
 sequence of children, and keeps a whole tree whole.
 */
module JsonList {
  import opened Bytes
  import opened Memory
  import opened CJson

  function InsertAt<T>(s: seq<T>, k: nat, x: T): (t: seq<T>)
    requires k <= |s|
    ensures |t| == |s| + 1 && t[k] == x
    ensures forall i: nat :: i < k ==> t[i] == s[i]
    ensures forall i: nat :: k < i < |t| ==> t[i] == s[i - 1]
  {
    s[..k] + [x] + s[k..]
  }

  function RemoveAt<T>(s: seq<T>, k: nat): (t: seq<T>)
    requires k < |s|
    ensures |t| == |s| - 1
    ensures forall i: nat :: i < k ==> t[i] == s[i]
    ensures forall i: nat :: k <= i < |t| ==> t[i] == s[i + 1]
  {
    s[..k] + s[k + 1..]
  }

  /** The child pointer and the sibling pointers spell out the children. */
  ghost predicate Listed(parent: Node)
    reads parent`child, parent`kids, parent.kids`next, parent.kids`prev
  {
    parent.child == (if parent.kids == [] then null else parent.kids[0]) && Linked(parent.kids)
  }

  /** Following `next` from two places in a chain never meets: the nodes are all different. */
  lemma {:induction false} LinkedDistinct(nodes: seq<Node>, i: nat, k: nat)
    requires Linked(nodes) && i < k < |nodes|
    ensures nodes[i] != nodes[k]
    decreases |nodes| - k
  {
    assert LinksAt(nodes, i) && LinksAt(nodes, k);
    if k + 1 < |nodes| {
      LinkedDistinct(nodes, i + 1, k + 1);
    }
  }

  // ---------------------------------------------------------------- looking up

  /** cJSON_GetArrayItem. */
  method GetArrayItem(parent: Node, index: int) returns (item: Node?)
    requires Listed(parent)
    ensures item == if 0 <= index < |parent.kids| then parent.kids[index] else null
  {
    if index < 0 {
      return null;
    }
    ghost var i: nat := 0;
    var left := index;
    item := parent.child;
    while item != null && left > 0
      invariant 0 <= left && i + left == index && i <= |parent.kids|
      invariant item == if i < |parent.kids| then parent.kids[i] else null
      decreases left
    {
      assert LinksAt(parent.kids, i);
      item, left, i := item.next, left - 1, i + 1;
    }
  }

  // ---------------------------------------------------------------- ownership, whatever the order

  lemma {:induction false} OwnedIs(nodes: seq<Node>)
    ensures Owned(nodes) == set n, o | n in nodes && o in Foot(n) :: o
    decreases |nodes|
  {
    if nodes != [] {
      var k := |nodes| - 1;
      OwnedIs(nodes[..k]);
      assert forall n :: n in nodes <==> n in nodes[..k] || n == nodes[k];
    }
  }

  lemma {:induction false} OwnedApart(nodes: seq<Node>, item: Node)
    requires forall i: nat :: i < |nodes| ==> Foot(nodes[i]) !! Foot(item)
    ensures Owned(nodes) !! Foot(item)
    decreases |nodes|
  {
    if nodes != [] {
      OwnedApart(nodes[..|nodes| - 1], item);
    }
  }

  lemma {:induction false} SeparateIf(nodes: seq<Node>)
    requires forall i: nat, k: nat :: i < k < |nodes| ==> Foot(nodes[i]) !! Foot(nodes[k])
    ensures Separate(nodes)
    decreases |nodes|
  {
    if nodes != [] {
      var k := |nodes| - 1;
      SeparateIf(nodes[..k]);
      OwnedIs(nodes[..k]);
    }
  }

  lemma InsertApart(nodes: seq<Node>, k: nat, item: Node)
    requires Separate(nodes) && Owned(nodes) !! Foot(item) && k <= |nodes|
    ensures Separate(InsertAt(nodes, k, item)) && Owned(InsertAt(nodes, k, item)) == Owned(nodes) + Foot(item)
  {
    hide Separate, Owned, Foot;
    var t := InsertAt(nodes, k, item);
    forall i: nat, j: nat | i < j < |t|
      ensures Foot(t[i]) !! Foot(t[j])
    {
      if i != k && j != k {
        FootsApart(nodes, if i < k then i else i - 1, if j < k then j else j - 1);
      } else {
        OwnedMember(nodes, if i == k then j - 1 else i);
      }
    }
    SeparateIf(t);
    OwnedIs(t);
    OwnedIs(nodes);
    assert forall n :: n in t <==> n in nodes || n == item;
  }

  lemma Reinsert<T>(s: seq<T>, k: nat)
    requires k < |s|
    ensures InsertAt(RemoveAt(s, k), k, s[k]) == s
  {
  }

  lemma RemoveApart(nodes: seq<Node>, k: nat)
    requires Separate(nodes) && k < |nodes|
    ensures Separate(RemoveAt(nodes, k)) && Owned(RemoveAt(nodes, k)) !! Foot(nodes[k])
    ensures Owned(nodes) == Owned(RemoveAt(nodes, k)) + Foot(nodes[k])
  {
    hide Separate, Owned, Foot, InsertAt, RemoveAt;
    var t := RemoveAt(nodes, k);
    forall i: nat | i < |t|
      ensures Foot(t[i]) !! Foot(nodes[k])
      ensures forall j: nat :: i < j < |t| ==> Foot(t[i]) !! Foot(t[j])
    {
      var from := if i < k then i else i + 1;
      if i < k {
        FootsApart(nodes, i, k);
      } else {
        FootsApart(nodes, k, from);
      }
      forall j: nat | i < j < |t|
        ensures Foot(t[i]) !! Foot(t[j])
      {
        FootsApart(nodes, from, if j < k then j else j + 1);
      }
    }
    SeparateIf(t);
    OwnedApart(t, nodes[k]);
    InsertApart(t, k, nodes[k]);
    Reinsert(nodes, k);
  }

  // ---------------------------------------------------------------- inserting

  /** The parent and the item are whole trees with nothing in common. */
  ghost predicate Apart(parent: Node, item: Node)
    reads parent`child, parent`valuestring, parent`name, parent`kids, parent`own, parent.own
    reads item`child, item`valuestring, item`name, item`kids, item`own, item.own
  {
    parent.Valid() && item.Valid() && Foot(parent) !! Foot(item)
  }

  /** Every node stands for what it stood for. */
  twostate predicate Kept(nodes: seq<Node>)
    reads nodes`child, nodes`kind, nodes`valuestring, nodes`valueint, nodes`valuedouble, nodes`name, nodes`kids,
      nodes`own, Below(nodes)
  {
    && (forall n, j :: n in nodes && old(n.Holds(j)) ==> n.Holds(j))
    && (forall n, k, j :: n in nodes && old(n.HoldsMember(k, j)) ==> n.HoldsMember(k, j))
  }

  lemma ValidParts(parent: Node)
    requires parent.Valid()
    ensures Listed(parent) && Separate(parent.kids) && AllValid(parent.kids)
    ensures parent.own == parent.Strings() + Owned(parent.kids) && parent.Strings() !! Owned(parent.kids)
    ensures parent !in parent.own && parent.StringsEnded()
  {
    hide Owned, Separate, Linked;
  }

  /** The nodes an edit may link, and the parent, lie below none of them. */
  ghost predicate OnTop(parent: Node, nodes: seq<Node>)
    reads nodes`own
  {
    parent !in Below(nodes) && parent !in nodes && forall n :: n in nodes ==> n !in Below(nodes)
  }

  lemma KidsOnTop(parent: Node)
    requires parent.Valid()
    ensures OnTop(parent, parent.kids)
  {
    hide Owned, Separate, Linked, AllValid, Node.Valid, Below;
    ValidParts(parent);
    BelowOwned(parent.kids);
    forall i: nat | i < |parent.kids|
      ensures parent.kids[i] !in Below(parent.kids) && parent.kids[i] != parent
    {
      TopApart(parent.kids, i);
      OwnedMember(parent.kids, i);
    }
  }

  lemma BothOnTop(parent: Node, item: Node)
    requires Apart(parent, item)
    ensures item !in parent.kids && forall n :: n in parent.kids || n == item ==> n in parent.kids + [item]
    ensures var all := parent.kids + [item];
      && OnTop(parent, all) && Separate(all) && AllValid(all)
      && parent.own + Foot(item) == parent.Strings() + Owned(all) && parent.Strings() !! Owned(all)
  {
    hide Owned, Separate, Linked, AllValid, Node.Valid, Below;
    ValidParts(parent);
    var all := parent.kids + [item];
    Snoc(parent.kids, item);
    AllValidSnoc(parent.kids, item);
    BelowOwned(all);
    forall i: nat | i < |all|
      ensures all[i] !in Below(all) && all[i] != parent && (i < |parent.kids| ==> all[i] != item)
    {
      TopApart(all, i);
      OwnedMember(all, i);
      if i < |parent.kids| {
        FootsApart(all, i, |parent.kids|);
      }
    }
  }

  lemma ValidInsert(parent: Node, nodes: seq<Node>, k: nat, item: Node)
    requires k <= |nodes| && Separate(nodes + [item]) && AllValid(nodes + [item])
    requires Listed(parent) && parent.kids == InsertAt(nodes, k, item)
    requires parent.own == parent.Strings() + Owned(nodes + [item]) && parent.Strings() !! Owned(nodes + [item])
    requires parent !in parent.own && parent.StringsEnded()
    ensures parent.Valid()
  {
    hide Linked, Node.Valid;
    assert (nodes + [item])[..|nodes|] == nodes;
    InsertApart(nodes, k, item);
    ValidWith(parent, parent.kids);
  }

  /** The list half of add_item_to_array, for an item without siblings. */
  method LinkLast(parent: Node, item: Node)
    requires Listed(parent) && item !in parent.kids && item.next == item.prev == null
    modifies parent`child, parent`kids, parent.kids`next, item`prev
    ensures Listed(parent) && parent.kids == InsertAt(old(parent.kids), |old(parent.kids)|, item)
  {
    ghost var kids := parent.kids;
    ghost var n := |kids|;
    if parent.child == null {
      parent.child := item;
    } else {
      ghost var i: nat := 0;
      var child := parent.child;
      while child.next != null
        invariant i < n && child == kids[i]
        decreases n - i
      {
        assert LinksAt(kids, i);
        child, i := child.next, i + 1;
      }
      assert LinksAt(kids, i);
      child.next := item;
      item.prev := child;
    }
    parent.kids := InsertAt(kids, n, item);
    LinkedSnoc(kids, item);
    assert kids + [item] == parent.kids;
  }

  twostate lemma KeptBy(nodes: seq<Node>)
    requires unchanged(nodes`child, nodes`kind, nodes`valuestring, nodes`valueint, nodes`valuedouble, nodes`name,
      nodes`kids, nodes`own)
    requires unchanged(old(Below(nodes)))
    ensures Kept(nodes) && AllValid(nodes) == old(AllValid(nodes)) && Separate(nodes) == old(Separate(nodes))
    ensures Owned(nodes) == old(Owned(nodes))
  {
    hide Below, AllValid, Separate, Owned, Node.Valid;
  }

  /** add_item_to_array. */
  method AddItemToArray(parent: Node, item: Node)
    requires Listed(parent) && item !in parent.kids && item.next == item.prev == null
    modifies parent`child, parent`kids, parent`own, parent.kids`next, item`prev
    ensures Listed(parent) && parent.kids == old(parent.kids) + [item]
    ensures parent.own == old(parent.own + Foot(item))
    ensures old(Apart(parent, item)) ==> parent.Valid() && Kept(old(parent.kids) + [item])
  {
    hide Owned, Separate, AllValid, Node.Valid, Node.StringsEnded, Kept, Linked;
    ghost var kids := parent.kids;
    if Apart(parent, item) {
      BothOnTop(parent, item);
      ValidParts(parent);
    }
    LinkLast(parent, item);
    parent.own := parent.own + Foot(item);
    assert kids + [item] == parent.kids;
    if old(Apart(parent, item)) {
      KeptBy(kids + [item]);
      ValidInsert(parent, kids, |kids|, item);
    }
  }

  /** cJSON_InsertItemInArray: at the index, at the end when the index is too large, nowhere when it is negative. */
  method InsertItemInArray(parent: Node, which: int, newitem: Node)
    requires Listed(parent) && newitem !in parent.kids && newitem.next == newitem.prev == null
    modifies parent`child, parent`kids, parent`own, parent.kids`next, parent.kids`prev, newitem`next, newitem`prev
    ensures Listed(parent)
    ensures which < 0 ==> parent.kids == old(parent.kids) && parent.own == old(parent.own)
    ensures which >= 0 ==>
      && parent.kids == InsertAt(old(parent.kids), Min(which, |old(parent.kids)|), newitem)
      && parent.own == old(parent.own + Foot(newitem))
    ensures which >= 0 && old(Apart(parent, newitem)) ==> parent.Valid() && Kept(old(parent.kids) + [newitem])
  {
    hide Owned, Separate, AllValid, Node.Valid, Linked;
    if which < 0 {
      return;
    }
    var after := GetArrayItem(parent, which);
    if after == null {
      AddItemToArray(parent, newitem);
      assert parent.kids == InsertAt(old(parent.kids), |old(parent.kids)|, newitem);
      return;
    }
    InsertBefore(parent, after, newitem, which);
  }

  /** The case of cJSON_InsertItemInArray where there is an item at the index. */
  method InsertBefore(parent: Node, after: Node, newitem: Node, ghost k: nat)
    requires Listed(parent) && newitem !in parent.kids && k < |parent.kids| && after == parent.kids[k]
    modifies parent`child, parent`kids, parent`own, parent.kids`next, parent.kids`prev, newitem`next, newitem`prev
    ensures Listed(parent) && parent.kids == InsertAt(old(parent.kids), k, newitem)
    ensures parent.own == old(parent.own + Foot(newitem))
    ensures old(Apart(parent, newitem)) ==> parent.Valid() && Kept(old(parent.kids) + [newitem])
  {
    hide Owned, Separate, AllValid, Node.Valid, Node.StringsEnded, Kept, Linked;
    ghost var kids := parent.kids;
    if Apart(parent, newitem) {
      BothOnTop(parent, newitem);
      ValidParts(parent);
    }
    LinkBefore(parent, after, newitem, k);
    parent.own := parent.own + Foot(newitem);
    if old(Apart(parent, newitem)) {
      KeptBy(kids + [newitem]);
      ValidInsert(parent, kids, k, newitem);
    }
  }

  /** The pointers of cJSON_InsertItemInArray in front of an existing item. */
  method LinkBefore(parent: Node, after: Node, newitem: Node, ghost k: nat)
    requires Listed(parent) && newitem !in parent.kids && k < |parent.kids| && after == parent.kids[k]
    modifies parent`child, parent`kids, parent.kids`next, parent.kids`prev, newitem`next, newitem`prev
    ensures Listed(parent) && parent.kids == InsertAt(old(parent.kids), k, newitem)
  {
    ghost var kids := parent.kids;
    AllDistinct(kids);
    assert LinksAt(kids, k);
    newitem.next := after;
    newitem.prev := after.prev;
    after.prev := newitem;
    if after == parent.child {
      parent.child := newitem;
    } else {
      newitem.prev.next := newitem;
    }
    parent.kids := InsertAt(kids, k, newitem);
    ghost var t := parent.kids;
    forall i: nat | i < |t|
      ensures LinksAt(t, i)
    {
      if i < k {
        assert old(LinksAt(kids, i));
      } else if i > k {
        assert old(LinksAt(kids, i - 1));
      }
    }
  }

  lemma AllDistinct(nodes: seq<Node>)
    requires Linked(nodes)
    ensures forall i: nat, k: nat :: i < k < |nodes| ==> nodes[i] != nodes[k]
  {
    forall i: nat, k: nat | i < k < |nodes|
      ensures nodes[i] != nodes[k]
    {
      LinkedDistinct(nodes, i, k);
    }
  }

  // ---------------------------------------------------------------- detaching

  /** The pointers of cJSON_DetachItemViaPointer. */
  method Unlink(parent: Node, item: Node, ghost k: nat)
    requires Listed(parent) && k < |parent.kids| && item == parent.kids[k]
    modifies parent`child, parent`kids, parent.kids`next, parent.kids`prev
    ensures Listed(parent) && parent.kids == RemoveAt(old(parent.kids), k)
    ensures item.next == item.prev == null
  {
    ghost var kids := parent.kids;
    AllDistinct(kids);
    assert LinksAt(kids, k) && (k > 0 ==> LinksAt(kids, k - 1)) && (k + 1 < |kids| ==> LinksAt(kids, k + 1));
    if item.prev != null {
      item.prev.next := item.next;
    }
    if item.next != null {
      item.next.prev := item.prev;
    }
    if item == parent.child {
      parent.child := item.next;
    }
    item.prev := null;
    item.next := null;
    parent.kids := RemoveAt(kids, k);
    ghost var t := parent.kids;
    forall i: nat | i < |t|
      ensures LinksAt(t, i)
    {
      assert old(LinksAt(kids, if i < k then i else i + 1));
    }
  }

  lemma ValidRemove(parent: Node, nodes: seq<Node>, k: nat)
    requires k < |nodes| && Separate(nodes) && AllValid(nodes)
    requires Listed(parent) && parent.kids == RemoveAt(nodes, k)
    requires parent.own == parent.Strings() + Owned(nodes) - Foot(nodes[k]) && parent.Strings() !! Owned(nodes)
    requires parent !in parent.own && parent.StringsEnded()
    ensures parent.Valid() && nodes[k].Valid()
  {
    hide Linked, Separate, Owned, Node.Valid, Foot;
    RemoveApart(nodes, k);
    ValidWith(parent, parent.kids);
  }

  /** cJSON_DetachItemViaPointer, for the child at place k, or for no item at all. */
  method DetachItemViaPointer(parent: Node, item: Node?, ghost k: nat) returns (detached: Node?)
    requires Listed(parent) && (item != null ==> k < |parent.kids| && item == parent.kids[k])
    modifies parent`child, parent`kids, parent`own, parent.kids`next, parent.kids`prev
    ensures detached == item && Listed(parent)
    ensures item == null ==> unchanged(parent) && unchanged(old(parent.kids))
    ensures item != null ==>
      && parent.kids == RemoveAt(old(parent.kids), k) && item.next == item.prev == null
      && parent.own == old(parent.own - Foot(item))
    ensures item != null && old(parent.Valid()) ==>
      && parent.Valid() && item.Valid() && Foot(item) !! Foot(parent)
      && Kept(old(parent.kids))
  {
    hide Owned, Separate, AllValid, Node.Valid, Node.StringsEnded, Kept, Linked;
    detached := item;
    if item == null {
      return;
    }
    ghost var kids := parent.kids;
    if parent.Valid() {
      KidsOnTop(parent);
      ValidParts(parent);
      OwnedMember(kids, k);
    }
    Unlink(parent, item, k);
    parent.own := parent.own - Foot(item);
    if old(parent.Valid()) {
      KeptBy(kids);
      ValidRemove(parent, kids, k);
    }
  }

  /** cJSON_DetachItemFromArray. */
  method DetachItemFromArray(parent: Node, which: int) returns (detached: Node?)
    requires parent.Valid()
    modifies parent`child, parent`kids, parent`own, parent.kids`next, parent.kids`prev
    ensures parent.Valid() && Kept(old(parent.kids))
    ensures 0 <= which < |old(parent.kids)| ==>
      && detached == old(parent.kids)[which] && parent.kids == RemoveAt(old(parent.kids), which)
      && detached.Valid() && detached.next == detached.prev == null
      && Foot(detached) !! Foot(parent) && parent.own == old(parent.own - Foot(parent.kids[which]))
    ensures !(0 <= which < |old(parent.kids)|) ==>
      && detached == null && parent.kids == old(parent.kids)
      && parent.own == old(parent.own)
  {
    hide Owned, Separate, AllValid, Node.Valid, Linked, Below;
    ValidParts(parent);
    detached := GetArrayItem(parent, which);
    detached := DetachItemViaPointer(parent, detached, if detached == null then 0 else which);
  }

  /** cJSON_DeleteItemFromArray: the item and all it owns are freed, and nothing else. */
  method DeleteItemFromArray(parent: Node, which: int, hooks: Hooks)
    requires parent.Valid() && parent.own <= hooks.live && hooks !in hooks.live
    modifies hooks, parent`child, parent`kids, parent`own, parent.kids`next, parent.kids`prev
    ensures parent.Valid() && parent.own <= hooks.live && Kept(old(parent.kids))
    ensures 0 <= which < |old(parent.kids)| ==>
      && parent.kids == RemoveAt(old(parent.kids), which)
      && hooks.live == old(hooks.live - Foot(parent.kids[which]))
      && parent.own == old(parent.own - Foot(parent.kids[which]))
    ensures !(0 <= which < |old(parent.kids)|) ==>
      parent.kids == old(parent.kids) && hooks.live == old(hooks.live) && parent.own == old(parent.own)
  {
    hide Owned, Separate, AllValid, Node.Valid, Linked;
    ValidParts(parent);
    BelowOwned(parent.kids);
    assert forall n :: n in parent.kids ==> n.own <= Below(parent.kids);
    if 0 <= which < |parent.kids| {
      OwnedMember(parent.kids, which);
    }
    var item := DetachItemFromArray(parent, which);
    if item != null {
      SingleChain(item, hooks);
      Delete(item, [item], hooks);
    } else {
      EmptyChain(hooks);
      Delete(null, [], hooks);
    }
  }

  // ---------------------------------------------------------------- replacing

  /** The pointers of cJSON_ReplaceItemViaPointer. */
  method LinkInstead(parent: Node, item: Node, replacement: Node, ghost k: nat)
    requires Listed(parent) && k < |parent.kids| && item == parent.kids[k] && replacement !in parent.kids
    modifies parent`child, parent`kids, parent.kids`next, parent.kids`prev, replacement`next, replacement`prev
    ensures Listed(parent) && parent.kids == old(parent.kids)[k := replacement]
    ensures item.next == item.prev == null
  {
    ghost var kids := parent.kids;
    AllDistinct(kids);
    assert LinksAt(kids, k) && (k > 0 ==> LinksAt(kids, k - 1)) && (k + 1 < |kids| ==> LinksAt(kids, k + 1));
    replacement.next := item.next;
    replacement.prev := item.prev;
    if replacement.next != null {
      replacement.next.prev := replacement;
    }
    if replacement.prev != null {
      replacement.prev.next := replacement;
    }
    if parent.child == item {
      parent.child := replacement;
    }
    item.next := null;
    item.prev := null;
    parent.kids := kids[k := replacement];
    ghost var t := parent.kids;
    forall i: nat | i < |t|
      ensures LinksAt(t, i)
    {
      assert old(LinksAt(kids, i));
    }
  }

  lemma ValidReplace(parent: Node, nodes: seq<Node>, k: nat, item: Node)
    requires k < |nodes| && Separate(nodes + [item]) && AllValid(nodes + [item])
    requires Listed(parent) && parent.kids == nodes[k := item]
    requires parent.own == parent.Strings() + Owned(nodes + [item]) - Foot(nodes[k])
      && parent.Strings() !! Owned(nodes + [item])
    requires parent !in parent.own && parent.StringsEnded()
    ensures parent.Valid() && nodes[k].Valid()
  {
    hide Linked, Node.Valid, Foot;
    assert (nodes + [item])[..|nodes|] == nodes;
    assert (nodes + [item])[k] == nodes[k];
    var t := RemoveAt(nodes, k);
    RemoveApart(nodes, k);
    InsertApart(t, k, item);
    assert InsertAt(t, k, item) == nodes[k := item];
    ValidWith(parent, parent.kids);
  }

  /** cJSON_ReplaceItemViaPointer, for the child at place k: the old item is freed. */
  method ReplaceItemViaPointer(parent: Node, item: Node?, replacement: Node?, hooks: Hooks,
    ghost k: nat) returns (ok: bool)
    requires parent.Valid() && (item != null ==> k < |parent.kids| && item == parent.kids[k])
    requires item != null && replacement != null && replacement != item ==>
      Apart(parent, replacement) && Foot(parent) <= hooks.live && Foot(replacement) <= hooks.live
    requires hooks !in hooks.live
    modifies hooks, parent`child, parent`kids, parent`own, parent.kids`next, parent.kids`prev
    modifies (if replacement == null then {} else {replacement})`next,
      (if replacement == null then {} else {replacement})`prev
    ensures parent.Valid() && (ok <==> item != null && replacement != null)
    ensures hooks.exhausted == old(hooks.exhausted)
    ensures ok && replacement != item ==>
      && parent.kids == old(parent.kids)[k := replacement] && Kept(old(parent.kids) + [replacement])
      && hooks.live == old(hooks.live - Foot(item))
      && parent.own == old(parent.own - Foot(item) + Foot(replacement))
    ensures !ok || replacement == item ==>
      && unchanged(parent) && unchanged(old(parent.kids)) && (replacement == null || unchanged(replacement))
      && hooks.live == old(hooks.live)
  {
    hide Owned, Separate, AllValid, Node.Valid, Node.StringsEnded, Linked;
    if item == null || replacement == null {
      return false;
    }
    if replacement == item {
      return true;
    }
    ghost var all := parent.kids + [replacement];
    BothOnTop(parent, replacement);
    BelowOwned(all);
    assert forall n :: n in all ==> n.own <= Below(all);
    Substitute(parent, item, replacement, k);
    SingleChain(item, hooks);
    Delete(item, [item], hooks);
    return true;
  }

  /** The replacement takes the place of the item, which is left on its own. */
  method Substitute(parent: Node, item: Node, replacement: Node, ghost k: nat)
    requires k < |parent.kids| && item == parent.kids[k] && Apart(parent, replacement)
    modifies parent`child, parent`kids, parent`own, parent.kids`next, parent.kids`prev, replacement`next,
      replacement`prev
    ensures parent.Valid() && parent.kids == old(parent.kids)[k := replacement]
      && Kept(old(parent.kids) + [replacement])
    ensures item.Valid() && item.next == item.prev == null
    ensures parent.own == old(parent.own - Foot(item) + Foot(replacement)) && Foot(item) <= old(parent.own)
  {
    hide Owned, Separate, AllValid, Node.Valid, Node.StringsEnded, Kept, Linked;
    ghost var kids := parent.kids;
    ghost var all := kids + [replacement];
    BothOnTop(parent, replacement);
    ValidParts(parent);
    OwnedMember(kids, k);
    ghost var whole := parent.own + Foot(replacement);
    LinkInstead(parent, item, replacement, k);
    KeptBy(all);
    parent.own := whole - Foot(item);
    ValidReplace(parent, kids, k, replacement);
  }
}
