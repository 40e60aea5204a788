/**
 Editing arrays by index and objects by key in jsonRead/cJSON.c: what a container stands for after
 each edit, and what that means for the value it denotes.
 */
module JsonEdit {
  import opened Bytes
  import opened Json
  import opened Memory
  import opened CJson
  import opened JsonCompare
  import opened JsonCompareNodes
  import opened JsonList
  import opened JsonDuplicate

  // ---------------------------------------------------------------- arrays as values

  function ItemsFrom(js: seq<Json>): Items {
    if js == [] then INil else ICons(js[0], ItemsFrom(js[1..]))
  }

  lemma {:induction false} ItemsBack(js: seq<Json>)
    ensures ItemsOf(ItemsFrom(js)) == js
  {
    if js != [] {
      ItemsBack(js[1..]);
    }
  }

  lemma ArrayOf(parent: Node, js: seq<Json>)
    requires parent.Valid() && parent.kind == IsArray && HoldsAll(parent.kids, js)
    ensures parent.Holds(Array(ItemsFrom(js)))
  {
    ItemsBack(js);
    HoldsArray(parent, ItemsFrom(js));
  }

  lemma ArrayHolds(parent: Node, items: Items)
    requires parent.Holds(Array(items))
    ensures HoldsAll(parent.kids, ItemsOf(items)) && parent.kind == IsArray && parent.Valid()
  {
  }

  /** With a new child among the old ones the array stands for the old values with the new one among them. */
  lemma InsertedValue(parent: Node, nodes: seq<Node>, k: nat, item: Node, js: seq<Json>, j: Json)
    requires HoldsAll(nodes, js) && item.Holds(j) && k <= |js|
    requires parent.Valid() && parent.kind == IsArray && parent.kids == InsertAt(nodes, k, item)
    ensures parent.Holds(Array(ItemsFrom(InsertAt(js, k, j))))
  {
    hide Node.Holds, Node.Valid;
    ArrayOf(parent, InsertAt(js, k, j));
  }

  /** Without one of the old children, for the values without that one. */
  lemma RemovedValue(parent: Node, nodes: seq<Node>, k: nat, js: seq<Json>)
    requires HoldsAll(nodes, js) && k < |js|
    requires parent.Valid() && parent.kind == IsArray && parent.kids == RemoveAt(nodes, k)
    ensures parent.Holds(Array(ItemsFrom(RemoveAt(js, k))))
  {
    hide Node.Holds, Node.Valid;
    ArrayOf(parent, RemoveAt(js, k));
  }

  /** With one of the old children exchanged, for the values with that one exchanged. */
  lemma ReplacedValue(parent: Node, nodes: seq<Node>, k: nat, item: Node, js: seq<Json>, j: Json)
    requires HoldsAll(nodes, js) && item.Holds(j) && k < |js|
    requires parent.Valid() && parent.kind == IsArray && parent.kids == nodes[k := item]
    ensures parent.Holds(Array(ItemsFrom(js[k := j])))
  {
    hide Node.Holds, Node.Valid;
    ArrayOf(parent, js[k := j]);
  }

  // ---------------------------------------------------------------- editing arrays

  /** cJSON_AddItemToArray, for an array whose items are known. */
  method AddToArray(list: Node, item: Node, ghost items: Items, ghost j: Json)
    requires list.Holds(Array(items)) && item.Holds(j) && Apart(list, item) && item.next == item.prev == null
    modifies list`child, list`kids, list`own, list.kids`next, item`prev
    ensures list.Holds(Array(ItemsFrom(ItemsOf(items) + [j])))
    ensures list.own == old(list.own + Foot(item))
  {
    hide Owned, Separate, AllValid, Node.Valid, Linked, Node.Holds;
    ArrayHolds(list, items);
    NotAChild(list, item);
    ghost var kids, n := list.kids, |list.kids|;
    AddItemToArray(list, item);
    assert list.kids == InsertAt(old(list.kids), n, item);
    assert HoldsAll(kids, ItemsOf(items)) && item.Holds(j) by {
      assert forall i: nat :: i < n ==> kids[i] in kids + [item] && old(kids[i].Holds(ItemsOf(items)[i]));
      assert item in kids + [item];
    }
    InsertedValue(list, kids, n, item, ItemsOf(items), j);
    assert InsertAt(ItemsOf(items), n, j) == ItemsOf(items) + [j];
  }

  lemma NotAChild(parent: Node, item: Node)
    requires Apart(parent, item)
    ensures item !in parent.kids && Listed(parent)
  {
    BothOnTop(parent, item);
    ValidParts(parent);
  }

  /** cJSON_InsertItemInArray, for an array whose items are known. */
  method InsertIntoArray(list: Node, which: int, newitem: Node, ghost items: Items, ghost j: Json)
    requires list.Holds(Array(items)) && newitem.Holds(j) && Apart(list, newitem)
    requires newitem.next == newitem.prev == null
    modifies list`child, list`kids, list`own, list.kids`next, list.kids`prev, newitem`next, newitem`prev
    ensures which >= 0 ==>
      && Min(which, |ItemsOf(items)|) <= |ItemsOf(items)|
      && list.Holds(Array(ItemsFrom(InsertAt(ItemsOf(items), Min(which, |ItemsOf(items)|), j))))
      && list.own == old(list.own + Foot(newitem))
    ensures which < 0 ==> list.Holds(Array(items)) && newitem.Holds(j) && Apart(list, newitem)
  {
    hide Owned, Separate, AllValid, Node.Valid, Linked, Node.Holds;
    if which < 0 {
      return;
    }
    ArrayHolds(list, items);
    NotAChild(list, newitem);
    ghost var kids, js := list.kids, ItemsOf(items);
    InsertItemInArray(list, which, newitem);
    assert HoldsAll(kids, js) && newitem.Holds(j) by {
      assert forall i: nat :: i < |kids| ==> kids[i] in kids + [newitem] && old(kids[i].Holds(js[i]));
      assert newitem in kids + [newitem];
    }
    InsertedValue(list, kids, Min(which, |js|), newitem, js, j);
  }

  /** cJSON_DeleteItemFromArray, for an array whose items are known. */
  method DeleteFromArray(list: Node, which: int, hooks: Hooks, ghost items: Items)
    requires list.Holds(Array(items)) && list.own <= hooks.live && hooks !in hooks.live
    modifies hooks, list`child, list`kids, list`own, list.kids`next, list.kids`prev
    ensures 0 <= which < |ItemsOf(items)| ==> list.Holds(Array(ItemsFrom(RemoveAt(ItemsOf(items), which))))
    ensures !(0 <= which < |ItemsOf(items)|) ==> list.Holds(Array(items))
    ensures hooks.live - list.own == old(hooks.live - list.own)
  {
    hide Owned, Separate, AllValid, Node.Valid, Linked, Node.Holds;
    ArrayHolds(list, items);
    ghost var kids, js := list.kids, ItemsOf(items);
    DeleteItemFromArray(list, which, hooks);
    assert HoldsAll(kids, js) by {
      assert forall i: nat :: i < |kids| ==> kids[i] in kids && old(kids[i].Holds(js[i]));
    }
    if 0 <= which < |js| {
      RemovedValue(list, kids, which, js);
    } else {
      HoldsArray(list, items);
    }
  }

  /** cJSON_ReplaceItemInArray. */
  method ReplaceItemInArray(list: Node, which: int, newitem: Node, hooks: Hooks, ghost items: Items, ghost j: Json)
    requires list.Holds(Array(items)) && newitem.Holds(j) && Apart(list, newitem)
    requires Foot(list) <= hooks.live && Foot(newitem) <= hooks.live && hooks !in hooks.live
    modifies hooks, list`child, list`kids, list`own, list.kids`next, list.kids`prev, newitem`next, newitem`prev
    ensures 0 <= which < |ItemsOf(items)| ==>
      && list.Holds(Array(ItemsFrom(ItemsOf(items)[which := j])))
      && hooks.live - list.own == old(hooks.live - list.own - Foot(newitem))
    ensures !(0 <= which < |ItemsOf(items)|) ==>
      list.Holds(Array(items)) && newitem.Holds(j) && Apart(list, newitem) && hooks.live == old(hooks.live)
  {
    hide Owned, Separate, AllValid, Node.Valid, Linked, Node.Holds;
    ArrayHolds(list, items);
    NotAChild(list, newitem);
    if which < 0 {
      return;
    }
    ghost var kids, js := list.kids, ItemsOf(items);
    var item := GetArrayItem(list, which);
    var ok := ReplaceItemViaPointer(list, item, newitem, hooks, if item == null then 0 else which);
    if item != null {
      assert HoldsAll(kids, js) && newitem.Holds(j) by {
        assert forall i: nat :: i < |kids| ==> kids[i] in kids + [newitem] && old(kids[i].Holds(js[i]));
        assert newitem in kids + [newitem];
      }
      ReplacedValue(list, kids, which, newitem, js, j);
    }
  }

  // ---------------------------------------------------------------- objects as values

  function AddLast(members: Members, key: Text, j: Json): Members {
    match members
    case MNil => MCons(key, j, MNil)
    case MCons(k, v, rest) => MCons(k, v, AddLast(rest, key, j))
  }

  /** Without the first member whose key agrees. */
  function RemoveFirst(members: Members, key: Text, sensitive: bool): Members {
    match members
    case MNil => MNil
    case MCons(k, v, rest) =>
      if Norm(k, sensitive) == Norm(key, sensitive) then rest else MCons(k, v, RemoveFirst(rest, key, sensitive))
  }

  /** With the first member whose key agrees changed, key and all. */
  function ReplaceFirst(members: Members, key: Text, j: Json, sensitive: bool): Members {
    match members
    case MNil => MNil
    case MCons(k, v, rest) =>
      if Norm(k, sensitive) == Norm(key, sensitive) then MCons(key, j, rest)
      else MCons(k, v, ReplaceFirst(rest, key, j, sensitive))
  }

  /** The members behind the first one with this key. */
  function Hidden(members: Members, key: Text, sensitive: bool): Members {
    match members
    case MNil => MNil
    case MCons(k, v, rest) => if Norm(k, sensitive) == Norm(key, sensitive) then rest else Hidden(rest, key, sensitive)
  }

  /** A new last member is seen exactly when its key is new. */
  lemma {:induction false} AddedMeaning(members: Members, key: Text, j: Json, sensitive: bool)
    ensures MembersMeaning(AddLast(members, key, j), sensitive)
         == map[Norm(key, sensitive) := Meaning(j, sensitive)] + MembersMeaning(members, sensitive)
    decreases members
  {
    hide Norm, Meaning;
    if members.MCons? {
      AddedMeaning(members.rest, key, j, sensitive);
    }
  }

  /** Replacing by key changes the entry under the key and nothing else; without that key, nothing. */
  lemma {:induction false} ReplacedMeaning(members: Members, key: Text, j: Json, sensitive: bool)
    ensures var m := MembersMeaning(members, sensitive); var n := Norm(key, sensitive);
      MembersMeaning(ReplaceFirst(members, key, j, sensitive), sensitive)
      == if n in m then m[n := Meaning(j, sensitive)] else m
    decreases members
  {
    hide Norm, Meaning;
    if members.MCons? {
      ReplacedMeaning(members.rest, key, j, sensitive);
    }
  }

  /** Removing by key takes the entry away, or uncovers the next member with that key; nothing else changes. */
  lemma {:induction false} RemovedMeaning(members: Members, key: Text, sensitive: bool)
    ensures var m := MembersMeaning(members, sensitive); var n := Norm(key, sensitive);
      var left, behind := MembersMeaning(RemoveFirst(members, key, sensitive), sensitive),
        MembersMeaning(Hidden(members, key, sensitive), sensitive);
      left == if n in behind then m[n := behind[n]] else m - {n}
    decreases members
  {
    hide Norm, Meaning;
    if members.MCons? {
      RemovedMeaning(members.rest, key, sensitive);
    }
  }

  /** Adding under a new key and removing under that key leads back. */
  lemma {:induction false} AddThenRemove(members: Members, key: Text, j: Json, sensitive: bool)
    requires Find(members, key, sensitive).None?
    ensures RemoveFirst(AddLast(members, key, j), key, sensitive) == members
    decreases members
  {
    hide Norm;
    if members.MCons? {
      AddThenRemove(members.rest, key, j, sensitive);
    }
  }

  // ---------------------------------------------------------------- objects and their children

  lemma ObjectHolds(parent: Node, members: Members)
    requires parent.Holds(Object(members))
    ensures HoldsMembers(parent.kids, MembersOf(members)) && parent.kind == IsObject && parent.Valid()
  {
  }

  lemma {:induction false} MembersOfAdded(members: Members, key: Text, j: Json)
    ensures MembersOf(AddLast(members, key, j)) == MembersOf(members) + [Member(key, j)]
    decreases members
  {
    if members.MCons? {
      MembersOfAdded(members.rest, key, j);
    }
  }

  lemma RemoveBehind<T>(x: T, s: seq<T>, i: nat)
    requires i < |s|
    ensures RemoveAt([x] + s, i + 1) == [x] + RemoveAt(s, i)
  {
  }

  lemma RemoveHead<T>(s: seq<T>)
    requires s != []
    ensures RemoveAt(s, 0) == s[1..]
  {
  }

  lemma ReplaceBehind<T>(x: T, s: seq<T>, i: nat, y: T)
    requires i < |s|
    ensures ([x] + s)[i + 1 := y] == [x] + s[i := y]
  {
  }

  lemma ReplaceHead<T>(s: seq<T>, y: T)
    requires s != []
    ensures s[0 := y] == [y] + s[1..]
  {
  }

  lemma {:induction false} MembersOfRemoved(members: Members, key: Text, sensitive: bool)
    ensures var ms := MembersOf(members); var i := Place(ms, key, sensitive);
      MembersOf(RemoveFirst(members, key, sensitive)) == if i < |ms| then RemoveAt(ms, i) else ms
    decreases members
  {
    hide Norm, Place, MembersOf, RemoveAt;
    var after := RemoveFirst(members, key, sensitive);
    MembersStep(members);
    MembersStep(after);
    PlaceStep(MembersOf(members), key, sensitive);
    if members.MCons? {
      var ms, rest := MembersOf(members), MembersOf(members.rest);
      MembersOfRemoved(members.rest, key, sensitive);
      var i := Place(rest, key, sensitive);
      if i < |rest| {
        RemoveBehind(ms[0], rest, i);
      }
      RemoveHead(ms);
    }
  }

  lemma {:induction false} MembersOfReplaced(members: Members, key: Text, j: Json, sensitive: bool)
    ensures var ms := MembersOf(members); var i := Place(ms, key, sensitive);
      MembersOf(ReplaceFirst(members, key, j, sensitive)) == if i < |ms| then ms[i := Member(key, j)] else ms
    decreases members
  {
    hide Norm, Place, MembersOf;
    var after := ReplaceFirst(members, key, j, sensitive);
    MembersStep(members);
    MembersStep(after);
    PlaceStep(MembersOf(members), key, sensitive);
    if members.MCons? {
      var ms, rest := MembersOf(members), MembersOf(members.rest);
      MembersOfReplaced(members.rest, key, j, sensitive);
      var i := Place(rest, key, sensitive);
      if i < |rest| {
        ReplaceBehind(ms[0], rest, i, Member(key, j));
      }
      ReplaceHead(ms, Member(key, j));
    }
  }

  /** With a new last child the object stands for the old members and the new one. */
  lemma AddedMember(parent: Node, nodes: seq<Node>, item: Node, members: Members, key: Text, j: Json)
    requires HoldsMembers(nodes, MembersOf(members)) && item.HoldsMember(key, j)
    requires parent.Valid() && parent.kind == IsObject && parent.kids == nodes + [item]
    ensures parent.Holds(Object(AddLast(members, key, j)))
  {
    hide Node.HoldsMember, Node.Valid, Node.Holds;
    HoldsMembersSnoc(nodes, MembersOf(members), item, key, j);
    MembersOfAdded(members, key, j);
    HoldsObject(parent, AddLast(members, key, j));
  }

  /** Without the first child under a key, for the members without the first one under that key. */
  lemma RemovedMember(parent: Node, nodes: seq<Node>, members: Members, key: Text, sensitive: bool)
    requires HoldsMembers(nodes, MembersOf(members)) && parent.Valid() && parent.kind == IsObject
    requires var i := Place(MembersOf(members), key, sensitive);
      parent.kids == if i < |nodes| then RemoveAt(nodes, i) else nodes
    ensures parent.Holds(Object(RemoveFirst(members, key, sensitive)))
  {
    hide Node.HoldsMember, Node.Valid, Node.Holds, Place;
    MembersOfRemoved(members, key, sensitive);
    HoldsObject(parent, RemoveFirst(members, key, sensitive));
  }

  /** With the first child under a key exchanged, for the members with the first one under that key exchanged. */
  lemma ReplacedMember(parent: Node, nodes: seq<Node>, item: Node, members: Members, key: Text, j: Json,
    sensitive: bool)
    requires HoldsMembers(nodes, MembersOf(members)) && item.HoldsMember(key, j)
    requires parent.Valid() && parent.kind == IsObject
    requires var i := Place(MembersOf(members), key, sensitive);
      parent.kids == if i < |nodes| then nodes[i := item] else nodes
    ensures parent.Holds(Object(ReplaceFirst(members, key, j, sensitive)))
  {
    hide Node.HoldsMember, Node.Valid, Node.Holds, Place;
    MembersOfReplaced(members, key, j, sensitive);
    HoldsObject(parent, ReplaceFirst(members, key, j, sensitive));
  }

  lemma ChildNamed(parent: Node, members: Members, k: nat)
    requires parent.Holds(Object(members)) && k < |parent.kids|
    ensures parent.kids[k].name != null
  {
    assert parent.kids[k].HoldsMember(MembersOf(members)[k].key, MembersOf(members)[k].value);
  }

  // ---------------------------------------------------------------- editing objects

  /** cJSON_DetachItemFromObject and its case-sensitive twin. */
  method DetachItemFromObject(parent: Node, name: array?<byte>, sensitive: bool, ghost members: Members)
    returns (item: Node?)
    requires parent.Holds(Object(members)) && (name == null || Ended(name))
    modifies parent`child, parent`kids, parent`own, parent.kids`next, parent.kids`prev
    ensures name == null ==> item == null && parent.Holds(Object(members)) && parent.own == old(parent.own)
    ensures name != null ==>
      && var key := UpToNul(name[..]);
      && parent.Holds(Object(RemoveFirst(members, key, sensitive)))
      && match Find(members, key, sensitive)
         case None => item == null && parent.own == old(parent.own)
         case Some(j) =>
           && item != null && item.Holds(j) && item.next == item.prev == null && Foot(item) !! Foot(parent)
           && parent.own == old(parent.own) - Foot(item) && Foot(item) <= old(parent.own)
  {
    hide *;
    hide Node.Valid, Node.Holds, Node.HoldsMember, Node.StringsEnded;
    item := GetObjectItem(parent, name, sensitive, members);
    if name != null {
      FoundHolds(parent, members, UpToNul(name[..]), sensitive);
    }
    if item != null {
      Take(parent, item, members, UpToNul(name[..]), sensitive);
    } else if name != null {
      NothingToTake(parent, members, UpToNul(name[..]), sensitive);
    }
  }

  lemma NothingToTake(parent: Node, members: Members, key: Text, sensitive: bool)
    requires parent.Holds(Object(members)) && Place(MembersOf(members), key, sensitive) >= |parent.kids|
    ensures parent.Holds(Object(RemoveFirst(members, key, sensitive)))
  {
    hide Node.Holds, Node.Valid, Node.HoldsMember, Place;
    ObjectHolds(parent, members);
    RemovedMember(parent, parent.kids, members, key, sensitive);
  }

  /** The first child under a key is detached. */
  method Take(parent: Node, item: Node, ghost members: Members, ghost key: Text, sensitive: bool)
    requires parent.Holds(Object(members))
    requires var i := Place(MembersOf(members), key, sensitive); i < |parent.kids| && item == parent.kids[i]
    modifies parent`child, parent`kids, parent`own, parent.kids`next, parent.kids`prev
    ensures parent.Holds(Object(RemoveFirst(members, key, sensitive)))
    ensures item.next == item.prev == null && Foot(item) !! Foot(parent) && parent.own == old(parent.own) - Foot(item)
    ensures forall j :: old(item.Holds(j)) ==> item.Holds(j)
  {
    hide Node.Valid, Node.Holds, Node.HoldsMember, Owned, Separate, AllValid, Linked, Place;
    ghost var kids, ms := parent.kids, MembersOf(members);
    ObjectHolds(parent, members);
    ValidParts(parent);
    var detached := DetachItemViaPointer(parent, item, Place(ms, key, sensitive));
    assert HoldsMembers(kids, ms) by {
      assert forall k: nat :: k < |kids| ==> kids[k] in kids && old(kids[k].HoldsMember(ms[k].key, ms[k].value));
    }
    RemovedMember(parent, kids, members, key, sensitive);
  }

  /** cJSON_DeleteItemFromObject and its case-sensitive twin. */
  method DeleteItemFromObject(parent: Node, name: array?<byte>, sensitive: bool, hooks: Hooks, ghost members: Members)
    requires parent.Holds(Object(members)) && (name == null || Ended(name))
    requires parent.own <= hooks.live && hooks !in hooks.live
    modifies hooks, parent`child, parent`kids, parent`own, parent.kids`next, parent.kids`prev
    ensures parent.Holds(Object(
      if name == null then members else RemoveFirst(members, UpToNul(name[..]), sensitive)))
    ensures hooks.live - parent.own == old(hooks.live - parent.own) && parent.own <= hooks.live
  {
    hide Node.Valid, Node.Holds, Node.HoldsMember, Owned, Separate, AllValid, Linked, Place, Find, UpToNul, Ended;
    WholeTree(parent, Object(members));
    var item := DetachItemFromObject(parent, name, sensitive, members);
    if item != null {
      WholeTree(item, Find(members, UpToNul(name[..]), sensitive).value);
      SingleChain(item, hooks);
      Delete(item, [item], hooks);
    } else {
      EmptyChain(hooks);
      Delete(null, [], hooks);
    }
  }

  lemma WholeTree(item: Node, j: Json)
    requires item.Holds(j)
    ensures item.Valid() && item !in item.own && NameOf(item) <= item.own
  {
  }

  ghost function NameOf(item: Node): set<object>
    reads item`name
  {
    if item.name == null then {} else {item.name}
  }

  /** The node gets another key, or none, and stays whole, as do its children. */
  method ExchangeName(item: Node, name: array?<byte>)
    requires item.Valid() && (name == null || (Ended(name) && name !in Foot(item)))
    modifies item`name, item`own
    ensures item.Valid() && item.name == name && item.own == old(item.own - NameOf(item)) + NameOf(item)
    ensures forall js :: old(HoldsAll(item.kids, js)) ==> HoldsAll(item.kids, js)
    ensures forall ms :: old(HoldsMembers(item.kids, ms)) ==> HoldsMembers(item.kids, ms)
  {
    hide Node.Valid, Owned, Separate, AllValid, Linked, HoldsAll, HoldsMembers, Ended;
    ValidParts(item);
    KidsOnTop(item);
    ghost var own := item.own - NameOf(item);
    item.name := name;
    item.own := own + NameOf(item);
    ValidWith(item, item.kids);
  }

  /** So it stands for what it stood for. */
  method SetName(item: Node, name: array?<byte>, ghost j: Json)
    requires item.Holds(j) && (name == null || (Ended(name) && name !in Foot(item)))
    modifies item`name, item`own
    ensures item.Holds(j) && item.name == name && item.own == old(item.own - NameOf(item)) + NameOf(item)
  {
    hide Node.Valid, HoldsAll, HoldsMembers, Ended, UpToNul;
    match j {
      case Array(items) => ArrayHolds(item, items);
      case Object(members) => ObjectHolds(item, members);
      case String(_) => StringApart(item);
      case _ =>
    }
    ExchangeName(item, name);
    match j {
      case Array(items) => HoldsArray(item, items);
      case Object(members) => HoldsObject(item, members);
      case _ =>
    }
  }

  lemma StringApart(item: Node)
    requires item.Valid()
    ensures item.valuestring != null ==> item.valuestring in item.own && item.valuestring != item.name
  {
  }

  lemma NamedMember(item: Node, j: Json)
    requires item.Holds(j) && item.name != null
    ensures item.HoldsMember(UpToNul(item.name[..]), j)
  {
  }

  lemma StillApart(parent: Node, item: Node, members: Members, j: Json)
    requires parent.Holds(Object(members)) && item.Holds(j) && Foot(parent) !! Foot(item)
    ensures Apart(parent, item)
  {
  }

  /** add_item_to_object, for a key that is copied. */
  method AddItemToObject(parent: Node, name: array?<byte>, item: Node, hooks: Hooks,
    ghost members: Members, ghost j: Json) returns (ok: bool)
    requires parent.Holds(Object(members)) && item.Holds(j) && Apart(parent, item) && item.next == item.prev == null
    requires Foot(parent) + Foot(item) <= hooks.live && hooks !in hooks.live && (name == null || Ended(name))
    modifies hooks, item`name, item`own, parent`child, parent`kids, parent`own, parent.kids`next, item`prev
    ensures ok ==>
      && name != null && parent.Holds(Object(AddLast(members, UpToNul(name[..]), j)))
      && hooks.exhausted == old(hooks.exhausted) && Foot(parent) <= hooks.live
      && hooks.live - Foot(parent) == old(hooks.live - Foot(parent) - Foot(item))
    ensures !ok ==>
      && (name == null || hooks.exhausted) && hooks.live == old(hooks.live)
      && parent.Holds(Object(members)) && item.Holds(j) && Apart(parent, item)
  {
    hide Node.Valid, Node.Holds, Node.HoldsMember, Owned, Separate, AllValid, Linked, UpToNul, Ended;
    if name == null {
      return false;
    }
    WholeTree(item, j);
    ok := Rekey(item, name, hooks, j);
    if ok {
      StillApart(parent, item, members, j);
      Link(parent, item, members, UpToNul(name[..]), j);
    }
  }

  /** The item gets a copy of the key, and its own is freed. */
  method Rekey(item: Node, name: array<byte>, hooks: Hooks, ghost j: Json) returns (ok: bool)
    requires item.Holds(j) && Foot(item) <= hooks.live && hooks !in hooks.live && Ended(name)
    modifies hooks, item`name, item`own
    ensures !ok ==> hooks.exhausted && hooks.live == old(hooks.live) && unchanged(item)
    ensures ok ==>
      && item.Holds(j) && item.HoldsMember(UpToNul(name[..]), j) && fresh(NameOf(item))
      && item.own == old(item.own - NameOf(item)) + NameOf(item)
      && hooks.live == old(hooks.live - NameOf(item)) + NameOf(item) && hooks.exhausted == old(hooks.exhausted)
  {
    hide Node.Valid, Node.Holds, Node.HoldsMember, UpToNul, Ended;
    WholeTree(item, j);
    var key := Strdup(name, hooks);
    if key == null {
      return false;
    }
    if item.name != null {
      hooks.Deallocate(item.name);
    }
    SetName(item, key, j);
    NamedMember(item, j);
    return true;
  }

  /** add_item_to_array, as the last step of add_item_to_object. */
  method Link(parent: Node, item: Node, ghost members: Members, ghost key: Text, ghost j: Json)
    requires parent.Holds(Object(members)) && item.HoldsMember(key, j) && Apart(parent, item)
    requires item.next == item.prev == null
    modifies parent`child, parent`kids, parent`own, parent.kids`next, item`prev
    ensures parent.Holds(Object(AddLast(members, key, j)))
    ensures parent.own == old(parent.own + Foot(item))
  {
    hide Node.Valid, Node.Holds, Node.HoldsMember, Owned, Separate, AllValid, Linked;
    ObjectHolds(parent, members);
    NotAChild(parent, item);
    ghost var kids, ms := parent.kids, MembersOf(members);
    AddItemToArray(parent, item);
    assert HoldsMembers(kids, ms) && item.HoldsMember(key, j) by {
      assert forall k: nat :: k < |kids| ==>
        kids[k] in kids + [item] && old(kids[k].HoldsMember(ms[k].key, ms[k].value));
      assert item in kids + [item];
    }
    AddedMember(parent, kids, item, members, key, j);
  }

  /** The first part of replace_item_in_object: the key is freed and replaced by a copy, or lost. */
  method ReplaceKey(item: Node, name: array<byte>, hooks: Hooks, ghost j: Json)
    requires item.Holds(j) && Foot(item) <= hooks.live && hooks !in hooks.live && Ended(name)
    modifies hooks, item`name, item`own
    ensures item.Holds(j) && fresh(NameOf(item)) && item.own == old(item.own - NameOf(item)) + NameOf(item)
    ensures hooks.live == old(hooks.live - NameOf(item)) + NameOf(item)
    ensures if item.name == null then hooks.exhausted
      else item.HoldsMember(UpToNul(name[..]), j) && hooks.exhausted == old(hooks.exhausted)
  {
    hide Node.Valid, Node.Holds, Node.HoldsMember, UpToNul, Ended;
    WholeTree(item, j);
    if item.name != null {
      hooks.Deallocate(item.name);
    }
    var key := Strdup(name, hooks);
    SetName(item, key, j);
    if key != null {
      NamedMember(item, j);
    }
  }

  /** The second part: the first child under the key, if there is one, makes room for the new item. */
  method Exchange(parent: Node, item: Node?, newitem: Node, sensitive: bool, hooks: Hooks,
    ghost members: Members, ghost key: Text, ghost j: Json)
    requires parent.Holds(Object(members)) && Apart(parent, newitem) && newitem.Holds(j)
    requires newitem.name == null || newitem.HoldsMember(key, j)
    requires Foot(parent) <= hooks.live && Foot(newitem) <= hooks.live && hooks !in hooks.live
    requires var i := Place(MembersOf(members), key, sensitive);
      item == if i < |parent.kids| then parent.kids[i] else null
    modifies hooks, parent`child, parent`kids, parent`own, parent.kids`next, parent.kids`prev, newitem`next, newitem`prev
    ensures item != null && newitem.name != null ==> parent.Holds(Object(ReplaceFirst(members, key, j, sensitive)))
    ensures item != null && newitem.name == null ==> parent.Valid() && forall m :: !parent.Holds(Object(m))
    ensures item != null ==> hooks.live - Foot(parent) == old(hooks.live - Foot(parent) - Foot(newitem))
    ensures item == null ==>
      parent.Holds(Object(members)) && newitem.Holds(j) && Apart(parent, newitem) && hooks.live == old(hooks.live)
    ensures newitem.Holds(j) && (newitem.name != null ==> newitem.HoldsMember(key, j))
    ensures hooks.exhausted == old(hooks.exhausted)
  {
    hide Node.Valid, Node.Holds, Node.HoldsMember, Owned, Separate, AllValid, Linked, Place;
    ghost var kids, ms := parent.kids, MembersOf(members);
    ghost var i := Place(ms, key, sensitive);
    ObjectHolds(parent, members);
    NotAChild(parent, newitem);
    var ok := ReplaceItemViaPointer(parent, item, newitem, hooks, i);
    if item == null {
      return;
    }
    ghost var all := kids + [newitem];
    assert parent.kids[i] == newitem && newitem in all;
    if newitem.name == null {
      forall m
        ensures !parent.Holds(Object(m))
      {
        if parent.Holds(Object(m)) {
          ChildNamed(parent, m, i);
        }
      }
    } else {
      assert HoldsMembers(kids, ms) by {
        assert forall k: nat :: k < |kids| ==> kids[k] in all && old(kids[k].HoldsMember(ms[k].key, ms[k].value));
      }
      ReplacedMember(parent, kids, newitem, members, key, j, sensitive);
    }
  }

  /**
   replace_item_in_object. It answers true even where there is nothing to replace, and links the new
   item without a key, so that the parent is no object any more, where the key cannot be copied.
   */
  method ReplaceItemInObject(parent: Node, name: array?<byte>, newitem: Node, sensitive: bool, hooks: Hooks,
    ghost members: Members, ghost j: Json) returns (ok: bool)
    requires parent.Holds(Object(members)) && newitem.Holds(j) && Apart(parent, newitem)
    requires Foot(parent) + Foot(newitem) <= hooks.live && hooks !in hooks.live
    requires name == null || (Ended(name) && name != newitem.name)
    modifies hooks, newitem`name, newitem`own, newitem`next, newitem`prev
    modifies parent`child, parent`kids, parent`own, parent.kids`next, parent.kids`prev
    ensures ok <==> name != null
    ensures !ok ==>
      parent.Holds(Object(members)) && newitem.Holds(j) && Apart(parent, newitem) && hooks.live == old(hooks.live)
    ensures ok && newitem.name == null ==> hooks.exhausted && newitem.Holds(j)
    ensures ok && newitem.name != null ==>
      newitem.HoldsMember(UpToNul(name[..]), j) && hooks.exhausted == old(hooks.exhausted)
    ensures ok && Find(members, UpToNul(name[..]), sensitive).None? ==>
      && parent.Holds(Object(members)) && Apart(parent, newitem)
      && hooks.live - Foot(newitem) == old(hooks.live - Foot(newitem))
    ensures ok && Find(members, UpToNul(name[..]), sensitive).Some? ==>
      && hooks.live - Foot(parent) == old(hooks.live - Foot(parent) - Foot(newitem))
      && (newitem.name != null ==> parent.Holds(Object(ReplaceFirst(members, UpToNul(name[..]), j, sensitive))))
      && (newitem.name == null ==> parent.Valid() && forall m :: !parent.Holds(Object(m)))
  {
    hide Node.Valid, Node.Holds, Node.HoldsMember, Owned, Separate, AllValid, Linked, Place, Find, ReplaceFirst, UpToNul;
    if name == null {
      return false;
    }
    ghost var key := UpToNul(name[..]);
    WholeTree(newitem, j);
    FoundHolds(parent, members, key, sensitive);
    ReplaceKey(newitem, name, hooks, j);
    StillApart(parent, newitem, members, j);
    var item := GetObjectItem(parent, name, sensitive, members);
    Exchange(parent, item, newitem, sensitive, hooks, members, key, j);
    return true;
  }
}
