/** cJSON_Compare in jsonRead/cJSON.c, on nodes, and the look-up by key it is made of. */
module JsonCompareNodes {
  import opened Bytes
  import opened Json
  import opened CJson
  import opened JsonCompare

  // ---------------------------------------------------------------- strings

  /** strcmp, as far as it is used: zero or not. */
  method Strcmp(s: array<byte>, t: array<byte>) returns (r: int)
    requires Ended(s) && Ended(t)
    ensures r == 0 <==> UpToNul(s[..]) == UpToNul(t[..])
  {
    hide UpToNul, Ended;
    UpToNulLength(s);
    UpToNulLength(t);
    ghost var u, v := UpToNul(s[..]), UpToNul(t[..]);
    var i := 0;
    while s[i] == t[i]
      invariant 0 <= i <= |u| && i <= |v|
      invariant forall k :: 0 <= k < i ==> s[k] == t[k]
      decreases |u| - i
    {
      if s[i] == NUL {
        assert |u| == i == |v|;
        return 0;
      }
      i := i + 1;
    }
    assert i < |u| && i < |v| ==> u[i] != v[i];
    return s[i] as int - t[i] as int;
  }

  /** case_insensitive_strcmp, as far as it is used: zero or not. */
  method CaseInsensitiveStrcmp(s: array?<byte>, t: array?<byte>) returns (r: int)
    requires (s == null || Ended(s)) && (t == null || Ended(t))
    ensures r == 0 <==> s != null && t != null && Lower(UpToNul(s[..])) == Lower(UpToNul(t[..]))
  {
    hide UpToNul, Ended, Lower;
    if s == null || t == null {
      return 1;
    }
    if s == t {
      return 0;
    }
    UpToNulLength(s);
    UpToNulLength(t);
    ghost var u, v := UpToNul(s[..]), UpToNul(t[..]);
    var i := 0;
    while LowerByte(s[i]) == LowerByte(t[i])
      invariant 0 <= i <= |u| && i <= |v|
      invariant forall k :: 0 <= k < i ==> LowerByte(s[k]) == LowerByte(t[k])
      decreases |u| - i
    {
      if s[i] == NUL {
        assert |u| == i == |v|;
        assert Lower(u) == Lower(v);
        return 0;
      }
      i := i + 1;
    }
    assert i < |u| && i < |v| ==> Lower(u)[i] != Lower(v)[i];
    return LowerByte(s[i]) as int - LowerByte(t[i]) as int;
  }

  // ---------------------------------------------------------------- looking up

  /** The place of the first of several members with this key, or the length when there is none. */
  function Place(ms: seq<Member>, name: Text, sensitive: bool): (i: nat)
    ensures i <= |ms|
    ensures forall k: nat :: k < i ==> Norm(ms[k].key, sensitive) != Norm(name, sensitive)
    ensures i < |ms| ==> Norm(ms[i].key, sensitive) == Norm(name, sensitive)
  {
    if ms == [] || Norm(ms[0].key, sensitive) == Norm(name, sensitive) then 0
    else 1 + Place(ms[1..], name, sensitive)
  }

  /** In terms of the keys themselves: the first that agrees, and none before it does. */
  lemma PlaceAgrees(ms: seq<Member>, name: Text, sensitive: bool)
    ensures var i := Place(ms, name, sensitive);
      && (i < |ms| ==> Agree(ms[i].key, name, sensitive))
      && forall k: nat :: k < i ==> !Agree(ms[k].key, name, sensitive)
  {
    hide Place, Norm, Agree;
    var i := Place(ms, name, sensitive);
    if i < |ms| {
      AgreeIs(ms[i].key, name, sensitive);
    }
    forall k: nat | k < i
      ensures !Agree(ms[k].key, name, sensitive)
    {
      AgreeIs(ms[k].key, name, sensitive);
    }
  }

  lemma PlaceStep(ms: seq<Member>, name: Text, sensitive: bool)
    ensures Place(ms, name, sensitive)
         == if ms == [] || Norm(ms[0].key, sensitive) == Norm(name, sensitive) then 0
            else 1 + Place(ms[1..], name, sensitive)
  {
    hide Norm;
  }

  lemma MembersStep(members: Members)
    ensures members.MNil? ==> MembersOf(members) == []
    ensures members.MCons? ==> var ms := MembersOf(members);
      && ms != [] && ms[0] == Member(members.key, members.value) && ms[1..] == MembersOf(members.rest)
      && ms == [ms[0]] + ms[1..]
  {
  }

  lemma {:induction false} FindIsFirst(members: Members, name: Text, sensitive: bool)
    ensures var ms := MembersOf(members); var i := Place(ms, name, sensitive);
      Find(members, name, sensitive) == if i < |ms| then Some(ms[i].value) else None
    decreases members
  {
    hide Norm, Place, MembersOf;
    MembersStep(members);
    PlaceStep(MembersOf(members), name, sensitive);
    if members.MCons? {
      FindIsFirst(members.rest, name, sensitive);
    }
  }

  /** A place with an agreeing key and none in front of it is the first. */
  lemma PlaceIs(ms: seq<Member>, name: Text, sensitive: bool, i: nat)
    requires i <= |ms| && forall k: nat :: k < i ==> Norm(ms[k].key, sensitive) != Norm(name, sensitive)
    requires i < |ms| ==> Norm(ms[i].key, sensitive) == Norm(name, sensitive)
    ensures Place(ms, name, sensitive) == i
  {
    hide Norm;
    var p := Place(ms, name, sensitive);
    if p < i {
      assert false;
    } else if i < p {
      assert false;
    }
  }

  /** The test of the loops in get_object_item. */
  method KeyAgrees(name: array<byte>, item: Node, sensitive: bool, ghost k: Text, ghost j: Json) returns (agrees: bool)
    requires Ended(name) && item.HoldsMember(k, j)
    ensures agrees <==> Norm(UpToNul(name[..]), sensitive) == Norm(k, sensitive)
  {
    hide UpToNul, Lower, Ended;
    var differs: int;
    if sensitive {
      differs := Strcmp(name, item.name);
    } else {
      differs := CaseInsensitiveStrcmp(name, item.name);
    }
    return differs == 0;
  }

  /** get_object_item: the node of the first member with the key, or null. */
  method GetObjectItem(parent: Node, name: array?<byte>, sensitive: bool, ghost members: Members) returns (item: Node?)
    requires parent.Holds(Object(members)) && (name == null || Ended(name))
    ensures name == null ==> item == null
    ensures name != null ==>
      var i := Place(MembersOf(members), UpToNul(name[..]), sensitive);
      item == if i < |parent.kids| then parent.kids[i] else null
    ensures name != null ==>
      var ms, key := MembersOf(members), UpToNul(name[..]);
      var i := Place(ms, key, sensitive);
      && |ms| == |parent.kids| && (i < |ms| ==> Agree(ms[i].key, key, sensitive))
      && forall k: nat :: k < i ==> !Agree(ms[k].key, key, sensitive)
  {
    hide Node.Holds, Node.Valid, MembersOf, UpToNul, Norm, Place, Agree;
    if name == null {
      return null;
    }
    FirstMember(parent, members);
    ghost var ms, key := MembersOf(members), UpToNul(name[..]);
    PlaceAgrees(ms, key, sensitive);
    ghost var i: nat, rest := 0, members;
    item := parent.child;
    while item != null
      invariant parent.Holds(Object(members)) && i <= |parent.kids| == |ms| && ms[i..] == MembersOf(rest)
      invariant item == if i < |parent.kids| then parent.kids[i] else null
      invariant forall k: nat :: k < i ==> Norm(ms[k].key, sensitive) != Norm(key, sensitive)
      decreases |parent.kids| - i
    {
      MemberAt(parent, members, i, rest);
      KeyAt(ms, i, rest);
      var agrees := KeyAgrees(name, item, sensitive, rest.key, rest.value);
      if agrees {
        PlaceIs(ms, key, sensitive, i);
        return item;
      }
      item, i, rest := item.next, i + 1, rest.rest;
    }
    PlaceIs(ms, key, sensitive, i);
  }

  lemma KeyAt(ms: seq<Member>, i: nat, rest: Members)
    requires i < |ms| && ms[i..] == MembersOf(rest)
    ensures rest.MCons? && ms[i] == Member(rest.key, rest.value)
  {
    assert ms[i..][0] == ms[i];
  }

  /** What is found is the member that Find means. */
  lemma FoundHolds(parent: Node, members: Members, name: Text, sensitive: bool)
    requires parent.Holds(Object(members))
    ensures var i := Place(MembersOf(members), name, sensitive); var r := Find(members, name, sensitive);
      && |parent.kids| == |MembersOf(members)| && (r.Some? <==> i < |parent.kids|)
      && (r.Some? ==> parent.kids[i].Holds(r.value) && Foot(parent.kids[i]) <= parent.own)
  {
    hide Place, Find;
    FindIsFirst(members, name, sensitive);
    var i := Place(MembersOf(members), name, sensitive);
    if i < |parent.kids| {
      var k := parent.kids[i];
      assert k in parent.kids && k.HoldsMember(MembersOf(members)[i].key, MembersOf(members)[i].value);
    }
  }

  // ---------------------------------------------------------------- comparing

  /**
   cJSON_Compare, for nodes that stand for x and y. Trees that are Equal compare equal, and what
   compares equal denotes the same value, whatever the two share. Without sharing it is exactly Equal;
   a node equals itself even where Equal says that its tree contradicts itself.
   */
  method Compare(a: Node?, b: Node?, sensitive: bool, ghost x: Json, ghost y: Json) returns (r: bool)
    requires a != null && b != null ==> a.Holds(x) && b.Holds(y)
    ensures a == null || b == null ==> !r
    ensures a != null && b != null ==>
      && (Equal(x, y, sensitive) ==> r)
      && (r ==> Meaning(x, sensitive) == Meaning(y, sensitive))
      && (a == b ==> r)
      && (Foot(a) !! Foot(b) ==> (r <==> Equal(x, y, sensitive)))
    decreases Size(x) + Size(y), 1
  {
    hide UpToNul, Linked, Separate, Owned, ItemsOf, MembersOf, ItemsMeaning, MembersMeaning;
    if a == null || b == null || a.kind != b.kind {
      return false;
    }
    if a == b {
      HoldsOne(a, x, y);
      return true;
    }
    match a.kind
    case IsFalse => return true;
    case IsTrue => return true;
    case IsNull => return true;
    case IsNumber => return a.valuedouble == b.valuedouble;
    case IsString =>
      var differs := Strcmp(a.valuestring, b.valuestring);
      return differs == 0;
    case IsArray => r := CompareItems(a, b, sensitive, x.items, y.items);
    case IsObject =>
      r := CompareMembers(a, b, sensitive, x.members, y.members);
      if r {
        r := CompareMembers(b, a, sensitive, y.members, x.members);
        if r {
          MutuallyCovered(x.members, y.members, sensitive);
        }
      }
    case Invalid => return false;
  }

  /** The loop over two arrays at once. */
  method CompareItems(a: Node, b: Node, sensitive: bool, ghost x: Items, ghost y: Items) returns (r: bool)
    requires a.Holds(Array(x)) && b.Holds(Array(y))
    ensures EqualItems(x, y, sensitive) ==> r
    ensures r ==> ItemsMeaning(x, sensitive) == ItemsMeaning(y, sensitive)
    ensures Foot(a) !! Foot(b) ==> (r <==> EqualItems(x, y, sensitive))
    decreases ItemsSize(x) + ItemsSize(y), 1
  {
    hide Node.Holds, Node.Valid, ItemsOf, Meaning, Equal, EqualItems, ItemsMeaning, ItemsSize, Size;
    FirstItem(a, x);
    FirstItem(b, y);
    ghost var apart := Foot(a) !! Foot(b);
    ghost var i: nat, xs, ys := 0, x, y;
    var m, n := a.child, b.child;
    while m != null && n != null
      invariant a.Holds(Array(x)) && i <= |a.kids| == |ItemsOf(x)| && ItemsOf(x)[i..] == ItemsOf(xs)
      invariant b.Holds(Array(y)) && i <= |b.kids| == |ItemsOf(y)| && ItemsOf(y)[i..] == ItemsOf(ys)
      invariant m == if i < |a.kids| then a.kids[i] else null
      invariant n == if i < |b.kids| then b.kids[i] else null
      invariant ItemsSize(xs) <= ItemsSize(x) && ItemsSize(ys) <= ItemsSize(y)
      invariant EqualItems(x, y, sensitive) ==> EqualItems(xs, ys, sensitive)
      invariant ItemsMeaning(xs, sensitive) == ItemsMeaning(ys, sensitive)
        ==> ItemsMeaning(x, sensitive) == ItemsMeaning(y, sensitive)
      invariant apart && EqualItems(xs, ys, sensitive) ==> EqualItems(x, y, sensitive)
      decreases |a.kids| - i
    {
      ItemAt(a, x, i, xs);
      ItemAt(b, y, i, ys);
      HeadsAndTails(xs, ys, sensitive);
      var same := Compare(m, n, sensitive, xs.head, ys.head);
      if !same {
        return false;
      }
      m, n, i, xs, ys := m.next, n.next, i + 1, xs.tail, ys.tail;
    }
    ItemAt(a, x, i, xs);
    ItemAt(b, y, i, ys);
    AtTheEnd(xs, ys, sensitive);
    return m == n;
  }

  lemma HeadsAndTails(xs: Items, ys: Items, sensitive: bool)
    requires xs.ICons? && ys.ICons?
    ensures EqualItems(xs, ys, sensitive)
       <==> Equal(xs.head, ys.head, sensitive) && EqualItems(xs.tail, ys.tail, sensitive)
    ensures Meaning(xs.head, sensitive) == Meaning(ys.head, sensitive)
      && ItemsMeaning(xs.tail, sensitive) == ItemsMeaning(ys.tail, sensitive)
      ==> ItemsMeaning(xs, sensitive) == ItemsMeaning(ys, sensitive)
    ensures Size(xs.head) < ItemsSize(xs) && ItemsSize(xs.tail) < ItemsSize(xs)
    ensures Size(ys.head) < ItemsSize(ys) && ItemsSize(ys.tail) < ItemsSize(ys)
  {
    hide Equal, Meaning, Size;
  }

  lemma AtTheEnd(xs: Items, ys: Items, sensitive: bool)
    requires xs.INil? || ys.INil?
    ensures EqualItems(xs, ys, sensitive) <==> xs.INil? && ys.INil?
    ensures xs.INil? && ys.INil? ==> ItemsMeaning(xs, sensitive) == ItemsMeaning(ys, sensitive)
  {
  }

  /** One of the two loops over the members of an object. */
  method CompareMembers(a: Node, b: Node, sensitive: bool, ghost x: Members, ghost y: Members) returns (r: bool)
    requires a.Holds(Object(x)) && b.Holds(Object(y))
    ensures Covered(x, y, sensitive) ==> r
    ensures r ==> CoveredBy(x, y, sensitive)
    ensures Foot(a) !! Foot(b) ==> (r <==> Covered(x, y, sensitive))
    decreases MembersSize(x) + MembersSize(y), 1
  {
    hide Node.Holds, Node.Valid, MembersOf, UpToNul, Norm, Find, Meaning, Place;
    FirstMember(a, x);
    ghost var apart := Foot(a) !! Foot(b);
    ghost var i: nat, rest := 0, x;
    var element := a.child;
    while element != null
      invariant a.Holds(Object(x)) && b.Holds(Object(y)) && i <= |a.kids| == |MembersOf(x)|
        && MembersOf(x)[i..] == MembersOf(rest)
      invariant element == if i < |a.kids| then a.kids[i] else null
      invariant MembersSize(rest) <= MembersSize(x)
      invariant Covered(x, y, sensitive) ==> Covered(rest, y, sensitive)
      invariant CoveredBy(rest, y, sensitive) ==> CoveredBy(x, y, sensitive)
      invariant apart && Covered(rest, y, sensitive) ==> Covered(x, y, sensitive)
      decreases |a.kids| - i
    {
      MemberAt(a, x, i, rest);
      NameEnded(element, rest.key, rest.value);
      FoundHolds(b, y, rest.key, sensitive);
      var other := GetObjectItem(b, element.name, sensitive, y);
      if other == null {
        return false;
      }
      var same := Compare(element, other, sensitive, rest.value, Find(y, rest.key, sensitive).value);
      if !same {
        return false;
      }
      element, i, rest := element.next, i + 1, rest.rest;
    }
    MemberAt(a, x, i, rest);
    return true;
  }
}
