/**
 What cJSON_Compare decides: an equivalence up to duplicate keys, and on trees without duplicate
 keys equality of the values they denote, objects being maps.
 */
module JsonCompare {
  import opened Bytes
  import opened Json

  /** tolower in the C locale. */
  function LowerByte(c: byte): byte {
    if 65 <= c <= 90 then c + 32 else c
  }

  function Lower(s: Text): (t: Text)
    ensures |t| == |s| && forall i :: 0 <= i < |s| ==> t[i] == LowerByte(s[i])
  {
    seq(|s|, i requires 0 <= i < |s| => LowerByte(s[i]))
  }

  /** What two keys have to agree on. */
  function Norm(k: Text, sensitive: bool): Text {
    if sensitive then k else Lower(k)
  }

  /** The same byte, or an ASCII letter in its two cases. */
  predicate SameLetter(a: byte, b: byte) {
    a == b || (65 <= a <= 90 && b == a + 32) || (65 <= b <= 90 && a == b + 32)
  }

  /** Whether two keys agree: equal, or equal but for the case of ASCII letters. */
  predicate Agree(k: Text, l: Text, sensitive: bool) {
    if sensitive then k == l else |k| == |l| && forall i :: 0 <= i < |k| ==> SameLetter(k[i], l[i])
  }

  lemma AgreeIs(k: Text, l: Text, sensitive: bool)
    ensures Norm(k, sensitive) == Norm(l, sensitive) <==> Agree(k, l, sensitive)
  {
    if !sensitive {
      assert forall i :: 0 <= i < |k| && i < |l| ==>
        (LowerByte(k[i]) == LowerByte(l[i]) <==> SameLetter(k[i], l[i]));
      if Lower(k) == Lower(l) {
        assert forall i :: 0 <= i < |k| ==> Lower(k)[i] == Lower(l)[i];
      }
    }
  }

  /** Only the letters A to Z change, to a to z. */
  lemma LowerByteIs(c: byte)
    ensures LowerByte(c) == if 'A' as int <= c <= 'Z' as int then c - 'A' as int + 'a' as int else c
  {
  }

  function Size(j: Json): nat {
    match j
    case Array(items) => 1 + ItemsSize(items)
    case Object(members) => 1 + MembersSize(members)
    case _ => 1
  }

  function ItemsSize(items: Items): nat {
    match items
    case INil => 0
    case ICons(j, rest) => Size(j) + ItemsSize(rest) + 1
  }

  function MembersSize(members: Members): nat {
    match members
    case MNil => 0
    case MCons(_, j, rest) => Size(j) + MembersSize(rest) + 1
  }

  /** get_object_item: the first member whose key agrees. */
  function Find(members: Members, name: Text, sensitive: bool): (r: Option<Json>)
    ensures r.Some? ==> Size(r.value) < MembersSize(members)
  {
    match members
    case MNil => None
    case MCons(k, j, rest) =>
      if Norm(name, sensitive) == Norm(k, sensitive) then Some(j) else Find(rest, name, sensitive)
  }

  /** What cJSON_Compare returns for trees that share no node. */
  predicate Equal(a: Json, b: Json, sensitive: bool)
    decreases Size(a) + Size(b), 0
  {
    match (a, b)
    case (Null, Null) => true
    case (False, False) => true
    case (True, True) => true
    case (Number(v), Number(w)) => v == w
    case (String(s), String(t)) => s == t
    case (Array(i), Array(k)) => EqualItems(i, k, sensitive)
    case (Object(m), Object(n)) => Covered(m, n, sensitive) && Covered(n, m, sensitive)
    case _ => false
  }

  predicate EqualItems(a: Items, b: Items, sensitive: bool)
    decreases ItemsSize(a) + ItemsSize(b), 1
  {
    match (a, b)
    case (INil, INil) => true
    case (ICons(j, more), ICons(k, rest)) => Equal(j, k, sensitive) && EqualItems(more, rest, sensitive)
    case _ => false
  }

  /** Every member of a finds one in b that it equals. */
  predicate Covered(a: Members, b: Members, sensitive: bool)
    decreases MembersSize(a) + MembersSize(b), 1
  {
    match a
    case MNil => true
    case MCons(k, j, rest) =>
      var found := Find(b, k, sensitive);
      found.Some? && Equal(j, found.value, sensitive) && Covered(rest, b, sensitive)
  }

  // ---------------------------------------------------------------- looking up

  /** What is found in the covered object is found, and equal, in the covering one. */
  lemma {:induction false} CoveredFind(a: Members, b: Members, name: Text, sensitive: bool)
    requires Covered(a, b, sensitive) && Find(a, name, sensitive).Some?
    ensures Find(b, name, sensitive).Some?
    ensures Equal(Find(a, name, sensitive).value, Find(b, name, sensitive).value, sensitive)
    decreases a
  {
    if Norm(name, sensitive) == Norm(a.key, sensitive) {
      FindNorm(b, name, a.key, sensitive);
    } else {
      CoveredFind(a.rest, b, name, sensitive);
    }
  }

  lemma {:induction false} FindNorm(b: Members, k: Text, l: Text, sensitive: bool)
    requires Norm(k, sensitive) == Norm(l, sensitive)
    ensures Find(b, k, sensitive) == Find(b, l, sensitive)
    decreases b
  {
    if b.MCons? {
      FindNorm(b.rest, k, l, sensitive);
    }
  }

  // ---------------------------------------------------------------- what is decided

  /** The value a tree denotes: objects are maps, the first of several members with one key counts. */
  datatype Value =
    | VNull
    | VFalse
    | VTrue
    | VNumber(value: real)
    | VString(chars: Text)
    | VArray(elements: seq<Value>)
    | VObject(entries: map<Text, Value>)

  function Meaning(j: Json, sensitive: bool): Value {
    match j
    case Null => VNull
    case False => VFalse
    case True => VTrue
    case Number(v) => VNumber(v)
    case String(s) => VString(s)
    case Array(items) => VArray(ItemsMeaning(items, sensitive))
    case Object(members) => VObject(MembersMeaning(members, sensitive))
  }

  function ItemsMeaning(items: Items, sensitive: bool): seq<Value> {
    match items
    case INil => []
    case ICons(j, rest) => [Meaning(j, sensitive)] + ItemsMeaning(rest, sensitive)
  }

  function MembersMeaning(members: Members, sensitive: bool): map<Text, Value> {
    match members
    case MNil => map[]
    case MCons(k, j, rest) => MembersMeaning(rest, sensitive)[Norm(k, sensitive) := Meaning(j, sensitive)]
  }

  lemma {:induction false} MeaningOfFind(members: Members, name: Text, sensitive: bool)
    ensures var m := MembersMeaning(members, sensitive); var n := Norm(name, sensitive); var r := Find(members, name,
      sensitive);
      (n in m <==> r.Some?) && (r.Some? ==> m[n] == Meaning(r.value, sensitive))
    decreases members
  {
    if members.MCons? {
      MeaningOfFind(members.rest, name, sensitive);
    }
  }

  lemma {:induction false} KeyPresent(members: Members, n: Text, sensitive: bool) returns (k: Text)
    requires n in MembersMeaning(members, sensitive)
    ensures Norm(k, sensitive) == n && Find(members, k, sensitive).Some?
    decreases members
  {
    if n == Norm(members.key, sensitive) {
      k := members.key;
    } else {
      k := KeyPresent(members.rest, n, sensitive);
    }
  }

  /** Trees that compare equal denote the same value, duplicate keys or not. */
  lemma {:induction false} EqualMeansSame(a: Json, b: Json, sensitive: bool)
    requires Equal(a, b, sensitive)
    ensures Meaning(a, sensitive) == Meaning(b, sensitive)
    decreases Size(a) + Size(b), 0
  {
    if a.Array? {
      ItemsEqualSame(a.items, b.items, sensitive);
    } else if a.Object? {
      var m, n := MembersMeaning(a.members, sensitive), MembersMeaning(b.members, sensitive);
      forall key | key in m
        ensures key in n && m[key] == n[key]
      {
        CoveredSame(a.members, b.members, key, sensitive);
      }
      forall key | key in n
        ensures key in m
      {
        CoveredSame(b.members, a.members, key, sensitive);
      }
      assert m == n;
    }
  }

  lemma {:induction false} ItemsEqualSame(a: Items, b: Items, sensitive: bool)
    requires EqualItems(a, b, sensitive)
    ensures ItemsMeaning(a, sensitive) == ItemsMeaning(b, sensitive)
    decreases ItemsSize(a) + ItemsSize(b), 1
  {
    if a.ICons? {
      EqualMeansSame(a.head, b.head, sensitive);
      ItemsEqualSame(a.tail, b.tail, sensitive);
    }
  }

  lemma {:induction false} CoveredSame(a: Members, b: Members, key: Text, sensitive: bool)
    requires Covered(a, b, sensitive) && key in MembersMeaning(a, sensitive)
    ensures key in MembersMeaning(b, sensitive)
    ensures MembersMeaning(a, sensitive)[key] == MembersMeaning(b, sensitive)[key]
    decreases MembersSize(a) + MembersSize(b), 1
  {
    var k := KeyPresent(a, key, sensitive);
    CoveredFind(a, b, k, sensitive);
    MeaningOfFind(a, k, sensitive);
    MeaningOfFind(b, k, sensitive);
    EqualMeansSame(Find(a, k, sensitive).value, Find(b, k, sensitive).value, sensitive);
  }

  /** Every member of a finds one in b that denotes the same. */
  predicate CoveredBy(a: Members, b: Members, sensitive: bool) {
    match a
    case MNil => true
    case MCons(k, j, rest) =>
      var found := Find(b, k, sensitive);
      found.Some? && Meaning(j, sensitive) == Meaning(found.value, sensitive) && CoveredBy(rest, b, sensitive)
  }

  lemma {:induction false} CoveredByFind(a: Members, b: Members, name: Text, sensitive: bool)
    requires CoveredBy(a, b, sensitive) && Find(a, name, sensitive).Some?
    ensures Find(b, name, sensitive).Some?
    ensures Meaning(Find(a, name, sensitive).value, sensitive) == Meaning(Find(b, name, sensitive).value, sensitive)
    decreases a
  {
    hide Meaning, Norm;
    if Norm(name, sensitive) == Norm(a.key, sensitive) {
      FindNorm(b, name, a.key, sensitive);
    } else {
      CoveredByFind(a.rest, b, name, sensitive);
    }
  }

  /** Objects that cover each other denote the same map. */
  lemma MutuallyCovered(a: Members, b: Members, sensitive: bool)
    requires CoveredBy(a, b, sensitive) && CoveredBy(b, a, sensitive)
    ensures MembersMeaning(a, sensitive) == MembersMeaning(b, sensitive)
  {
    hide CoveredBy, MembersMeaning, Meaning;
    var m, n := MembersMeaning(a, sensitive), MembersMeaning(b, sensitive);
    forall key | key in m
      ensures key in n && m[key] == n[key]
    {
      var k := KeyPresent(a, key, sensitive);
      CoveredByFind(a, b, k, sensitive);
      MeaningOfFind(a, k, sensitive);
      MeaningOfFind(b, k, sensitive);
    }
    forall key | key in n
      ensures key in m
    {
      var k := KeyPresent(b, key, sensitive);
      CoveredByFind(b, a, k, sensitive);
      MeaningOfFind(a, k, sensitive);
    }
    assert m == n;
  }

  /** Members that repeat a key denote the same value as the first with that key, at any level. */
  predicate Consistent(j: Json, sensitive: bool) {
    match j
    case Array(items) => ConsistentItems(items, sensitive)
    case Object(members) => ConsistentMembers(members, members, sensitive)
    case _ => true
  }

  predicate ConsistentItems(items: Items, sensitive: bool) {
    match items
    case INil => true
    case ICons(j, rest) => Consistent(j, sensitive) && ConsistentItems(rest, sensitive)
  }

  predicate ConsistentMembers(part: Members, whole: Members, sensitive: bool)
    decreases part
  {
    match part
    case MNil => true
    case MCons(k, j, rest) =>
      var first := Find(whole, k, sensitive);
      && first.Some? && Meaning(first.value, sensitive) == Meaning(j, sensitive)
      && Consistent(j, sensitive) && ConsistentMembers(rest, whole, sensitive)
  }

  lemma {:induction false} EqualMeansConsistent(a: Json, b: Json, sensitive: bool)
    requires Equal(a, b, sensitive)
    ensures Consistent(a, sensitive)
    decreases a, 0
  {
    if a.Array? {
      ItemsEqualConsistent(a.items, b.items, sensitive);
    } else if a.Object? {
      CoveredConsistent(a.members, a.members, b.members, sensitive);
    }
  }

  lemma {:induction false} ItemsEqualConsistent(a: Items, b: Items, sensitive: bool)
    requires EqualItems(a, b, sensitive)
    ensures ConsistentItems(a, sensitive)
    decreases a, 0
  {
    if a.ICons? {
      EqualMeansConsistent(a.head, b.head, sensitive);
      ItemsEqualConsistent(a.tail, b.tail, sensitive);
    }
  }

  lemma {:induction false} CoveredConsistent(part: Members, a: Members, b: Members, sensitive: bool)
    requires Covered(part, b, sensitive) && Covered(a, b, sensitive) && Covered(b, a, sensitive)
    ensures ConsistentMembers(part, a, sensitive)
    decreases part, 0
  {
    if part.MCons? {
      var k := part.key;
      CoveredFind(b, a, k, sensitive);
      EqualMeansSame(part.value, Find(b, k, sensitive).value, sensitive);
      EqualMeansSame(Find(b, k, sensitive).value, Find(a, k, sensitive).value, sensitive);
      EqualMeansConsistent(part.value, Find(b, k, sensitive).value, sensitive);
      CoveredConsistent(part.rest, a, b, sensitive);
    }
  }

  lemma {:induction false} SameMeansEqual(a: Json, b: Json, sensitive: bool)
    requires Consistent(a, sensitive) && Consistent(b, sensitive)
    requires Meaning(a, sensitive) == Meaning(b, sensitive)
    ensures Equal(a, b, sensitive)
    decreases Size(a) + Size(b), 0
  {
    if a.Array? {
      SameItemsEqual(a.items, b.items, sensitive);
    } else if a.Object? {
      SameMembersCovered(a.members, a.members, b.members, sensitive);
      SameMembersCovered(b.members, b.members, a.members, sensitive);
    }
  }

  lemma {:induction false} SameItemsEqual(a: Items, b: Items, sensitive: bool)
    requires ConsistentItems(a, sensitive) && ConsistentItems(b, sensitive)
    requires ItemsMeaning(a, sensitive) == ItemsMeaning(b, sensitive)
    ensures EqualItems(a, b, sensitive)
    decreases ItemsSize(a) + ItemsSize(b), 1
  {
    if a.ICons? && b.ICons? {
      assert ItemsMeaning(a, sensitive)[0] == ItemsMeaning(b, sensitive)[0];
      assert ItemsMeaning(a, sensitive)[1..] == ItemsMeaning(b, sensitive)[1..];
      SameMeansEqual(a.head, b.head, sensitive);
      SameItemsEqual(a.tail, b.tail, sensitive);
    }
  }

  lemma {:induction false} FindConsistent(part: Members, whole: Members, name: Text, sensitive: bool)
    requires ConsistentMembers(part, whole, sensitive) && Find(part, name, sensitive).Some?
    ensures Consistent(Find(part, name, sensitive).value, sensitive)
    decreases part
  {
    if Norm(name, sensitive) != Norm(part.key, sensitive) {
      FindConsistent(part.rest, whole, name, sensitive);
    }
  }

  lemma {:induction false} SameMembersCovered(part: Members, a: Members, b: Members, sensitive: bool)
    requires ConsistentMembers(part, a, sensitive) && ConsistentMembers(b, b, sensitive)
    requires MembersMeaning(a, sensitive) == MembersMeaning(b, sensitive)
    ensures Covered(part, b, sensitive)
    decreases MembersSize(part) + MembersSize(b), 1
  {
    if part.MCons? {
      MeaningOfFind(a, part.key, sensitive);
      MeaningOfFind(b, part.key, sensitive);
      FindConsistent(b, b, part.key, sensitive);
      SameMeansEqual(part.value, Find(b, part.key, sensitive).value, sensitive);
      SameMembersCovered(part.rest, a, b, sensitive);
    }
  }

  lemma {:induction false} Symmetric(a: Json, b: Json, sensitive: bool)
    ensures Equal(a, b, sensitive) == Equal(b, a, sensitive)
    decreases a, 0
  {
    if a.Array? && b.Array? {
      ItemsSymmetric(a.items, b.items, sensitive);
    }
  }

  lemma {:induction false} ItemsSymmetric(a: Items, b: Items, sensitive: bool)
    ensures EqualItems(a, b, sensitive) == EqualItems(b, a, sensitive)
    decreases a, 0
  {
    if a.ICons? && b.ICons? {
      Symmetric(a.head, b.head, sensitive);
      ItemsSymmetric(a.tail, b.tail, sensitive);
    }
  }

  /**
   On all trees: two compare equal if and only if they denote the same value and neither holds
   contradicting members under one key.
   */
  lemma EqualDecides(a: Json, b: Json, sensitive: bool)
    ensures Equal(a, b, sensitive)
       <==> Meaning(a, sensitive) == Meaning(b, sensitive) && Consistent(a, sensitive) && Consistent(b, sensitive)
  {
    if Equal(a, b, sensitive) {
      Symmetric(a, b, sensitive);
      EqualMeansSame(a, b, sensitive);
      EqualMeansConsistent(a, b, sensitive);
      EqualMeansConsistent(b, a, sensitive);
    } else if Meaning(a, sensitive) == Meaning(b, sensitive) && Consistent(a, sensitive) && Consistent(b, sensitive) {
      SameMeansEqual(a, b, sensitive);
    }
  }

  lemma Transitive(a: Json, b: Json, c: Json, sensitive: bool)
    requires Equal(a, b, sensitive) && Equal(b, c, sensitive)
    ensures Equal(a, c, sensitive)
  {
    EqualDecides(a, b, sensitive);
    EqualDecides(b, c, sensitive);
    EqualDecides(a, c, sensitive);
  }

  // ---------------------------------------------------------------- distinct keys

  /** No object has two members with agreeing keys, at any level. */
  predicate DistinctKeys(j: Json, sensitive: bool) {
    match j
    case Array(items) => DistinctItems(items, sensitive)
    case Object(members) => DistinctMembers(members, sensitive)
    case _ => true
  }

  predicate DistinctItems(items: Items, sensitive: bool) {
    match items
    case INil => true
    case ICons(j, rest) => DistinctKeys(j, sensitive) && DistinctItems(rest, sensitive)
  }

  predicate DistinctMembers(members: Members, sensitive: bool) {
    match members
    case MNil => true
    case MCons(k, j, rest) =>
      Find(rest, k, sensitive).None? && DistinctKeys(j, sensitive) && DistinctMembers(rest, sensitive)
  }

  lemma {:induction false} DistinctConsistent(j: Json, sensitive: bool)
    requires DistinctKeys(j, sensitive)
    ensures Consistent(j, sensitive)
    decreases j, 0
  {
    match j
    case Array(items) => DistinctItemsConsistent(items, sensitive);
    case Object(members) => DistinctMembersConsistent(members, sensitive);
    case _ =>
  }

  lemma {:induction false} DistinctItemsConsistent(items: Items, sensitive: bool)
    requires DistinctItems(items, sensitive)
    ensures ConsistentItems(items, sensitive)
    decreases items, 0
  {
    if items.ICons? {
      DistinctConsistent(items.head, sensitive);
      DistinctItemsConsistent(items.tail, sensitive);
    }
  }

  lemma {:induction false} DistinctMembersConsistent(members: Members, sensitive: bool)
    requires DistinctMembers(members, sensitive)
    ensures ConsistentMembers(members, members, sensitive)
    decreases members, 0
  {
    if members.MCons? {
      DistinctConsistent(members.value, sensitive);
      DistinctMembersConsistent(members.rest, sensitive);
      StillConsistent(members.rest, members.rest, members.key, members.value, sensitive);
    }
  }

  /** A member with a new key in front takes nothing away. */
  lemma {:induction false} StillConsistent(part: Members, whole: Members, key: Text, j: Json, sensitive: bool)
    requires ConsistentMembers(part, whole, sensitive) && Find(whole, key, sensitive).None?
    ensures ConsistentMembers(part, MCons(key, j, whole), sensitive)
    decreases part
  {
    if part.MCons? {
      if Norm(part.key, sensitive) == Norm(key, sensitive) {
        FindNorm(whole, part.key, key, sensitive);
      }
      StillConsistent(part.rest, whole, key, j, sensitive);
    }
  }

  /** A tree equals a copy of itself exactly when it is consistent, so always when its keys are distinct ... */
  lemma Reflexive(j: Json, sensitive: bool)
    ensures Equal(j, j, sensitive) <==> Consistent(j, sensitive)
    ensures DistinctKeys(j, sensitive) ==> Equal(j, j, sensitive)
  {
    EqualDecides(j, j, sensitive);
    if DistinctKeys(j, sensitive) {
      DistinctConsistent(j, sensitive);
    }
  }

  /** ... but {"a":true,"a":false} does not equal its copy. */
  lemma ContradictingKeys(sensitive: bool)
    ensures var j := Object(MCons([97], True, MCons([97], False, MNil))); !Equal(j, j, sensitive)
  {
    hide Norm;
    var rest := MCons([97], False, MNil);
    var m := MCons([97], True, rest);
    Uncovered(rest, m, sensitive);
    assert !Covered(m, m, sensitive);
  }

  lemma Uncovered(rest: Members, m: Members, sensitive: bool)
    requires rest == MCons([97], False, MNil) && m == MCons([97], True, rest)
    ensures !Covered(rest, m, sensitive)
  {
    hide Norm;
    assert Find(m, [97], sensitive) == Some(True);
    assert !Equal(False, True, sensitive);
  }
}
