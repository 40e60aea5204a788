/**
 The recursive parser of jsonRead/cJSON.c, building nodes on the heap. It is proved against
 JsonParse, and to account for every block it allocates whatever happens.
 */
module JsonParser {
  import opened Bytes
  import opened Json
  import opened JsonNumber
  import JsonParse
  import JsonString
  import opened JsonScan
  import opened Memory
  import opened CJson

  class ParseBuffer {
    const content: Text
    const hooks: Hooks
    var offset: nat
    var depth: nat

    /** The offset never leaves the text; neither this buffer nor the hooks are themselves allocated blocks. */
    ghost predicate Valid()
      reads this`offset, hooks
    {
      && Terminated(content) && offset < |content|
      && this !in hooks.live && hooks !in hooks.live
    }

    ghost function Rest(): Text
      requires offset <= |content|
      reads this`offset
    {
      content[offset..]
    }

    constructor (content: Text, hooks: Hooks)
      requires Terminated(content) && hooks !in hooks.live
      ensures Valid() && this.content == content && this.hooks == hooks && offset == 0 && depth == 0
    {
      this.content, this.hooks, offset, depth := content, hooks, 0, 0;
    }

    /** A node waiting for a value: blank, with at most its name, and allocated. */
    ghost predicate Awaits(item: Node)
      reads item`child, item`valuestring, item`name, item`kids, item`own, item.own, hooks
    {
      item.Valid() && item.IsBlank() && item !in item.own && Foot(item) <= hooks.live
    }

    /** What a parse function does to the node: on success it owns new blocks only, on failure nothing is left over. */
    twostate predicate Settled(item: Node, ok: bool)
      reads item`child, item`valuestring, item`name, item`kids, item`own, item.own, hooks
    {
      && item.Valid()
      && old(item.own) <= item.own && fresh(item.own - old(item.own))
      && hooks.live == old(hooks.live) + item.own
      && (!ok ==> item.own == old(item.own) && item.IsBlank())
    }

    method SkipWs()
      requires Valid()
      modifies this`offset
      ensures Valid() && offset >= old(offset) && Rest() == JsonParse.SkipWs(old(Rest()))
    {
      offset := SkipWhitespace(content, offset);
    }

    /** parse_number. */
    method ParseNumber(item: Node) returns (ok: bool)
      requires Valid() && Awaits(item)
      modifies this`offset, item`kind, item`valueint, item`valuedouble
      ensures Valid() && Settled(item, ok)
      ensures var r := JsonParse.ParseNumber(old(Rest()));
        && (ok <==> r.Ok?)
        && (ok ==> Rest() == r.rest && item.Holds(r.value))
    {
      hide Node.Valid, Strtod, Window, Terminated;
      NumberEnds(content, offset);
      var numberCString := CopyNumber(content, offset);
      var number := Strtod(numberCString);
      if number.length == 0 {
        return false;
      }
      item.valuedouble := number.value;
      item.valueint := ValueInt(number.value);
      item.kind := IsNumber;
      offset := offset + number.length;
      return true;
    }

    /** The allocating part of parse_string: the decoded literal behind the opening quote, or null. */
    method ReadLiteral() returns (output: array?<byte>, end: nat)
      requires Valid() && !hooks.exhausted && content[offset] == QUOTE
      modifies hooks
      ensures Valid() && (output == null ==> hooks.live == old(hooks.live))
      ensures output != null ==> fresh(output) && hooks.live == old(hooks.live) + {output}
      ensures var r := JsonParse.ParseString(Rest());
        && (output != null <==> r.Ok? && !hooks.exhausted)
        && (output != null ==>
          && end < |content| && content[end..] == r.rest && Ended(output)
          && UpToNul(output[..]) == r.value)
    {
      hide Terminated, JsonParse.ParseString, JsonString.ScanEnd, JsonString.Skipped, JsonString.Decode, UpToNul;
      LiteralSteps(content, offset);
      var quote, skipped, closed := ScanLiteral(content, offset + 1);
      if !closed {
        return null, 0;
      }
      ghost var room := JsonString.Allocation(content[offset + 1..]);
      output := hooks.Allocate(quote - offset - skipped + 1);
      if output == null {
        return null, 0;
      }
      var decoded, length := DecodeLiteral(content, offset + 1, quote, output);
      if !decoded {
        hooks.Deallocate(output);
        return null, 0;
      }
      Inside(content, quote);
      output[length] := NUL;
      assert output[..][length] == NUL;
      CutAtNul(output[..], length);
      end := quote + 1;
    }

    /** parse_string. */
    method ParseString(item: Node) returns (ok: bool)
      requires Valid() && Awaits(item) && !hooks.exhausted
      modifies this`offset, hooks, item`kind, item`valuestring, item`own
      ensures Valid() && Settled(item, ok)
      ensures var r := JsonParse.ParseString(old(Rest()));
        && (ok <==> r.Ok? && !hooks.exhausted)
        && (ok ==> Rest() == r.rest && item.kids == [] && item.valuestring != null && item.Holds(String(r.value)))
    {
      hide UpToNul, Terminated, Ended, Node.Valid;
      if content[offset] != QUOTE {
        return false;
      }
      var output, end := ReadLiteral();
      if output == null {
        return false;
      }
      BlankOwn(item);
      EmptyChain(hooks);
      item.kind := IsString;
      item.valuestring := output;
      item.own := item.own + {output};
      offset := end;
      ValidWith(item, []);
      return true;
    }

    // -------------------------------------------------------------- values

    /** A literal such as null at the offset: can_read and strncmp. */
    predicate Reads(text: Text)
      reads this`offset
    {
      offset + |text| <= |content| && content[offset..offset + |text|] == text
    }

    /** The part of parse_value that recognises null, false and true. */
    method ParseLiteral(item: Node) returns (ok: bool)
      requires Valid() && Awaits(item)
      modifies this`offset, item`kind, item`valueint
      ensures Valid() && item.Valid() && (!ok ==> offset == old(offset))
      ensures ok <==> NULL_TEXT <= old(Rest()) || FALSE_TEXT <= old(Rest()) || TRUE_TEXT <= old(Rest())
      ensures ok ==> var r := JsonParse.ParseValue(old(Rest()), depth);
        r.Ok? && offset > old(offset) && Rest() == r.rest && item.Holds(r.value)
      ensures ok && TRUE_TEXT <= old(Rest()) ==> item.valueint == 1
    {
      hide Terminated, Node.Valid;
      ReadsIs(content, offset, NULL_TEXT);
      ReadsIs(content, offset, FALSE_TEXT);
      ReadsIs(content, offset, TRUE_TEXT);
      if Reads(NULL_TEXT) {
        item.kind := IsNull;
        offset := offset + 4;
      } else if Reads(FALSE_TEXT) {
        item.kind := IsFalse;
        offset := offset + 5;
      } else if Reads(TRUE_TEXT) {
        item.kind := IsTrue;
        item.valueint := 1;
        offset := offset + 4;
      } else {
        return false;
      }
      return true;
    }

    /** parse_value. */
    method ParseValue(item: Node) returns (ok: bool)
      requires Valid() && Awaits(item) && !hooks.exhausted
      modifies this, hooks, item`kind, item`valuestring, item`valueint, item`valuedouble, item`child, item`kids,
        item`own
      ensures Valid() && Settled(item, ok)
      ensures var r := JsonParse.ParseValue(old(Rest()), old(depth));
        && (ok <==> r.Ok? && !hooks.exhausted)
        && (ok ==> offset > old(offset) && depth == old(depth) && Rest() == r.rest && item.Holds(r.value))
      decreases |content| - offset, 5
    {
      hide Terminated, Node.Valid, JsonParse.ParseNumber, JsonParse.ParseString, JsonParse.ParseArray,
        JsonParse.ParseObject;
      ok := ParseLiteral(item);
      if ok {
        return true;
      }
      var c := content[offset];
      if c == QUOTE {
        ok := ParseString(item);
      } else if c == MINUS || IsDigit(c) {
        ok := ParseNumber(item);
      } else if c == LBRACKET {
        ok := ParseArray(item);
      } else if c == LBRACE {
        ok := ParseObject(item);
      } else {
        ok := false;
      }
    }

    /** A value with the white space around it, behind the character at the offset. */
    method ParseNext(node: Node) returns (ok: bool)
      requires Valid() && Awaits(node) && !hooks.exhausted && offset + 1 < |content|
      modifies this, hooks, node`kind, node`valuestring, node`valueint, node`valuedouble, node`child, node`kids,
        node`own
      ensures Valid() && Settled(node, ok)
      ensures var r := JsonParse.ParseValue(JsonParse.SkipWs(old(Rest())[1..]), old(depth));
        && (ok <==> r.Ok? && !hooks.exhausted)
        && (ok ==>
          && offset > old(offset) && depth == old(depth) && Rest() == JsonParse.SkipWs(r.rest)
          && node.Holds(r.value))
      decreases |content| - offset, 0
    {
      hide Terminated, Owned, Separate, AllValid, Below, Linked, Node.Holds, Node.Valid, JsonParse.ParseValue,
        JsonParse.SkipWs;
      assert content[offset..][1..] == content[offset + 1..];
      offset := offset + 1;
      SkipWs();
      ok := ParseValue(node);
      if ok {
        SkipWs();
      }
    }

    /** One turn of the loop of parse_array: a new node at the end of the chain, and its value. */
    method ParseElement(last: Node?, ghost nodes: seq<Node>, ghost values: seq<Json>) returns (node: Node?, ok: bool)
      requires Valid() && !hooks.exhausted && offset + 1 < |content|
      requires Chain(nodes, hooks) && HoldsAll(nodes, values) && last == Last(nodes)
      modifies this, hooks, (if last == null then {} else {last})`next
      ensures Valid()
      ensures node == null ==> !ok && Chain(nodes, hooks) && hooks.live == old(hooks.live)
      ensures node != null ==>
        && Chain(nodes + [node], hooks) && fresh(node) && fresh(Foot(node))
        && hooks.live == old(hooks.live) + Foot(node)
      ensures var r := JsonParse.ParseValue(JsonParse.SkipWs(old(Rest())[1..]), old(depth));
        && (ok <==> r.Ok? && !hooks.exhausted)
        && (ok ==> offset > old(offset) && depth == old(depth) && Rest() == JsonParse.SkipWs(r.rest)
                   && HoldsAll(nodes + [node], values + [r.value]))
      decreases |content| - offset, 1
    {
      hide Terminated, Owned, Separate, AllValid, HoldsAll, Below, Linked, Node.Holds, Node.Valid,
        JsonParse.ParseValue, JsonParse.SkipWs;
      BelowOwned(nodes);
      if last != null {
        LastApart(nodes, hooks);
      }
      node := Append(last, nodes, hooks);
      if node == null {
        return null, false;
      }
      ok := ParseNext(node);
      ChainSnoc(nodes, node, hooks);
      if ok {
        HoldsAllSnoc(nodes, values, node, JsonParse.ParseValue(JsonParse.SkipWs(old(Rest())[1..]), old(depth)).value);
      }
    }

    /** The way out of a failed loop: the chain is freed. */
    method Discard(head: Node?, ghost nodes: seq<Node>, ghost before: set<object>)
      requires Valid() && Chain(nodes, hooks) && head == if nodes == [] then null else nodes[0]
      requires hooks.live == before + Owned(nodes) && before !! Owned(nodes)
      modifies hooks
      ensures Valid() && hooks.live == before && hooks.exhausted == old(hooks.exhausted)
    {
      hide Terminated, Owned, Chain, Below;
      Delete(head, nodes, hooks);
    }

    /**
     The loop of parse_array, from the character in front of the first element to behind the closing
     bracket. When it fails, the chain built so far is freed.
     */
    method ParseElements() returns (ok: bool, head: Node?, ghost nodes: seq<Node>, ghost values: seq<Json>)
      requires Valid() && !hooks.exhausted && offset + 1 < |content|
      modifies this, hooks
      ensures Valid()
      ensures !ok ==> hooks.live == old(hooks.live)
      ensures ok ==>
        && nodes != [] && head == nodes[0] && Chain(nodes, hooks) && HoldsAll(nodes, values)
        && fresh(Owned(nodes)) && hooks.live == old(hooks.live) + Owned(nodes)
      ensures var r := JsonParse.ParseItems(old(Rest())[1..], old(depth));
        && (ok <==> r.Ok? && !hooks.exhausted)
        && (ok ==> offset > old(offset) && depth == old(depth) && Rest() == r.rest && ItemsOf(r.value) == values)
      decreases |content| - offset, 2
    {
      hide Chain, HoldsAll, Below, Owned, Foot, Terminated, ItemsOf, JsonParse.ParseItems, JsonParse.ParseValue,
        JsonParse.SkipWs, PutItems;
      ghost var first := JsonParse.ParseItems(Rest()[1..], depth);
      var last: Node? := null;
      head, nodes, values := null, [], [];
      EmptyChain(hooks);
      assert PutItems([], first) == first by { PutItemsNone(first); }
      while true
        invariant Valid() && !hooks.exhausted && old(offset) <= offset && offset + 1 < |content| && depth == old(depth)
        invariant Chain(nodes, hooks) && HoldsAll(nodes, values)
        invariant last == Last(nodes) && (last != null ==> fresh(last))
          && head == if nodes == [] then null else nodes[0]
        invariant fresh(Owned(nodes)) && hooks.live == old(hooks.live) + Owned(nodes)
        invariant first == PutItems(values, JsonParse.ParseItems(Rest()[1..], depth))
        decreases |content| - offset
      {
        ghost var s := Rest()[1..];
        ItemStep(s, depth, values);
        ghost var r := JsonParse.ParseValue(JsonParse.SkipWs(s), depth);
        var node, parsed := ParseElement(last, nodes, values);
        if node != null {
          OwnedNew(nodes, node);
          nodes := nodes + [node];
          if head == null {
            head := node;
          }
        }
        if !parsed {
          Discard(head, nodes, old(hooks.live));
          return false, null, [], [];
        }
        last, values := node, values + [r.value];
        if content[offset] != COMMA {
          break;
        }
        Inside(content, offset);
      }
      if content[offset] != RBRACKET {
        Discard(head, nodes, old(hooks.live));
        return false, null, [], [];
      }
      Inside(content, offset);
      ChainLive(nodes, hooks);
      assert Rest()[1..] == content[offset + 1..];
      offset := offset + 1;
      ok := true;
    }

    /** parse_array up to the point where the item takes over the elements. */
    method ParseBrackets() returns (ok: bool, head: Node?, ghost nodes: seq<Node>, ghost values: seq<Json>)
      requires Valid() && !hooks.exhausted && content[offset] == LBRACKET
      modifies this, hooks
      ensures Valid()
      ensures !ok ==> hooks.live == old(hooks.live)
      ensures ok ==>
        && head == (if nodes == [] then null else nodes[0]) && Chain(nodes, hooks) && HoldsAll(nodes, values)
        && fresh(Owned(nodes)) && hooks.live == old(hooks.live) + Owned(nodes)
      ensures var r := JsonParse.ParseArray(old(Rest()), old(depth));
        && (ok <==> r.Ok? && !hooks.exhausted)
        && (ok ==> offset > old(offset) && depth == old(depth) && Rest() == r.rest
                   && r.value.Array? && ItemsOf(r.value.items) == values)
      decreases |content| - offset, 3
    {
      hide Terminated, Below, Owned, Chain, HoldsAll, ItemsOf;
      hide JsonParse.ParseArray, JsonParse.ParseItems, JsonParse.SkipWs;
      ArrayStep(Rest(), depth);
      head, nodes, values := null, [], [];
      if depth >= NESTING_LIMIT {
        return false, head, nodes, values;
      }
      depth := depth + 1;
      Inside(content, offset);
      assert Rest()[1..] == content[offset + 1..];
      offset := offset + 1;
      SkipWs();
      if content[offset] == RBRACKET {
        Inside(content, offset);
        assert Rest()[1..] == content[offset + 1..];
        offset, depth := offset + 1, depth - 1;
        EmptyChain(hooks);
        return true, head, nodes, values;
      }
      offset := offset - 1;
      assert Rest()[1..] == content[offset + 1..];
      ok, head, nodes, values := ParseElements();
      if ok {
        ChainLive(nodes, hooks);
        depth := depth - 1;
      }
    }

    /** parse_array. */
    method ParseArray(item: Node) returns (ok: bool)
      requires Valid() && Awaits(item) && !hooks.exhausted && content[offset] == LBRACKET
      modifies this, hooks, item`kind, item`child, item`kids, item`own
      ensures Valid() && Settled(item, ok)
      ensures var r := JsonParse.ParseArray(old(Rest()), old(depth));
        && (ok <==> r.Ok? && !hooks.exhausted)
        && (ok ==> offset > old(offset) && depth == old(depth) && Rest() == r.rest && item.Holds(r.value))
      decreases |content| - offset, 4
    {
      hide Terminated, Below, Owned, JsonParse.ParseArray, ItemsOf, HoldsAll, Node.Holds, Node.Valid;
      var head; ghost var nodes, values;
      ok, head, nodes, values := ParseBrackets();
      if ok {
        Outside(item, nodes);
        item.kind := IsArray;
        Adopt(item, head, nodes, hooks);
        HoldsArray(item, JsonParse.ParseArray(old(Rest()), old(depth)).value.items);
      }
    }

    // -------------------------------------------------------------- objects

    /** What parsing part of a member does to its new node, whether or not it succeeds. */
    twostate predicate Grown(new node: Node, before: set<object>)
      reads node`child, node`valuestring, node`name, node`kids, node`own, node.own, hooks
    {
      node.Valid() && fresh(node.own) && hooks.live == before + node.own
    }

    /** The parsed string becomes the name of the node. */
    method TakeName(node: Node)
      requires node.Valid() && node.kids == [] && node.valuestring != null && node.name == null
      modifies node`name, node`valuestring
      ensures node.Valid() && node.IsBlank() && node.name == old(node.valuestring)
    {
      node.name := node.valuestring;
      node.valuestring := null;
    }

    /** The name of a member with its colon, from the character in front of it to the value. */
    method ParseName(node: Node) returns (ok: bool)
      requires Valid() && Awaits(node) && node.name == null && !hooks.exhausted && offset + 1 < |content|
      modifies this`offset, hooks, node`kind, node`valuestring, node`name, node`own
      ensures Valid() && Grown(node, old(hooks.live)) && node.IsBlank()
      ensures var r := JsonParse.ParseName(old(Rest())[1..]);
        && (ok <==> r.Ok? && !hooks.exhausted)
        && (ok ==> offset > old(offset) && Rest() == r.rest && node.name != null && UpToNul(node.name[..]) == r.value)
    {
      hide Terminated, Node.Valid, JsonParse.ParseString, JsonParse.SkipWs, UpToNul;
      BlankOwn(node);
      assert Rest()[1..] == content[offset + 1..];
      offset := offset + 1;
      SkipWs();
      ok := ParseString(node);
      if !ok {
        return;
      }
      SkipWs();
      TakeName(node);
      if content[offset] != COLON {
        return false;
      }
      Inside(content, offset);
      assert Rest()[1..] == content[offset + 1..];
      offset := offset + 1;
      SkipWs();
    }

    /** A name, its value and the white space around them. */
    method ParsePair(node: Node) returns (ok: bool)
      requires Valid() && Awaits(node) && node.name == null && !hooks.exhausted && offset + 1 < |content|
      modifies this, hooks, node`kind, node`valuestring, node`valueint, node`valuedouble, node`child, node`kids,
        node`name, node`own
      ensures Valid() && Grown(node, old(hooks.live))
      ensures var k := JsonParse.ParseName(old(Rest())[1..]);
        if k.Fail? then !ok
        else
          var r := JsonParse.ParseValue(k.rest, old(depth));
          && (ok <==> r.Ok? && !hooks.exhausted)
          && (ok ==> offset > old(offset) && depth == old(depth) && Rest() == JsonParse.SkipWs(r.rest)
                     && node.HoldsMember(k.value, r.value))
      decreases |content| - offset, 0
    {
      hide Terminated, JsonParse.ParseName, JsonParse.ParseValue, JsonParse.SkipWs, UpToNul, Node.Holds, Node.Valid;
      ok := ParseName(node);
      if ok {
        ok := ParseValue(node);
        if ok {
          SkipWs();
        }
      }
    }

    /** One turn of the loop of parse_object: a new node at the end of the chain, its name and its value. */
    method ParseMember(last: Node?, ghost nodes: seq<Node>, ghost values: seq<Member>) returns (node: Node?, ok: bool)
      requires Valid() && !hooks.exhausted && offset + 1 < |content|
      requires Chain(nodes, hooks) && HoldsMembers(nodes, values) && last == Last(nodes)
      modifies this, hooks, (if last == null then {} else {last})`next
      ensures Valid()
      ensures node == null ==> !ok && Chain(nodes, hooks) && hooks.live == old(hooks.live)
      ensures node != null ==>
        && Chain(nodes + [node], hooks) && fresh(node) && fresh(Foot(node))
        && hooks.live == old(hooks.live) + Foot(node)
      ensures var k := JsonParse.ParseName(old(Rest())[1..]);
        if k.Fail? then !ok
        else
          var r := JsonParse.ParseValue(k.rest, old(depth));
          && (ok <==> r.Ok? && !hooks.exhausted)
          && (ok ==> offset > old(offset) && depth == old(depth) && Rest() == JsonParse.SkipWs(r.rest)
                     && HoldsMembers(nodes + [node], values + [Member(k.value, r.value)]))
      decreases |content| - offset, 1
    {
      hide Terminated, Owned, Separate, AllValid, HoldsMembers, Below, Linked, Node.HoldsMember, Node.Valid;
      hide JsonParse.ParseName, JsonParse.ParseValue, JsonParse.SkipWs;
      ghost var k := JsonParse.ParseName(Rest()[1..]);
      BelowOwned(nodes);
      if last != null {
        LastApart(nodes, hooks);
      }
      node := Append(last, nodes, hooks);
      if node == null {
        return null, false;
      }
      ok := ParsePair(node);
      ChainSnoc(nodes, node, hooks);
      if ok {
        HoldsMembersSnoc(nodes, values, node, k.value, JsonParse.ParseValue(k.rest, old(depth)).value);
      }
    }

    /** The loop of parse_object, from the character in front of the first member to behind the closing brace. */
    method ParseMembers() returns (ok: bool, head: Node?, ghost nodes: seq<Node>, ghost values: seq<Member>)
      requires Valid() && !hooks.exhausted && offset + 1 < |content|
      modifies this, hooks
      ensures Valid()
      ensures !ok ==> hooks.live == old(hooks.live)
      ensures ok ==>
        && nodes != [] && head == nodes[0] && Chain(nodes, hooks) && HoldsMembers(nodes, values)
        && fresh(Owned(nodes)) && hooks.live == old(hooks.live) + Owned(nodes)
      ensures var r := JsonParse.ParseMembers(old(Rest())[1..], old(depth));
        && (ok <==> r.Ok? && !hooks.exhausted)
        && (ok ==> offset > old(offset) && depth == old(depth) && Rest() == r.rest && MembersOf(r.value) == values)
      decreases |content| - offset, 2
    {
      hide Chain, HoldsMembers, Below, Owned, Foot, Terminated, MembersOf, PutMembers;
      hide JsonParse.ParseMembers, JsonParse.ParseName, JsonParse.ParseValue, JsonParse.SkipWs;
      ghost var first := JsonParse.ParseMembers(Rest()[1..], depth);
      var last: Node? := null;
      head, nodes, values := null, [], [];
      EmptyChain(hooks);
      assert PutMembers([], first) == first by { PutMembersNone(first); }
      while true
        invariant Valid() && !hooks.exhausted && old(offset) <= offset && offset + 1 < |content| && depth == old(depth)
        invariant Chain(nodes, hooks) && HoldsMembers(nodes, values)
        invariant last == Last(nodes) && (last != null ==> fresh(last))
          && head == if nodes == [] then null else nodes[0]
        invariant fresh(Owned(nodes)) && hooks.live == old(hooks.live) + Owned(nodes)
        invariant first == PutMembers(values, JsonParse.ParseMembers(Rest()[1..], depth))
        decreases |content| - offset
      {
        ghost var s := Rest()[1..];
        MemberStep(s, depth, values);
        ghost var k := JsonParse.ParseName(s);
        var node, parsed := ParseMember(last, nodes, values);
        if node != null {
          OwnedNew(nodes, node);
          nodes := nodes + [node];
          if head == null {
            head := node;
          }
        }
        if !parsed {
          Discard(head, nodes, old(hooks.live));
          return false, null, [], [];
        }
        last, values := node, values + [Member(k.value, JsonParse.ParseValue(k.rest, depth).value)];
        if content[offset] != COMMA {
          break;
        }
        Inside(content, offset);
      }
      if content[offset] != RBRACE {
        Discard(head, nodes, old(hooks.live));
        return false, null, [], [];
      }
      Inside(content, offset);
      ChainLive(nodes, hooks);
      assert Rest()[1..] == content[offset + 1..];
      offset := offset + 1;
      ok := true;
    }

    /** parse_object up to the point where the item takes over the members. */
    method ParseBraces() returns (ok: bool, head: Node?, ghost nodes: seq<Node>, ghost values: seq<Member>)
      requires Valid() && !hooks.exhausted && content[offset] == LBRACE
      modifies this, hooks
      ensures Valid()
      ensures !ok ==> hooks.live == old(hooks.live)
      ensures ok ==>
        && head == (if nodes == [] then null else nodes[0]) && Chain(nodes, hooks) && HoldsMembers(nodes, values)
        && fresh(Owned(nodes)) && hooks.live == old(hooks.live) + Owned(nodes)
      ensures var r := JsonParse.ParseObject(old(Rest()), old(depth));
        && (ok <==> r.Ok? && !hooks.exhausted)
        && (ok ==> offset > old(offset) && depth == old(depth) && Rest() == r.rest
                   && r.value.Object? && MembersOf(r.value.members) == values)
      decreases |content| - offset, 3
    {
      hide Terminated, Below, Owned, Chain, HoldsMembers, MembersOf;
      hide JsonParse.ParseObject, JsonParse.ParseMembers, JsonParse.SkipWs;
      ObjectStep(Rest(), depth);
      head, nodes, values := null, [], [];
      if depth >= NESTING_LIMIT {
        return false, head, nodes, values;
      }
      depth := depth + 1;
      Inside(content, offset);
      assert Rest()[1..] == content[offset + 1..];
      offset := offset + 1;
      SkipWs();
      if content[offset] == RBRACE {
        Inside(content, offset);
        assert Rest()[1..] == content[offset + 1..];
        offset, depth := offset + 1, depth - 1;
        EmptyChain(hooks);
        return true, head, nodes, values;
      }
      offset := offset - 1;
      assert Rest()[1..] == content[offset + 1..];
      ok, head, nodes, values := ParseMembers();
      if ok {
        ChainLive(nodes, hooks);
        depth := depth - 1;
      }
    }

    /** parse_object. */
    method ParseObject(item: Node) returns (ok: bool)
      requires Valid() && Awaits(item) && !hooks.exhausted && content[offset] == LBRACE
      modifies this, hooks, item`kind, item`child, item`kids, item`own
      ensures Valid() && Settled(item, ok)
      ensures var r := JsonParse.ParseObject(old(Rest()), old(depth));
        && (ok <==> r.Ok? && !hooks.exhausted)
        && (ok ==> offset > old(offset) && depth == old(depth) && Rest() == r.rest && item.Holds(r.value))
      decreases |content| - offset, 4
    {
      hide Terminated, Below, Owned, JsonParse.ParseObject, MembersOf, HoldsMembers, Node.Holds, Node.Valid;
      var head; ghost var nodes, values;
      ok, head, nodes, values := ParseBraces();
      if ok {
        Outside(item, nodes);
        item.kind := IsObject;
        Adopt(item, head, nodes, hooks);
        HoldsObject(item, JsonParse.ParseObject(old(Rest()), old(depth)).value.members);
      }
    }
  }

  // ---------------------------------------------------------------- whole texts

  /** skip_utf8_bom, at the start of the buffer. */
  method SkipUtf8Bom(buffer: ParseBuffer)
    requires buffer.Valid() && buffer.offset == 0
    modifies buffer`offset
    ensures buffer.Valid() && buffer.Rest() == JsonParse.SkipBom(old(buffer.Rest()))
  {
    ReadsIs(buffer.content, 0, JsonParse.BOM);
    if |buffer.content| > 4 && buffer.content[0..3] == JsonParse.BOM {
      buffer.offset := 3;
    }
  }

  /** The parsing part of cJSON_ParseWithOpts, into a new root. */
  method ParseRoot(buffer: ParseBuffer, item: Node, requireNul: bool) returns (ok: bool)
    requires buffer.Valid() && buffer.Awaits(item) && item.own == {} && buffer.offset == 0 && buffer.depth == 0
    requires !buffer.hooks.exhausted
    modifies buffer, buffer.hooks, item`kind, item`valuestring, item`valueint, item`valuedouble, item`child,
      item`kids, item`own
    ensures buffer.Valid() && buffer.Grown(item, old(buffer.hooks.live))
    ensures var r := JsonParse.ParseValue(JsonParse.SkipWs(JsonParse.SkipBom(buffer.content)), 0);
      if r.Fail? then !ok
      else
        var t := if requireNul then JsonParse.SkipWs(r.rest) else r.rest;
        && (ok <==> !buffer.hooks.exhausted && (requireNul ==> t != [] && t[0] == NUL))
        && (ok ==> item.Holds(r.value) && buffer.Rest() == t)
  {
    hide JsonParse.SkipWs, JsonParse.SkipBom, JsonParse.ParseValue, Node.Holds, Node.Valid, Terminated;
    assert buffer.Rest() == buffer.content;
    SkipUtf8Bom(buffer);
    buffer.SkipWs();
    ok := buffer.ParseValue(item);
    if ok && requireNul {
      buffer.SkipWs();
      ok := buffer.content[buffer.offset] == NUL;
    }
  }

  /**
   cJSON_ParseWithOpts on a C string. The text is accepted exactly as JsonParse.Parse accepts it, as
   long as no allocation fails; what is live afterwards is the tree, or nothing new at all.
   */
  method ParseWithOpts(text: Text, requireNul: bool, hooks: Hooks) returns (item: Node?, end: nat)
    requires CString(text) && hooks !in hooks.live
    modifies hooks
    ensures item == null ==> hooks.live == old(hooks.live)
    ensures item != null ==>
      && item.Valid() && item.next == item.prev == null && item.name == null
      && fresh(Foot(item)) && hooks.live == old(hooks.live) + Foot(item)
    ensures var r := JsonParse.Parse(text, requireNul);
      && (item != null <==> r.Ok? && !hooks.exhausted)
      && (item != null ==> item.Holds(r.value) && end <= |text| && (text + [NUL])[end..] == r.rest)
  {
    hide JsonParse.SkipWs, JsonParse.SkipBom, JsonParse.ParseValue, Node.Holds, Node.Valid, Owned, Chain;
    hooks.exhausted := false;
    var content := text + [NUL];
    assert content[..|text|] == text;
    item := NewItem(hooks);
    if item == null {
      return null, 0;
    }
    BlankOwn(item);
    var buffer := new ParseBuffer(content, hooks);
    var ok := ParseRoot(buffer, item, requireNul);
    end := buffer.offset;
    if !ok {
      SingleChain(item, hooks);
      Delete(item, [item], hooks);
      item := null;
    }
  }

  // ---------------------------------------------------------------- elements so far

  /** Elements already read, in front of what the rest yields. */
  ghost function PutItems(values: seq<Json>, r: JsonParse.Parsed<Items>): JsonParse.Parsed<Items>
    decreases |values|
  {
    if r.Fail? || values == [] then r
    else PutItems(values[..|values| - 1], JsonParse.Ok(ICons(values[|values| - 1], r.value), r.rest))
  }

  lemma PutItemsNone(r: JsonParse.Parsed<Items>)
    ensures PutItems([], r) == r
  {
  }

  lemma {:induction false} PutItemsDone(values: seq<Json>, items: Items, rest: Text)
    ensures var r := PutItems(values, JsonParse.Ok(items, rest));
      r.Ok? && r.rest == rest && ItemsOf(r.value) == values + ItemsOf(items)
    decreases |values|
  {
    if values != [] {
      PutItemsDone(values[..|values| - 1], ICons(values[|values| - 1], items), rest);
    }
  }

  /** What follows the opening bracket. */
  lemma ArrayStep(s: Text, depth: nat)
    requires s != []
    ensures var r := JsonParse.ParseArray(s, depth);
      var t := JsonParse.SkipWs(s[1..]);
      if depth >= NESTING_LIMIT then r.Fail?
      else if t != [] && t[0] == RBRACKET then r == JsonParse.Ok(Array(INil), t[1..]) && ItemsOf(INil) == []
      else
        var items := JsonParse.ParseItems(t, depth + 1);
        r == if items.Fail? then JsonParse.Fail else JsonParse.Ok(Array(items.value), items.rest)
  {
    hide JsonParse.SkipWs, JsonParse.ParseItems;
  }

  /** One turn of the loop, in terms of JsonParse.ParseItems. */
  lemma ItemStep(s: Text, depth: nat, values: seq<Json>)
    ensures var v := JsonParse.ParseValue(JsonParse.SkipWs(s), depth);
      var whole := PutItems(values, JsonParse.ParseItems(s, depth));
      if v.Fail? then whole.Fail?
      else
        var t := JsonParse.SkipWs(v.rest);
        var more := values + [v.value];
        if t == [] then whole.Fail?
        else if t[0] == COMMA then whole == PutItems(more, JsonParse.ParseItems(t[1..], depth))
        else if t[0] == RBRACKET then whole.Ok? && whole.rest == t[1..] && ItemsOf(whole.value) == more
        else whole.Fail?
  {
    hide JsonParse.ParseValue, JsonParse.SkipWs;
    var v := JsonParse.ParseValue(JsonParse.SkipWs(s), depth);
    if v.Ok? {
      assert (values + [v.value])[..|values|] == values;
      var t := JsonParse.SkipWs(v.rest);
      if t != [] && t[0] == RBRACKET {
        PutItemsDone(values, ICons(v.value, INil), t[1..]);
      }
    }
  }

  /** Members already read, in front of what the rest yields. */
  ghost function PutMembers(values: seq<Member>, r: JsonParse.Parsed<Members>): JsonParse.Parsed<Members>
    decreases |values|
  {
    if r.Fail? || values == [] then r
    else PutMembers(values[..|values| - 1], JsonParse.Ok(MCons(values[|values| - 1].key, values[|values| - 1].value,
      r.value), r.rest))
  }

  lemma PutMembersNone(r: JsonParse.Parsed<Members>)
    ensures PutMembers([], r) == r
  {
  }

  lemma {:induction false} PutMembersDone(values: seq<Member>, members: Members, rest: Text)
    ensures var r := PutMembers(values, JsonParse.Ok(members, rest));
      r.Ok? && r.rest == rest && MembersOf(r.value) == values + MembersOf(members)
    decreases |values|
  {
    if values != [] {
      PutMembersDone(values[..|values| - 1], MCons(values[|values| - 1].key, values[|values| - 1].value, members),
        rest);
    }
  }

  /** What follows the opening brace. */
  lemma ObjectStep(s: Text, depth: nat)
    requires s != []
    ensures var r := JsonParse.ParseObject(s, depth);
      var t := JsonParse.SkipWs(s[1..]);
      if depth >= NESTING_LIMIT then r.Fail?
      else if t != [] && t[0] == RBRACE then r == JsonParse.Ok(Object(MNil), t[1..]) && MembersOf(MNil) == []
      else
        var members := JsonParse.ParseMembers(t, depth + 1);
        r == if members.Fail? then JsonParse.Fail else JsonParse.Ok(Object(members.value), members.rest)
  {
    hide JsonParse.SkipWs, JsonParse.ParseMembers;
  }

  /** One turn of the loop, in terms of JsonParse.ParseMembers. */
  lemma MemberStep(s: Text, depth: nat, values: seq<Member>)
    ensures var k := JsonParse.ParseName(s);
      var whole := PutMembers(values, JsonParse.ParseMembers(s, depth));
      if k.Fail? then whole.Fail?
      else
        var v := JsonParse.ParseValue(k.rest, depth);
        if v.Fail? then whole.Fail?
        else
          var t := JsonParse.SkipWs(v.rest);
          var more := values + [Member(k.value, v.value)];
          if t == [] then whole.Fail?
          else if t[0] == COMMA then whole == PutMembers(more, JsonParse.ParseMembers(t[1..], depth))
          else if t[0] == RBRACE then whole.Ok? && whole.rest == t[1..] && MembersOf(whole.value) == more
          else whole.Fail?
  {
    hide JsonParse.ParseValue, JsonParse.SkipWs, JsonParse.ParseName;
    var k := JsonParse.ParseName(s);
    if k.Ok? && JsonParse.ParseValue(k.rest, depth).Ok? {
      var v := JsonParse.ParseValue(k.rest, depth);
      assert (values + [Member(k.value, v.value)])[..|values|] == values;
      var t := JsonParse.SkipWs(v.rest);
      if t != [] && t[0] == RBRACE {
        PutMembersDone(values, MCons(k.value, v.value, MNil), t[1..]);
      }
    }
  }

  lemma Inside(content: Text, offset: nat)
    requires Terminated(content) && offset < |content| && content[offset] != NUL
    ensures offset + 1 < |content|
  {
  }

  /** A literal in front of the terminator. */
  lemma ReadsIs(content: Text, offset: nat, text: Text)
    requires Terminated(content) && offset < |content| && |text| > 0 && CString(text)
    ensures text <= content[offset..] <==> offset + |text| <= |content| && content[offset..offset + |text|] == text
    ensures text <= content[offset..] ==>
      && offset + |text| < |content|
      && content[offset..][|text|..] == content[offset + |text|..]
  {
    if text <= content[offset..] {
      assert content[offset..][..|text|] == content[offset..offset + |text|] == text;
      assert text[|text| - 1] == content[offset + |text| - 1];
    }
    if offset + |text| <= |content| && content[offset..offset + |text|] == text {
      assert content[offset..][..|text|] == text;
    }
  }

  /** A number token ends in front of the terminator. */
  lemma NumberEnds(content: Text, offset: nat)
    requires Terminated(content) && offset < |content|
    ensures offset + Strtod(Window(content[offset..])).length < |content|
  {
    hide Strtod, Window;
    var w := Window(content[offset..]);
    WindowIs(content[offset..], 63);
    assert forall i :: 0 <= i < |w| ==> content[offset + i] == w[i];
  }

  /** JsonParse.ParseString, in terms of places in the content. */
  lemma LiteralSteps(content: Text, offset: nat)
    requires offset < |content| && content[offset] == QUOTE
    ensures var body := content[offset + 1..];
      var end := JsonString.ScanEnd(body);
      var r := JsonParse.ParseString(content[offset..]);
      if end.None? then r.Fail?
      else
        var quote := offset + 1 + end.value;
        var t := JsonString.Decode(content[offset + 1..quote + 1]);
        r == if t.None? then JsonParse.Fail else JsonParse.Ok(UpToNul(t.value), content[quote + 1..])
  {
    hide JsonString.ScanEnd, JsonString.Decode, UpToNul;
    var body := content[offset + 1..];
    assert content[offset..][1..] == body;
    var end := JsonString.ScanEnd(body);
    if end.Some? {
      var quote := offset + 1 + end.value;
      assert body[..end.value + 1] == content[offset + 1..quote + 1];
      assert body[end.value + 1..] == content[quote + 1..];
    }
  }

  /** What a buffer holds is what was written in front of the terminator. */
  lemma {:induction false} CutAtNul(s: Text, n: nat)
    requires n < |s| && s[n] == NUL
    ensures UpToNul(s) == UpToNul(s[..n])
  {
    if n > 0 && s[0] != 0 {
      assert s[1..][..n - 1] == s[..n][1..];
      CutAtNul(s[1..], n - 1);
    }
  }
}
