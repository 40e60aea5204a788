/**
 The printer of jsonRead/cJSON.c on its growable byte buffer, proved against the text of a tree:
 what it leaves in the buffer, and exactly when it succeeds.
 */
module JsonPrint {
  import opened Bytes
  import opened Json
  import opened JsonNumber
  import opened JsonString
  import opened JsonText
  import opened Memory
  import opened CJson
  import Utf8

  class PrintBuffer {
    var buffer: array?<byte>
    var length: nat
    var offset: nat
    var depth: nat
    const noalloc: bool
    const format: Format
    const hooks: Hooks
    /** What is allocated besides the buffer. */
    ghost const others: set<object>
    /** Bytes moved so far by growing without realloc. */
    ghost var copied: nat

    ghost function Owned(): set<object>
      reads this`buffer
    {
      if noalloc || buffer == null then {} else {buffer}
    }

    /** The buffer is the only thing owned; growing by copying costs at most twice the capacity in all. */
    ghost predicate Valid()
      reads this`buffer, this`length, this`copied, hooks
    {
      && (buffer != null ==> length <= buffer.Length)
      && length <= INT_MAX
      && hooks.live == others + Owned() && others !! Owned()
      && (buffer != null ==> copied <= 2 * length && (length < INT_MAX ==> copied <= length))
    }

    constructor (buffer: array<byte>, length: nat, noalloc: bool, format: Format, hooks: Hooks)
      requires length <= buffer.Length && length <= INT_MAX
      requires noalloc || buffer in hooks.live
      requires length == 0 ==> noalloc || hooks.canReallocate
      ensures Valid() && At([]) && depth == 0
      ensures this.buffer == buffer && this.length == length && this.hooks == hooks
      ensures this.noalloc == noalloc && this.format == format
      ensures others == hooks.live - (if noalloc then {} else {buffer})
    {
      this.buffer, this.length, this.offset, this.depth := buffer, length, 0, 0;
      this.noalloc, this.format, this.hooks := noalloc, format, hooks;
      this.others, this.copied := hooks.live - (if noalloc then {} else {buffer}), 0;
    }

    /** The largest capacity there can be. */
    ghost function Limit(): nat
      reads this`length
    {
      if noalloc then length else INT_MAX
    }

    /** Text t is written and the offset is right behind it. */
    ghost predicate At(t: Text)
      reads this`buffer, this`length, this`offset, buffer
    {
      && buffer != null && length <= buffer.Length
      && offset == |t| && (offset < length || (length == 0 && t == [] && (noalloc || hooks.canReallocate)))
      && (t != [] ==> buffer[..offset] == t)
    }

    /** Text t is written and terminated; the offset is somewhere in it, not before `from`. */
    ghost predicate Ended(t: Text, from: nat)
      reads this`buffer, this`length, this`offset, buffer
    {
      && buffer != null && |t| < length <= buffer.Length
      && buffer[..|t|] == t && buffer[|t|] == NUL
      && from <= offset <= |t|
    }

    /** ensure: room for `needed` bytes and one more behind the offset. */
    method Ensure(needed: nat, ghost t: Text) returns (ok: bool)
      requires Valid() && At(t) && !hooks.exhausted
      modifies this`buffer, this`length, this`copied, hooks
      ensures Valid()
      ensures ok <==> offset + needed + 1 <= old(Limit()) && !hooks.exhausted
      ensures ok ==> At(t) && offset + needed + 1 <= length
      ensures ok && offset < old(length) ==> buffer[offset] == old(buffer[offset])
      ensures noalloc ==> buffer == old(buffer) && length == old(length) && hooks.exhausted == old(hooks.exhausted)
      ensures buffer == null || buffer == old(buffer) || fresh(buffer)
      ensures ok && length != old(length) ==> length >= 2 * old(length) || length == INT_MAX
    {
      if buffer == null {
        return false;
      }
      if length > 0 && offset >= length {
        return false;
      }
      if needed > INT_MAX {
        return false;
      }
      var total := needed + offset + 1;
      if total <= length {
        return true;
      }
      if noalloc {
        return false;
      }
      if total > INT_MAX / 2 {
        if total <= INT_MAX {
          ok := Resize(INT_MAX, t);
        } else {
          return false;
        }
      } else {
        ok := Resize(total * 2, t);
      }
    }

    /** The part of ensure that moves to a bigger block, or gives the buffer up. */
    method Resize(newsize: nat, ghost t: Text) returns (ok: bool)
      requires Valid() && At(t) && !hooks.exhausted && !noalloc
      requires offset < newsize && (2 * length < newsize || (newsize == INT_MAX && length < newsize))
        && newsize <= INT_MAX
      modifies this`buffer, this`length, this`copied, hooks
      ensures Valid() && ok == !hooks.exhausted
      ensures ok ==> At(t) && length == newsize && fresh(buffer)
      ensures ok && offset < old(length) ==> buffer[offset] == old(buffer[offset])
      ensures !ok ==> buffer == null
    {
      var newbuffer;
      if hooks.canReallocate {
        newbuffer := hooks.Reallocate(buffer, newsize);
        if newbuffer == null {
          hooks.Deallocate(buffer);
          length, buffer := 0, null;
          return false;
        }
      } else {
        newbuffer := hooks.Allocate(newsize);
        if newbuffer == null {
          hooks.Deallocate(buffer);
          length, buffer := 0, null;
          return false;
        }
        CopyBytes(newbuffer, buffer, offset + 1);
        copied := copied + offset + 1;
        hooks.Deallocate(buffer);
      }
      assert newbuffer[..offset] == buffer[..offset];
      length, buffer := newsize, newbuffer;
      return true;
    }

    /** Store bytes from a place in the buffer on. */
    method PutAt(at: nat, s: Text)
      requires buffer != null && at + |s| <= buffer.Length
      modifies buffer
      ensures buffer[..at + |s|] == old(buffer[..at]) + s
    {
      ghost var all := buffer[..];
      for k := 0 to |s|
        invariant forall i :: 0 <= i < at ==> buffer[i] == all[i]
        invariant buffer[at..at + k] == s[..k]
      {
        buffer[at + k] := s[k];
        assert s[..k + 1] == s[..k] + [s[k]];
      }
      assert buffer[..at] == all[..at];
      assert buffer[..at + |s|] == buffer[..at] + buffer[at..at + |s|];
    }

    /** Store bytes behind the offset without moving it. */
    method Put(s: Text, ghost t: Text)
      requires At(t) && offset + |s| <= length
      modifies buffer
      ensures At(t) && buffer[..offset + |s|] == t + s
    {
      assert buffer[..offset] == t;
      PutAt(offset, s);
      assert buffer[..offset + |s|][..offset] == buffer[..offset];
    }

    /** Nothing here is part of a tree with these blocks. */
    ghost predicate Clear(own: set<object>)
      reads this`buffer
    {
      this !in own && hooks !in own && (buffer == null || buffer !in own)
    }

    /** update_offset: move the offset to the terminator. */
    method UpdateOffset(ghost t: Text)
      requires Ended(t, offset) && CString(t[offset..])
      modifies this`offset
      ensures At(t)
    {
      ghost var from := offset;
      while buffer[offset] != NUL
        invariant from <= offset <= |t|
        decreases |t| - offset
      {
        offset := offset + 1;
      }
      TerminatorBehind(t, from, offset);
    }

    /** The first zero byte behind a terminated text without zero bytes is its terminator. */
    lemma TerminatorBehind(t: Text, from: nat, at: nat)
      requires buffer != null && |t| < buffer.Length && forall i :: 0 <= i < |t| ==> buffer[i] == t[i]
      requires from <= at <= |t| && CString(t[from..]) && buffer[at] == NUL
      ensures at == |t|
    {
      hide CString;
      if at < |t| {
        Inside(t, from, at);
      }
    }

    static lemma Inside(t: Text, from: nat, at: nat)
      requires from <= at < |t| && CString(t[from..])
      ensures t[at] != NUL
    {
      assert t[from..][at - from] == t[at];
    }

    // -------------------------------------------------------------- scalars

    /** Everything a print function may leave behind. */
    ghost predicate Printed(ok: bool, t: Text, r: Text, limit: nat)
      reads this`buffer, this`length, this`offset, this`copied, hooks, buffer
    {
      && Valid() && Limit() == limit
      && (ok <==> |t| + |r| + 2 <= limit && !hooks.exhausted)
      && (ok ==> Ended(t + r, |t|))
    }

    /** Room for s with its terminator, then s and the terminator: the `strcpy` cases of print_value. */
    method PrintLiteral(s: Text, ghost t: Text) returns (ok: bool)
      requires Valid() && At(t) && !hooks.exhausted
      modifies this`buffer, this`length, this`copied, hooks, buffer
      ensures Printed(ok, t, s, old(Limit()))
      ensures noalloc ==> buffer == old(buffer) && hooks.exhausted == old(hooks.exhausted)
      ensures buffer == null || buffer == old(buffer) || fresh(buffer)
    {
      ok := Ensure(|s| + 1, t);
      if ok {
        Put(s + [NUL], t);
        Terminated(t, s);
      }
    }

    lemma Terminated(t: Text, s: Text)
      requires buffer != null && offset == |t| && |t| + |s| + 1 <= length <= buffer.Length
      requires buffer[..offset + |s| + 1] == t + (s + [NUL])
      ensures Ended(t + s, |t|)
    {
      ghost var all := t + (s + [NUL]);
      assert buffer[..|t| + |s|] == all[..|t| + |s|] == t + s;
      assert buffer[|t| + |s|] == buffer[..|t| + |s| + 1][|t| + |s|];
    }

    /** print_number; the offset moves to the end. */
    method PrintNumber(v: real, ghost t: Text) returns (ok: bool)
      requires Valid() && At(t) && !hooks.exhausted
      modifies this`buffer, this`length, this`offset, this`copied, hooks, buffer
      ensures Printed(ok, t, NumberText(v, format), old(Limit()))
      ensures noalloc ==> buffer == old(buffer) && hooks.exhausted == old(hooks.exhausted)
      ensures buffer == null || buffer == old(buffer) || fresh(buffer)
    {
      var number := NumberText(v, format);
      ok := PrintLiteral(number, t);
      if ok {
        offset := offset + |number|;
      }
    }

    // -------------------------------------------------------------- strings

    /** The counting pass of print_string_ptr. */
    static method CountEscapes(input: array<byte>) returns (length: nat, escapes: nat)
      requires CJson.Ended(input)
      ensures length == |UpToNul(input[..])| && length + escapes == |EscapeAll(UpToNul(input[..]))|
    {
      hide UpToNul, CJson.Ended;
      UpToNulLength(input);
      ghost var text := UpToNul(input[..]);
      length, escapes := 0, 0;
      while input[length] != NUL
        invariant length <= |text|
        invariant length + escapes + |EscapeAll(text[length..])| == |EscapeAll(text)|
        decreases |text| - length
      {
        assert text[length..][1..] == text[length + 1..];
        if ShortEscape(input[length]).Some? {
          escapes := escapes + 1;
        } else if input[length] < 32 {
          escapes := escapes + 5;
        }
        length := length + 1;
      }
    }

    static lemma {:induction false} EscapeAllSnoc(s: Text, c: byte)
      ensures EscapeAll(s + [c]) == EscapeAll(s) + EscapeChar(c)
      decreases |s|
    {
      hide EscapeChar;
      if s == [] {
        assert EscapeAll([c]) == EscapeChar(c) + EscapeAll([]);
      } else {
        assert (s + [c])[1..] == s[1..] + [c];
        EscapeAllSnoc(s[1..], c);
      }
    }

    static lemma {:induction false} EscapeAllPlain(s: Text)
      ensures |EscapeAll(s)| >= |s|
      ensures |EscapeAll(s)| == |s| ==> EscapeAll(s) == s
    {
      if s != [] {
        EscapeAllPlain(s[1..]);
      }
    }

    /** One turn of the writing pass. */
    method WriteCharacter(c: byte, at: nat) returns (next: nat)
      requires buffer != null && at + |EscapeChar(c)| <= buffer.Length
      modifies buffer
      ensures next == at + |EscapeChar(c)| && buffer[..next] == old(buffer[..at]) + EscapeChar(c)
    {
      if c > 31 && c != QUOTE && c != BACKSLASH {
        PutAt(at, [c]);
        return at + 1;
      }
      var short := ShortEscape(c);
      if short.Some? {
        PutAt(at, [BACKSLASH, short.value]);
        return at + 2;
      }
      PutAt(at, [BACKSLASH, Utf8.LOWER_U, ZERO, ZERO, HexChar(c / 16), HexChar(c % 16)]);
      return at + 6;
    }

    /** The writing pass of print_string_ptr; without escapes it is one memcpy. */
    method WriteCharacters(input: array<byte>, size: nat, escapes: nat, at: nat)
      requires CJson.Ended(input) && buffer != null && input != buffer
      requires size == |UpToNul(input[..])| && size + escapes == |EscapeAll(UpToNul(input[..]))|
      requires at + size + escapes <= buffer.Length
      modifies buffer
      ensures buffer[..at + size + escapes] == old(buffer[..at]) + EscapeAll(UpToNul(input[..]))
    {
      hide UpToNul, CJson.Ended, EscapeChar;
      UpToNulLength(input);
      ghost var text := UpToNul(input[..]);
      if escapes == 0 {
        EscapeAllPlain(text);
        assert input[..size] == text;
        PutAt(at, input[..size]);
        return;
      }
      ghost var before := buffer[..at];
      var i, to: nat := 0, at;
      assert text[..0] == [];
      while input[i] != NUL
        invariant 0 <= i <= size && to == at + |EscapeAll(text[..i])| <= at + size + escapes
        invariant buffer[..to] == before + EscapeAll(text[..i])
        decreases size - i
      {
        EscapeAllSnoc(text[..i], text[i]);
        EscapeAllGrows(text, i + 1);
        assert text[..i + 1] == text[..i] + [text[i]];
        to := WriteCharacter(input[i], to);
        i := i + 1;
      }
      assert text[..i] == text;
    }

    static lemma EscapeAllGrows(s: Text, n: nat)
      requires n <= |s|
      ensures |EscapeAll(s[..n])| <= |EscapeAll(s)|
    {
      EscapeAllConcat(s[..n], s[n..]);
      assert s[..n] + s[n..] == s;
    }

    static lemma {:induction false} EscapeAllConcat(s: Text, t: Text)
      ensures EscapeAll(s + t) == EscapeAll(s) + EscapeAll(t)
    {
      hide EscapeChar;
      if s == [] {
        assert s + t == t;
      } else {
        assert (s + t)[1..] == s[1..] + t;
        EscapeAllConcat(s[1..], t);
      }
    }

    /** print_string_ptr. */
    method PrintString(input: array<byte>, ghost t: Text) returns (ok: bool)
      requires CJson.Ended(input) && (buffer == null || buffer != input)
      requires Valid() && At(t) && !hooks.exhausted
      modifies this`buffer, this`length, this`copied, hooks, buffer
      ensures Printed(ok, t, Quote(old(UpToNul(input[..]))), old(Limit()))
      ensures noalloc ==> buffer == old(buffer) && hooks.exhausted == old(hooks.exhausted)
      ensures buffer == null || buffer == old(buffer) || fresh(buffer)
    {
      hide UpToNul, CJson.Ended, EscapeAll;
      var size, escapes := CountEscapes(input);
      ok := Ensure(size + escapes + 3, t);
      if ok {
        WriteQuoted(input, size, escapes, t);
      }
    }

    /** The string between its quotes, and the terminator, in the room reserved for them. */
    method WriteQuoted(input: array<byte>, size: nat, escapes: nat, ghost t: Text)
      requires CJson.Ended(input) && input != buffer
      requires size == |UpToNul(input[..])| && size + escapes == |EscapeAll(UpToNul(input[..]))|
      requires At(t) && offset + size + escapes + 3 <= length
      modifies buffer
      ensures Ended(t + Quote(old(UpToNul(input[..]))), |t|)
    {
      hide UpToNul, CJson.Ended, EscapeAll;
      ghost var text := UpToNul(input[..]);
      PutAt(offset, [QUOTE]);
      WriteCharacters(input, size, escapes, offset + 1);
      PutAt(offset + 1 + size + escapes, [QUOTE, NUL]);
      QuotedText(t, EscapeAll(text));
      Terminated(t, Quote(text));
    }

    static lemma QuotedText(t: Text, body: Text)
      ensures ((t + [QUOTE]) + body) + [QUOTE, NUL] == t + (([QUOTE] + body + [QUOTE]) + [NUL])
    {
    }

    // -------------------------------------------------------------- values

    /** Reserve `room` bytes, store s, no longer than that, and move behind it. */
    method Append(s: Text, room: nat, ghost t: Text) returns (ok: bool)
      requires Valid() && At(t) && !hooks.exhausted && |s| <= room
      modifies this`buffer, this`length, this`offset, this`copied, hooks, buffer
      ensures Valid() && Limit() == old(Limit())
      ensures ok <==> |t| + room + 1 <= old(Limit()) && !hooks.exhausted
      ensures ok ==> At(t + s)
      ensures noalloc ==> buffer == old(buffer) && hooks.exhausted == old(hooks.exhausted)
      ensures buffer == null || buffer == old(buffer) || fresh(buffer)
    {
      ok := Ensure(room, t);
      if ok {
        Put(s, t);
        offset := offset + |s|;
      }
    }

    /** print_value, for a node that stands for j. */
    method PrintValue(item: Node, ghost j: Json, ghost t: Text) returns (ok: bool)
      requires item.Holds(j) && Clear(item.own)
      requires Valid() && At(t) && !hooks.exhausted
      modifies this`buffer, this`length, this`offset, this`depth, this`copied, hooks, buffer
      ensures Printed(ok, t, Render(j, format, old(depth)), old(Limit()))
      ensures ok ==> depth == old(depth)
      ensures noalloc ==> buffer == old(buffer) && hooks.exhausted == old(hooks.exhausted)
      ensures buffer == null || buffer == old(buffer) || fresh(buffer)
      decreases j, 1
    {
      match item.kind
      case IsNull => ok := PrintLiteral(NULL_TEXT, t);
      case IsFalse => ok := PrintLiteral(FALSE_TEXT, t);
      case IsTrue => ok := PrintLiteral(TRUE_TEXT, t);
      case IsNumber => ok := PrintNumber(item.valuedouble, t);
      case IsString => ok := PrintString(item.valuestring, t);
      case IsArray => ok := PrintArray(item, j.items, t);
      case IsObject => ok := PrintObject(item, j.members, t);
    }

    /** print_array. */
    method PrintArray(item: Node, ghost items: Items, ghost t: Text) returns (ok: bool)
      requires item.Holds(Array(items)) && Clear(item.own)
      requires Valid() && At(t) && !hooks.exhausted
      modifies this`buffer, this`length, this`offset, this`depth, this`copied, hooks, buffer
      ensures Printed(ok, t, Render(Array(items), format, old(depth)), old(Limit()))
      ensures ok ==> depth == old(depth)
      ensures noalloc ==> buffer == old(buffer) && hooks.exhausted == old(hooks.exhausted)
      ensures buffer == null || buffer == old(buffer) || fresh(buffer)
      decreases items, 3
    {
      hide Valid, At, Ended, Limit, RenderItems, PrintableItems, Node.Holds;
      ghost var whole := t + Render(Array(items), format, depth);
      ok := Append([LBRACKET], 1, t);
      if !ok {
        return false;
      }
      depth := depth + 1;
      ArrayText(items, format, depth - 1, t);
      ghost var u;
      ok, u := PrintElements(item, items, t + [LBRACKET], whole);
      if ok {
        ok := Close([RBRACKET], u, |t|);
      }
    }

    /** The loop of print_array. */
    method PrintElements(item: Node, ghost items: Items, ghost t: Text, ghost whole: Text) returns (ok: bool,
      ghost u: Text)
      requires item.Holds(Array(items)) && Clear(item.own)
      requires Valid() && At(t) && !hooks.exhausted
      requires t + (RenderItems(items, format, depth) + [RBRACKET]) == whole
      modifies this`buffer, this`length, this`offset, this`depth, this`copied, hooks, buffer
      ensures Valid() && Limit() == old(Limit())
      ensures !ok ==> |whole| + 2 > old(Limit()) || hooks.exhausted
      ensures ok ==> !hooks.exhausted && At(u) && depth == old(depth) && |u| >= |t| && u + [RBRACKET] == whole
      ensures noalloc ==> buffer == old(buffer) && hooks.exhausted == old(hooks.exhausted)
      ensures buffer == null || buffer == old(buffer) || fresh(buffer)
      decreases items, 2
    {
      hide Valid, At, Ended, Limit, RenderItems, PrintableItems, Node.Holds, ItemsOf;
      FirstItem(item, items);
      HoldsPrintable(item, Array(items));
      ghost var limit, d := Limit(), depth;
      var current := item.child;
      ghost var i: nat, rest := 0, items;
      u := t;
      while current != null
        invariant item.Holds(Array(items)) && Clear(item.own)
        invariant i <= |item.kids| == |ItemsOf(items)| && ItemsOf(items)[i..] == ItemsOf(rest)
        invariant current == if i < |item.kids| then item.kids[i] else null
        invariant !hooks.exhausted && Valid() && At(u) && Limit() == limit && depth == d
        invariant PrintableItems(rest) && |u| >= |t|
        invariant u + (RenderItems(rest, format, d) + [RBRACKET]) == whole
        invariant noalloc ==> buffer == old(buffer) && hooks.exhausted == old(hooks.exhausted)
        invariant buffer == null || buffer == old(buffer) || fresh(buffer)
        decreases rest
      {
        ItemAt(item, items, i, rest);
        ItemNext(item, items, i, rest);
        ok, u := PrintElement(current, rest, u, whole);
        if !ok {
          return;
        }
        current, i, rest := current.next, i + 1, rest.tail;
      }
      ItemAt(item, items, i, rest);
      ItemsDone(rest, format, d, u, whole);
      ok := true;
    }

    /** One turn of the loop in print_array: an element and, unless it is the last, a separator. */
    method PrintElement(element: Node, ghost items: Items, ghost u: Text, ghost whole: Text) returns (ok: bool,
      ghost v: Text)
      requires items.ICons? && PrintableItems(items) && element.Holds(items.head) && Clear(element.own)
      requires element.next == null <==> items.tail.INil?
      requires Valid() && At(u) && !hooks.exhausted
      requires u + (RenderItems(items, format, depth) + [RBRACKET]) == whole
      modifies this`buffer, this`length, this`offset, this`depth, this`copied, hooks, buffer
      ensures Valid() && Limit() == old(Limit())
      ensures !ok ==> |whole| + 2 > old(Limit()) || hooks.exhausted
      ensures ok ==> !hooks.exhausted && At(v) && depth == old(depth) && |v| > |u|
      ensures ok ==> PrintableItems(items.tail) && v + (RenderItems(items.tail, format, depth) + [RBRACKET]) == whole
      ensures noalloc ==> buffer == old(buffer) && hooks.exhausted == old(hooks.exhausted)
      ensures buffer == null || buffer == old(buffer) || fresh(buffer)
      decreases items, 1
    {
      hide Valid, At, Ended, Limit, Render, RenderItems, PrintableItems, Printable, CString, Node.Holds;
      v := u + Render(items.head, format, depth);
      ItemsSplit(items, format, depth, u, whole);
      ok := PrintValue(element, items.head, u);
      if !ok {
        return;
      }
      EndedFrom(v, |u|);
      RenderClean(items.head, format, depth, u, offset);
      UpdateOffset(v);
      if element.next != null {
        ok := Append(Separator(format), |Separator(format)| + 1, v);
        v := v + Separator(format);
      }
    }

    lemma EndedFrom(t: Text, from: nat)
      requires Ended(t, from)
      ensures from <= offset <= |t| && Ended(t, offset)
    {
    }

    /** Write the closing text and the terminator, without moving the offset; one level is left. */
    method Close(s: Text, ghost u: Text, ghost from: nat) returns (ok: bool)
      requires Valid() && At(u) && !hooks.exhausted && from <= |u| && s != [] && depth > 0
      modifies this`buffer, this`length, this`depth, this`copied, hooks, buffer
      ensures Valid() && Limit() == old(Limit())
      ensures ok <==> |u + s| + 2 <= old(Limit()) && !hooks.exhausted
      ensures ok ==> Ended(u + s, from) && depth == old(depth) - 1
      ensures noalloc ==> buffer == old(buffer) && hooks.exhausted == old(hooks.exhausted)
      ensures buffer == null || buffer == old(buffer) || fresh(buffer)
    {
      ok := Ensure(|s| + 1, u);
      if ok {
        Put(s + [NUL], u);
        Terminated(u, s);
        depth := depth - 1;
      }
    }

    static lemma ArrayText(items: Items, fmt: Format, depth: nat, t: Text)
      ensures (t + [LBRACKET]) + (RenderItems(items, fmt, depth + 1) + [RBRACKET]) == t + Render(Array(items), fmt,
        depth)
    {
    }

    /** The head of the elements still to be printed, and what is left behind it. */
    static lemma ItemsSplit(items: Items, fmt: Format, depth: nat, u: Text, whole: Text)
      requires items.ICons? && PrintableItems(items) && u + (RenderItems(items, fmt, depth) + [RBRACKET]) == whole
      ensures Printable(items.head) && PrintableItems(items.tail)
      ensures var v := u + Render(items.head, fmt, depth);
        && (items.tail.INil? ==> v + (RenderItems(items.tail, fmt, depth) + [RBRACKET]) == whole)
        && (items.tail.ICons? ==>
             && (v + Separator(fmt)) + (RenderItems(items.tail, fmt, depth) + [RBRACKET]) == whole
             && |v| + |Separator(fmt)| + 2 <= |whole|)
        && |v| + 1 <= |whole|
    {
      hide Render;
      if items.tail.ICons? {
        ItemsNonEmpty(items.tail, fmt, depth);
      }
    }

    static lemma ItemsNonEmpty(items: Items, fmt: Format, depth: nat)
      requires items.ICons?
      ensures |RenderItems(items, fmt, depth)| > 0
    {
      hide Render;
    }

    static lemma ItemsDone(items: Items, fmt: Format, depth: nat, u: Text, whole: Text)
      requires items.INil? && u + (RenderItems(items, fmt, depth) + [RBRACKET]) == whole
      ensures u + [RBRACKET] == whole
    {
    }

    /** Text rendered behind u has no zero byte from anywhere in it on. */
    static lemma RenderClean(j: Json, fmt: Format, depth: nat, u: Text, from: nat)
      requires Printable(j) && |u| <= from <= |u| + |Render(j, fmt, depth)|
      ensures CString((u + Render(j, fmt, depth))[from..])
    {
      hide Render;
      RenderCString(j, fmt, depth);
      assert (u + Render(j, fmt, depth))[from..] == Render(j, fmt, depth)[from - |u|..];
    }

    /** print_object. */
    method PrintObject(item: Node, ghost members: Members, ghost t: Text) returns (ok: bool)
      requires item.Holds(Object(members)) && Clear(item.own)
      requires Valid() && At(t) && !hooks.exhausted
      modifies this`buffer, this`length, this`offset, this`depth, this`copied, hooks, buffer
      ensures Printed(ok, t, Render(Object(members), format, old(depth)), old(Limit()))
      ensures ok ==> depth == old(depth)
      ensures noalloc ==> buffer == old(buffer) && hooks.exhausted == old(hooks.exhausted)
      ensures buffer == null || buffer == old(buffer) || fresh(buffer)
      decreases members, 3
    {
      hide Valid, At, Ended, Limit, RenderMembers, PrintableMembers, OpenBrace, CloseBrace, Node.Holds;
      ghost var whole := t + Render(Object(members), format, depth);
      ghost var close := CloseBrace(format, depth);
      ok := Append(OpenBrace(format), |OpenBrace(format)| + 1, t);
      ObjectText(members, format, depth, t);
      if !ok {
        return false;
      }
      depth := depth + 1;
      ghost var u;
      ok, u := PrintMembers(item, members, t + OpenBrace(format), close, whole);
      if ok {
        ok := Close(CloseBrace(format, depth - 1), u, |t|);
      }
    }

    /** The loop of print_object. */
    method PrintMembers(item: Node, ghost members: Members, ghost t: Text, ghost close: Text, ghost whole: Text)
      returns (ok: bool, ghost u: Text)
      requires item.Holds(Object(members)) && Clear(item.own)
      requires Valid() && At(t) && !hooks.exhausted && close != [] && depth > 0
      requires t + (RenderMembers(members, format, depth) + close) == whole
      modifies this`buffer, this`length, this`offset, this`depth, this`copied, hooks, buffer
      ensures Valid() && Limit() == old(Limit())
      ensures !ok ==> |whole| + 2 > old(Limit()) || hooks.exhausted
      ensures ok ==> !hooks.exhausted && At(u) && depth == old(depth) && |u| >= |t| && u + close == whole
      ensures noalloc ==> buffer == old(buffer) && hooks.exhausted == old(hooks.exhausted)
      ensures buffer == null || buffer == old(buffer) || fresh(buffer)
      decreases members, 2
    {
      hide Valid, At, Ended, Limit, RenderMembers, PrintableMembers, Node.Holds, MembersOf;
      FirstMember(item, members);
      HoldsPrintable(item, Object(members));
      ghost var limit, d := Limit(), depth;
      var current := item.child;
      ghost var i: nat, rest := 0, members;
      u := t;
      while current != null
        invariant item.Holds(Object(members)) && Clear(item.own)
        invariant i <= |item.kids| == |MembersOf(members)| && MembersOf(members)[i..] == MembersOf(rest)
        invariant current == if i < |item.kids| then item.kids[i] else null
        invariant !hooks.exhausted && Valid() && At(u) && Limit() == limit && depth == d
        invariant PrintableMembers(rest) && |u| >= |t|
        invariant u + (RenderMembers(rest, format, d) + close) == whole
        invariant noalloc ==> buffer == old(buffer) && hooks.exhausted == old(hooks.exhausted)
        invariant buffer == null || buffer == old(buffer) || fresh(buffer)
        decreases rest
      {
        MemberAt(item, members, i, rest);
        MemberNext(item, members, i, rest);
        ok, u := PrintMember(current, rest, u, close, whole);
        if !ok {
          return;
        }
        current, i, rest := current.next, i + 1, rest.rest;
      }
      MemberAt(item, members, i, rest);
      MembersDone(rest, format, d, u, close, whole);
      ok := true;
    }

    static lemma ObjectText(members: Members, fmt: Format, depth: nat, t: Text)
      ensures (t + OpenBrace(fmt)) + (RenderMembers(members, fmt, depth + 1) + CloseBrace(fmt, depth))
           == t + Render(Object(members), fmt, depth)
      ensures |t| + |OpenBrace(fmt)| + 1 <= |t + Render(Object(members), fmt, depth)|
      ensures |OpenBrace(fmt)| >= 1 && |CloseBrace(fmt, depth)| >= 1
    {
      hide RenderMembers;
    }

    static lemma MembersDone(members: Members, fmt: Format, depth: nat, u: Text, close: Text, whole: Text)
      requires members.MNil? && u + (RenderMembers(members, fmt, depth) + close) == whole
      ensures u + close == whole
    {
    }

    /** The text of a member list, from left to right, and how much of the whole each piece leaves. */
    static lemma MembersSplit(members: Members, fmt: Format, depth: nat, u: Text, close: Text, whole: Text)
      requires members.MCons? && PrintableMembers(members) && close != []
      requires u + (RenderMembers(members, fmt, depth) + close) == whole
      ensures CString(members.key) && Printable(members.value) && PrintableMembers(members.rest)
      ensures var u1 := u + When(fmt.pretty, Tabs(depth)); var u2 := u1 + Quote(members.key); var u3 := u2 + Colon(fmt);
        var u4 := u3 + Render(members.value, fmt, depth); var u5 := u4 + Comma(members.rest.MCons?, fmt);
        && u5 + (RenderMembers(members.rest, fmt, depth) + close) == whole
        && |u| < |u1| + 2 <= |u2| && |u2| < |u3| < |u4| <= |u5| < |whole|
    {
      hide Render, Quote, Tabs, Comma, When;
      var a, b, c := When(fmt.pretty, Tabs(depth)), Quote(members.key), Colon(fmt);
      var d, e := Render(members.value, fmt, depth), Comma(members.rest.MCons?, fmt);
      var r := RenderMembers(members.rest, fmt, depth);
      Regroup3(u, a, b);
      Regroup3(u, a + b, c);
      Regroup3(u, a + b + c, d);
      Regroup3(u, a + b + c + d, e);
      Regroup3(u, a + b + c + d + e, r);
      Regroup3(u, a + b + c + d + e + r, close);
      Regroup3(((((u + a) + b) + c) + d) + e, r, close);
      assert |c| >= 1;
    }

    static lemma QuoteClean(k: Text, u: Text, from: nat)
      requires CString(k) && |u| <= from <= |u| + |Quote(k)|
      ensures CString((u + Quote(k))[from..])
    {
      hide Quote;
      QuoteCString(k);
      assert (u + Quote(k))[from..] == Quote(k)[from - |u|..];
    }

    /** The first half of a turn in print_object: indentation, the name and its colon. */
    method PrintName(name: array<byte>, ghost key: Text, ghost u: Text) returns (ok: bool, ghost v: Text)
      requires CJson.Ended(name) && UpToNul(name[..]) == key && (buffer == null || buffer != name) && depth > 0
      requires Valid() && At(u) && !hooks.exhausted
      modifies this`buffer, this`length, this`offset, this`copied, hooks, buffer
      ensures Valid() && Limit() == old(Limit())
      ensures v == u + When(format.pretty, Tabs(depth)) + Quote(key) + Colon(format)
      ensures !ok ==> |v| + 1 > old(Limit()) || hooks.exhausted
      ensures ok ==> !hooks.exhausted && At(v)
      ensures noalloc ==> buffer == old(buffer) && hooks.exhausted == old(hooks.exhausted)
      ensures buffer == null || buffer == old(buffer) || fresh(buffer)
    {
      hide Valid, At, Ended, Limit, CString, Quote, UpToNul, CJson.Ended;
      ghost var u1 := u + When(format.pretty, Tabs(depth));
      v := u1 + Quote(key) + Colon(format);
      ok := true;
      if format.pretty {
        ok := Append(Tabs(depth), depth, u);
        if !ok {
          return;
        }
      }
      assert !format.pretty ==> u1 == u;
      ok := PrintString(name, u1);
      if !ok {
        return;
      }
      EndedFrom(u1 + Quote(key), |u1|);
      QuoteClean(key, u1, offset);
      UpdateOffset(u1 + Quote(key));
      ok := Append(Colon(format), |Colon(format)|, u1 + Quote(key));
    }

    /** One turn of the loop in print_object. */
    method PrintMember(member: Node, ghost members: Members, ghost u: Text, ghost close: Text,
      ghost whole: Text) returns (ok: bool, ghost v: Text)
      requires members.MCons? && PrintableMembers(members) && close != [] && depth > 0
      requires member.HoldsMember(members.key, members.value) && Clear(member.own)
      requires member.next == null <==> members.rest.MNil?
      requires Valid() && At(u) && !hooks.exhausted
      requires u + (RenderMembers(members, format, depth) + close) == whole
      modifies this`buffer, this`length, this`offset, this`depth, this`copied, hooks, buffer
      ensures Valid() && Limit() == old(Limit())
      ensures !ok ==> |whole| + 2 > old(Limit()) || hooks.exhausted
      ensures ok ==> !hooks.exhausted && At(v) && depth == old(depth) && |v| > |u|
      ensures ok ==> PrintableMembers(members.rest) && v + (RenderMembers(members.rest, format, depth) + close) == whole
      ensures noalloc ==> buffer == old(buffer) && hooks.exhausted == old(hooks.exhausted)
      ensures buffer == null || buffer == old(buffer) || fresh(buffer)
      decreases members, 1
    {
      hide Valid, At, Ended, Limit, Render, RenderMembers, PrintableMembers, Printable, CString, Quote, Comma,
        Node.Holds;
      MembersSplit(members, format, depth, u, close, whole);
      NameOwned(member, members.key, members.value);
      ok, v := PrintName(member.name, members.key, u);
      if !ok {
        return;
      }
      ok := PrintValue(member, members.value, v);
      if !ok {
        return;
      }
      EndedFrom(v + Render(members.value, format, depth), |v|);
      RenderClean(members.value, format, depth, v, offset);
      v := v + Render(members.value, format, depth);
      UpdateOffset(v);
      var comma := Comma(member.next != null, format);
      ok := Append(comma, |comma| + 1, v);
      v := v + comma;
    }
  }

  /** Nodes hold C strings. */
  lemma {:induction false} HoldsPrintable(item: Node, j: Json)
    requires item.Holds(j)
    ensures Printable(j)
    decreases j, 1
  {
    match j
    case Array(items) =>
      FirstItem(item, items);
      AllPrintable(item.kids, items);
    case Object(members) =>
      FirstMember(item, members);
      MembersPrintable(item.kids, members);
    case _ =>
  }

  lemma {:induction false} AllPrintable(nodes: seq<Node>, items: Items)
    requires HoldsAll(nodes, ItemsOf(items))
    ensures PrintableItems(items)
    decreases items, 0
  {
    hide Node.Holds, Printable;
    if items.ICons? {
      assert nodes[0].Holds(items.head);
      HoldsPrintable(nodes[0], items.head);
      assert ItemsOf(items)[1..] == ItemsOf(items.tail);
      AllPrintable(nodes[1..], items.tail);
    }
  }

  lemma {:induction false} MembersPrintable(nodes: seq<Node>, members: Members)
    requires HoldsMembers(nodes, MembersOf(members))
    ensures PrintableMembers(members)
    decreases members, 0
  {
    hide Node.Holds, Printable;
    if members.MCons? {
      assert nodes[0].HoldsMember(members.key, members.value);
      HoldsPrintable(nodes[0], members.value);
      assert MembersOf(members)[1..] == MembersOf(members.rest);
      MembersPrintable(nodes[1..], members.rest);
    }
  }

  // ---------------------------------------------------------------- entry points

  /** print, behind cJSON_Print and cJSON_PrintUnformatted. */
  method Print(item: Node, ghost j: Json, format: Format, hooks: Hooks) returns (printed: array?<byte>)
    requires item.Holds(j) && hooks !in item.own
    modifies hooks
    ensures printed != null <==> |Render(j, format, 0)| + 2 <= INT_MAX && !hooks.exhausted
    ensures printed != null ==> fresh(printed) && printed[..] == Render(j, format, 0) + [NUL]
    ensures hooks.live == old(hooks.live) + if printed == null then {} else {printed}
  {
    hide Render, Printable, Node.Holds;
    ghost var before := hooks.live;
    hooks.exhausted := false;
    printed := null;
    var block := hooks.Allocate(256);
    if block == null {
      return;
    }
    var p := new PrintBuffer(block, 256, false, format, hooks);
    var ok := p.PrintValue(item, j, []);
    assert p.others == before;
    if !ok {
      if p.buffer != null {
        hooks.Deallocate(p.buffer);
      }
      return;
    }
    ghost var r := Render(j, format, 0);
    assert [] + r == r;
    HoldsPrintable(item, j);
    RenderCString(j, format, 0);
    printed := Trim(p, r);
  }

  /** The end of print: cut the text out of the buffer. */
  method Trim(p: PrintBuffer, ghost r: Text) returns (printed: array?<byte>)
    requires p.Valid() && p.Ended(r, p.offset) && CString(r) && !p.noalloc && !p.hooks.exhausted
    modifies p, p.hooks
    ensures printed != null <==> !p.hooks.exhausted
    ensures printed != null ==> fresh(printed) && printed[..] == r + [NUL]
    ensures p.hooks.live == p.others + if printed == null then {} else {printed}
  {
    p.UpdateOffset(r);
    var hooks, size := p.hooks, p.offset + 1;
    ghost var text := r + [NUL];
    assert forall i :: 0 <= i < size ==> p.buffer[i] == text[i];
    if hooks.canReallocate {
      printed := hooks.Reallocate(p.buffer, size);
      if printed == null {
        hooks.Deallocate(p.buffer);
        return;
      }
    } else {
      printed := hooks.Allocate(size);
      if printed == null {
        hooks.Deallocate(p.buffer);
        return;
      }
      CopyBytes(printed, p.buffer, Min(p.length, size));
      printed[p.offset] := NUL;
      hooks.Deallocate(p.buffer);
    }
    assert printed[..] == text;
  }

  /** cJSON_PrintBuffered: the text stays in the buffer it was printed into. */
  method PrintBuffered(item: Node, ghost j: Json, prebuffer: int, format: Format,
    hooks: Hooks) returns (printed: array?<byte>)
    requires item.Holds(j) && hooks !in item.own
    requires prebuffer <= INT_MAX && (prebuffer == 0 ==> hooks.canReallocate)
    modifies hooks
    ensures printed != null <==> 0 <= prebuffer && |Render(j, format, 0)| + 2 <= INT_MAX && !hooks.exhausted
    ensures printed != null ==> fresh(printed) && Render(j, format, 0) + [NUL] <= printed[..]
    ensures hooks.live == old(hooks.live) + if printed == null then {} else {printed}
  {
    hide Render, Printable, Node.Holds;
    hooks.exhausted := false;
    if prebuffer < 0 {
      return null;
    }
    ghost var before := hooks.live;
    var block := hooks.Allocate(prebuffer);
    if block == null {
      return null;
    }
    var p := new PrintBuffer(block, prebuffer, false, format, hooks);
    var ok := p.PrintValue(item, j, []);
    assert p.others == before;
    if !ok {
      if p.buffer != null {
        hooks.Deallocate(p.buffer);
      }
      return null;
    }
    assert [] + Render(j, format, 0) == Render(j, format, 0);
    EndedIsPrefix(p.buffer, Render(j, format, 0));
    return p.buffer;
  }

  lemma EndedIsPrefix(a: array<byte>, r: Text)
    requires |r| < a.Length && a[..|r|] == r && a[|r|] == NUL
    ensures r + [NUL] <= a[..]
  {
    assert a[..|r| + 1] == r + [NUL];
  }

  /**
   cJSON_PrintPreallocated succeeds exactly when two bytes more than the text are given, so with
   the five that its documentation asks for it always does.
   */
  method PrintPreallocated(item: Node, ghost j: Json, buf: array<byte>, len: int, format: Format,
    hooks: Hooks) returns (ok: bool)
    requires item.Holds(j) && hooks !in item.own
    requires len <= buf.Length && len <= INT_MAX && buf !in item.own
    modifies hooks, buf
    ensures ok <==> |Render(j, format, 0)| + 2 <= len
    ensures ok ==> Render(j, format, 0) + [NUL] <= buf[..]
    ensures hooks.live == old(hooks.live)
  {
    hide Render, Printable, Node.Holds;
    hooks.exhausted := false;
    if len < 0 {
      return false;
    }
    var p := new PrintBuffer(buf, len, true, format, hooks);
    ok := p.PrintValue(item, j, []);
    if ok {
      assert [] + Render(j, format, 0) == Render(j, format, 0);
      EndedIsPrefix(buf, Render(j, format, 0));
    }
  }
}
