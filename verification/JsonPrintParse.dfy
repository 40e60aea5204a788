/** The printer, the parser and the allocation hooks of jsonRead/cJSON.c together. */
module JsonPrintParse {
  import opened Json
  import opened Memory
  import CJson
  import JsonNumber
  import JsonParse
  import JsonParser
  import JsonPrint
  import JsonRoundTrip
  import JsonText

  /**
   A printed tree, parsed again: the new nodes stand for the same tree with its numbers reread, nothing
   else stays allocated, and it fails only when memory runs out, the tree is nested too deeply or its
   text is too long.
   */
  method PrintThenParse(item: CJson.Node, ghost j: Json, format: JsonText.Format, hooks: Hooks)
    returns (copy: CJson.Node?)
    requires item.Holds(j) && hooks !in item.own && hooks !in hooks.live
    modifies hooks
    ensures copy == null ==>
      && hooks.live == old(hooks.live)
      && (hooks.exhausted || Nesting(j) > NESTING_LIMIT || |JsonText.Render(j, format, 0)| + 2 > JsonNumber.INT_MAX)
    ensures copy != null ==>
      && copy.Holds(JsonRoundTrip.Reread(j, format)) && item.Holds(j) && Nesting(j) <= NESTING_LIMIT
      && (JsonRoundTrip.PlainNumbers(j) ==> copy.Holds(j))
      && fresh(CJson.Foot(copy)) && hooks.live == old(hooks.live) + CJson.Foot(copy)
  {
    hide JsonText.Printable, JsonText.Render, JsonParse.Parse, CJson.Node.Holds, CJson.Node.Valid, JsonRoundTrip.Reread;
    hide JsonRoundTrip.PlainNumbers, JsonRoundTrip.Faithful;
    ghost var r := JsonText.Render(j, format, 0);
    JsonPrint.HoldsPrintable(item, j);
    JsonText.RenderCString(j, format, 0);
    JsonRoundTrip.RoundTrip(j, format, true);
    JsonRoundTrip.FaithfulReread(j, format);
    if JsonRoundTrip.PlainNumbers(j) {
      JsonRoundTrip.PlainIsFaithful(j, format);
    }
    var printed := JsonPrint.Print(item, j, format, hooks);
    if printed == null {
      return null;
    }
    var text := printed[..printed.Length - 1];
    assert text == r;
    hooks.Deallocate(printed);
    var end;
    copy, end := JsonParser.ParseWithOpts(text, true, hooks);
  }
}
