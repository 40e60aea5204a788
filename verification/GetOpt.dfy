/**
 The getopt of getopt4windows/getopt.c: one object holds the globals and the static cursor, and
 its calls are proved to deliver, one by one, what a recursive parse of the argument list says.
 */
module GetOpt {
  import opened Bytes

  /** What the option string says about a character. */
  datatype Kind = Illegal | Plain | TakesArgument

  /** strchr: the first position of c, or the length when there is none. */
  function Find(opts: string, c: char): (i: nat)
    ensures i <= |opts|
    ensures i < |opts| ==> opts[i] == c
    ensures forall j :: 0 <= j < i ==> opts[j] != c
  {
    if opts == [] || opts[0] == c then 0 else 1 + Find(opts[1..], c)
  }

  function KindOf(opts: string, c: char): Kind {
    var i := Find(opts, c);
    if c == ':' || i == |opts| then Illegal
    else if i + 1 < |opts| && opts[i + 1] == ':' then TakesArgument
    else Plain
  }

  /** Position i holds the first occurrence of c. */
  predicate FirstAt(opts: string, c: char, i: nat) {
    i < |opts| && opts[i] == c && c !in opts[..i]
  }

  /** A letter is illegal if it is a colon or not in the option string. */
  predicate IsIllegal(opts: string, c: char) {
    c == ':' || c !in opts
  }

  /** An option takes an argument if a colon stands right behind its first occurrence. */
  predicate Takes(opts: string, c: char) {
    c != ':' && exists i :: 0 <= i < |opts| - 1 && FirstAt(opts, c, i) && opts[i + 1] == ':'
  }

  lemma NotBefore(opts: string, c: char, i: nat, k: nat)
    requires i < k <= |opts| && c !in opts[..k]
    ensures opts[i] != c
  {
    assert opts[..k][i] == opts[i];
  }

  lemma OneFirst(opts: string, c: char, i: nat)
    requires FirstAt(opts, c, i)
    ensures forall k: nat :: FirstAt(opts, c, k) ==> k == i
  {
    forall k: nat | FirstAt(opts, c, k)
      ensures k == i
    {
      if k < i {
        NotBefore(opts, c, k, i);
      } else if i < k {
        NotBefore(opts, c, i, k);
      }
    }
  }

  /** Three kinds, by what stands in the option string. */
  lemma KindIs(opts: string, c: char)
    ensures KindOf(opts, c) == Illegal <==> IsIllegal(opts, c)
    ensures KindOf(opts, c) == TakesArgument <==> Takes(opts, c)
  {
    var i := Find(opts, c);
    if i < |opts| {
      assert FirstAt(opts, c, i);
      OneFirst(opts, c, i);
    }
  }

  /** In a written option string: behind its first occurrence, a colon or not. */
  lemma KindWritten(a: string, c: char, b: string)
    requires c !in a && c != ':'
    ensures Takes(a + [c] + b, c) <==> b != "" && b[0] == ':'
    ensures !IsIllegal(a + [c] + b, c)
  {
    var opts := a + [c] + b;
    assert opts[..|a|] == a && opts[|a|] == c;
    assert FirstAt(opts, c, |a|);
    OneFirst(opts, c, |a|);
  }

  /** What a caller sees after a call: the character returned, optopt and optarg. */
  datatype Seen = Seen(ret: char, optopt: char, optarg: Option<string>)

  // ---------------------------------------------------------------- the reference parse

  /** All that the calls up to EOF deliver, and the words left over as operands. */
  datatype Parse = Parse(seen: seq<Seen>, operands: seq<string>) {
    function After(before: seq<Seen>): Parse {
      Parse(before + seen, operands)
    }
  }

  predicate IsOptionWord(w: string) {
    |w| > 1 && w[0] == '-'
  }

  /** optarg is the value a failing call leaves in place. */
  function ParseWords(words: seq<string>, opts: string, optarg: Option<string>): Parse
    decreases |words|, 0
  {
    if words == [] || !IsOptionWord(words[0]) then Parse([], words)
    else if words[0] == "--" then Parse([], words[1..])
    else ParseGroup(words[0][1..], words[1..], opts, optarg)
  }

  /** The rest of a group of options, with the words after it. */
  function ParseGroup(group: string, words: seq<string>, opts: string, optarg: Option<string>): Parse
    requires group != []
    decreases |words|, |group|
  {
    var c := group[0];
    match KindOf(opts, c)
    case Illegal => ParseMore(group, words, opts, optarg).After([Seen('?', c, optarg)])
    case Plain => ParseMore(group, words, opts, None).After([Seen(c, c, None)])
    case TakesArgument =>
      if |group| > 1 then
        ParseWords(words, opts, Some(group[1..])).After([Seen(c, c, Some(group[1..]))])
      else if words == [] then
        Parse([Seen('?', c, optarg)], [])
      else
        ParseWords(words[1..], opts, Some(words[0])).After([Seen(c, c, Some(words[0]))])
  }

  function ParseMore(group: string, words: seq<string>, opts: string, optarg: Option<string>): Parse
    requires group != []
    decreases |words|, |group|, 0
  {
    if |group| > 1 then ParseGroup(group[1..], words, opts, optarg) else ParseWords(words, opts, optarg)
  }

  // ---------------------------------------------------------------- the stateful routine

  class Scanner {
    const argv: seq<string>
    const opts: string
    var optind: nat
    var sp: nat
    var optopt: char
    var optarg: Option<string>

    ghost predicate Valid()
      reads this`optind, this`sp
    {
      && optind <= |argv|
      && 1 <= sp
      && (sp > 1 ==> optind < |argv| && sp < |argv[optind]|)
    }

    /** What is still to be delivered from this position, were optarg to hold the given value. */
    ghost function From(optarg: Option<string>): Parse
      requires Valid()
      reads this`optind, this`sp
    {
      if sp == 1 then ParseWords(argv[optind..], opts, optarg)
      else ParseGroup(argv[optind][sp..], argv[optind + 1..], opts, optarg)
    }

    ghost function Remaining(): Parse
      requires Valid()
      reads this
    {
      From(optarg)
    }

    /** The program name is argv[0]; scanning starts behind it. */
    constructor (argv: seq<string>, opts: string)
      requires |argv| >= 1
      ensures Valid()
      ensures this.argv == argv && this.opts == opts
      ensures Remaining() == ParseWords(argv[1..], opts, None)
    {
      this.argv, this.opts := argv, opts;
      optind, sp, optopt, optarg := 1, 1, '?', None;
    }

    /** One call. None is EOF. */
    method Next() returns (r: Option<char>)
      requires Valid()
      modifies this
      ensures Valid()
      ensures r.None? ==> sp == 1 && old(Remaining()) == Parse([], argv[optind..])
      ensures r.Some? ==> old(Remaining()) == Remaining().After([Seen(r.value, optopt, optarg)])
      ensures optind > old(optind) || (optind == old(optind) && (r.None? || sp > old(sp)))
    {
      if sp == 1 {
        if optind >= |argv| || !(argv[optind] != [] && argv[optind][0] == '-') || |argv[optind]| == 1 {
          return None;
        } else if argv[optind] == "--" {
          optind := optind + 1;
          return None;
        }
      }
      ghost var group, words := argv[optind][sp..], argv[optind + 1..];
      assert old(Remaining()) == ParseGroup(group, words, opts, optarg);
      var c := argv[optind][sp];
      optopt := c;
      var cp := Find(opts, c);
      if c == ':' || cp == |opts| {
        Advance();
        return Some('?');
      }
      cp := cp + 1;
      if cp < |opts| && opts[cp] == ':' {
        var found := TakeArgument();
        return Some(if found then c else '?');
      } else {
        Advance();
        optarg := None;
        return Some(c);
      }
    }

    /** Step over one character of a group, and to the next word at its end. */
    method Advance()
      requires Valid() && optind < |argv| && sp < |argv[optind]|
      modifies this`sp, this`optind
      ensures Valid()
      ensures forall arg :: From(arg) == ParseMore(argv[old(optind)][old(sp)..], argv[old(optind) + 1..], opts, arg)
      ensures optind > old(optind) || (optind == old(optind) && sp > old(sp))
    {
      assert argv[optind][sp..][1..] == argv[optind][sp + 1..];
      sp := sp + 1;
      if sp == |argv[optind]| {
        optind := optind + 1;
        sp := 1;
      }
    }

    /** The argument is the rest of the word or the next word, if there is one. */
    method TakeArgument() returns (found: bool)
      requires Valid() && optind < |argv| && sp < |argv[optind]|
      modifies this`sp, this`optind, this`optarg
      ensures Valid() && sp == 1 && optind > old(optind)
      ensures var group, words := argv[old(optind)][old(sp)..], argv[old(optind) + 1..];
        if |group| > 1 then found && optarg == Some(group[1..]) && argv[optind..] == words
        else if words == [] then !found && optarg == old(optarg) && argv[optind..] == []
        else found && optarg == Some(words[0]) && argv[optind..] == words[1..]
    {
      if sp + 1 < |argv[optind]| {
        optarg := Some(argv[optind][sp + 1..]);
        optind := optind + 1;
      } else {
        optind := optind + 1;
        if optind >= |argv| {
          sp := 1;
          return false;
        }
        optarg := Some(argv[optind]);
        optind := optind + 1;
      }
      sp := 1;
      return true;
    }

    /** Calls until EOF deliver the reference parse and stop at the first operand. */
    method Run() returns (seen: seq<Seen>)
      requires Valid()
      modifies this
      ensures Valid() && sp == 1
      ensures old(Remaining()) == Parse(seen, argv[optind..])
    {
      seen := [];
      var r := Next();
      while r.Some?
        invariant Valid()
        invariant r.Some? ==> old(Remaining()) == Remaining().After(seen + [Seen(r.value, optopt, optarg)])
        invariant r.None? ==> sp == 1 && old(Remaining()) == Parse(seen, argv[optind..])
        decreases r.Some?, |argv| - optind, if optind < |argv| then |argv[optind]| - sp else 0
      {
        seen := seen + [Seen(r.value, optopt, optarg)];
        label before:
        r := Next();
        if r.Some? {
          AfterTwice(Remaining(), seen, [Seen(r.value, optopt, optarg)]);
        }
      }
    }
  }

  // ---------------------------------------------------------------- writing option lists

  /** One word or two: letters without arguments, legal or not, perhaps ended by an option with its argument. */
  datatype Group =
    | Flags(flags: string)
    | Attached(flags: string, option: char, argument: string)
    | Separate(flags: string, option: char, argument: string)

  /** What ends the options: "--", an operand, or an option whose argument is missing. */
  datatype Ending = DashDash(operands: seq<string>) | Bare(operands: seq<string>) | Missing(flags: string, option: char)

  predicate FlagsOk(flags: string, opts: string) {
    forall c :: c in flags ==> !Takes(opts, c)
  }

  predicate GroupOk(g: Group, opts: string) {
    && FlagsOk(g.flags, opts)
    && match g
       case Flags(flags) => flags != "" && flags != "-"
       case Attached(flags, c, argument) => Takes(opts, c) && argument != ""
       case Separate(flags, c, argument) => Takes(opts, c) && flags + [c] != "-"
  }

  predicate EndingOk(e: Ending, opts: string) {
    match e
    case DashDash(_) => true
    case Bare(operands) => operands != [] ==> !IsOptionWord(operands[0])
    case Missing(flags, c) => FlagsOk(flags, opts) && Takes(opts, c) && flags + [c] != "-"
  }

  function WriteGroup(g: Group): seq<string> {
    match g
    case Flags(flags) => ["-" + flags]
    case Attached(flags, c, argument) => ["-" + flags + [c] + argument]
    case Separate(flags, c, argument) => ["-" + flags + [c], argument]
  }

  function WriteEnding(e: Ending): seq<string> {
    match e
    case DashDash(operands) => ["--"] + operands
    case Bare(operands) => operands
    case Missing(flags, c) => ["-" + flags + [c]]
  }

  function Write(groups: seq<Group>, e: Ending): seq<string> {
    if groups == [] then WriteEnding(e) else WriteGroup(groups[0]) + Write(groups[1..], e)
  }

  function Operands(e: Ending): seq<string> {
    if e.Missing? then [] else e.operands
  }

  /** The calls a list of letters stands for: an illegal one gives '?' and leaves optarg alone, any other clears it. */
  function FlagsSeen(flags: string, opts: string, optarg: Option<string>): seq<Seen> {
    if flags == [] then []
    else
      var left := FlagLeaves(flags[0], opts, optarg);
      [Seen(if IsIllegal(opts, flags[0]) then '?' else flags[0], flags[0], left)] + FlagsSeen(flags[1..], opts, left)
  }

  function FlagLeaves(flag: char, opts: string, optarg: Option<string>): Option<string> {
    if IsIllegal(opts, flag) then optarg else None
  }

  function FlagsLeave(flags: string, opts: string, optarg: Option<string>): Option<string> {
    if flags == [] then optarg else FlagsLeave(flags[1..], opts, FlagLeaves(flags[0], opts, optarg))
  }

  function GroupSeen(g: Group, opts: string, optarg: Option<string>): seq<Seen> {
    FlagsSeen(g.flags, opts, optarg) + if g.Flags? then [] else [Seen(g.option, g.option, Some(g.argument))]
  }

  function GroupLeaves(g: Group, opts: string, optarg: Option<string>): Option<string> {
    if g.Flags? then FlagsLeave(g.flags, opts, optarg) else Some(g.argument)
  }

  /** A missing argument gives '?' for its option and leaves optarg alone. */
  function EndingSeen(e: Ending, opts: string, optarg: Option<string>): seq<Seen> {
    if e.Missing? then FlagsSeen(e.flags, opts, optarg) + [Seen('?', e.option, FlagsLeave(e.flags, opts, optarg))] else []
  }

  function AllSeen(groups: seq<Group>, e: Ending, opts: string, optarg: Option<string>): seq<Seen> {
    if groups == [] then EndingSeen(e, opts, optarg)
    else GroupSeen(groups[0], opts, optarg) + AllSeen(groups[1..], e, opts, GroupLeaves(groups[0], opts, optarg))
  }

  lemma AfterTwice(p: Parse, a: seq<Seen>, b: seq<Seen>)
    ensures p.After(b).After(a) == p.After(a + b)
  {
    assert a + (b + p.seen) == a + b + p.seen;
  }

  /** One letter without an argument at the head of a group. */
  lemma ParseFlag(group: string, words: seq<string>, opts: string, optarg: Option<string>)
    requires group != [] && !Takes(opts, group[0])
    ensures var left := FlagLeaves(group[0], opts, optarg);
      ParseGroup(group, words, opts, optarg)
      == ParseMore(group, words, opts, left).After(
           [Seen(if IsIllegal(opts, group[0]) then '?' else group[0], group[0], left)])
  {
    hide KindOf, ParseMore, Takes, IsIllegal;
    KindIs(opts, group[0]);
  }

  /** Letters without arguments at the head of a group are delivered one by one. */
  lemma {:induction false} ParseFlags(flags: string, group: string, words: seq<string>, opts: string,
    optarg: Option<string>)
    requires FlagsOk(flags, opts) && group != []
    ensures ParseGroup(flags + group, words, opts, optarg)
         == ParseGroup(group, words, opts, FlagsLeave(flags, opts, optarg)).After(FlagsSeen(flags, opts, optarg))
    decreases |flags|
  {
    hide KindOf, Takes, IsIllegal, ParseGroup, FlagLeaves;
    if flags == [] {
      assert flags + group == group;
      AfterNone(ParseGroup(group, words, opts, optarg));
    } else {
      assert (flags + group)[1..] == flags[1..] + group && (flags + group)[0] == flags[0];
      ParseFlag(flags + group, words, opts, optarg);
      var left := FlagLeaves(flags[0], opts, optarg);
      ParseFlags(flags[1..], group, words, opts, left);
      AfterTwice(ParseGroup(group, words, opts, FlagsLeave(flags, opts, optarg)),
        [Seen(if IsIllegal(opts, flags[0]) then '?' else flags[0], flags[0], left)], FlagsSeen(flags[1..], opts, left));
    }
  }

  lemma AfterNone(p: Parse)
    ensures p.After([]) == p
  {
    assert [] + p.seen == p.seen;
  }

  /** A word of nothing but such letters. */
  lemma ParseAllFlags(flags: string, words: seq<string>, opts: string, optarg: Option<string>)
    requires FlagsOk(flags, opts) && flags != []
    ensures ParseGroup(flags, words, opts, optarg)
         == ParseWords(words, opts, FlagsLeave(flags, opts, optarg)).After(FlagsSeen(flags, opts, optarg))
  {
    hide KindOf, Takes, IsIllegal, ParseGroup, ParseWords, FlagLeaves;
    var init, last := flags[..|flags| - 1], flags[|flags| - 1];
    assert flags == init + [last];
    ParseFlags(init, [last], words, opts, optarg);
    var between := FlagsLeave(init, opts, optarg);
    ParseFlag([last], words, opts, between);
    FlagsConcat(init, last, opts, optarg);
    var left := FlagLeaves(last, opts, between);
    AfterTwice(ParseWords(words, opts, left), FlagsSeen(init, opts, optarg),
      [Seen(if IsIllegal(opts, last) then '?' else last, last, left)]);
  }

  lemma {:induction false} FlagsConcat(a: string, c: char, opts: string, optarg: Option<string>)
    ensures var between := FlagsLeave(a, opts, optarg); var left := FlagLeaves(c, opts, between);
      && FlagsLeave(a + [c], opts, optarg) == left
      && FlagsSeen(a + [c], opts, optarg)
         == FlagsSeen(a, opts, optarg) + [Seen(if IsIllegal(opts, c) then '?' else c, c, left)]
    decreases |a|
  {
    hide IsIllegal, FlagLeaves;
    if a == [] {
      assert a + [c] == [c] && [c][1..] == [];
      assert FlagsSeen([c], opts, optarg)
          == [Seen(if IsIllegal(opts, c) then '?' else c, c, FlagLeaves(c, opts, optarg))] + FlagsSeen([], opts, optarg);
    } else {
      assert (a + [c])[1..] == a[1..] + [c];
      FlagsConcat(a[1..], c, opts, FlagLeaves(a[0], opts, optarg));
    }
  }

  /** The words of one group deliver exactly that group. */
  lemma ParseWritten(g: Group, words: seq<string>, opts: string, optarg: Option<string>)
    requires GroupOk(g, opts)
    ensures ParseWords(WriteGroup(g) + words, opts, optarg)
         == ParseWords(words, opts, GroupLeaves(g, opts, optarg)).After(GroupSeen(g, opts, optarg))
  {
    match g {
      case Flags(flags) => FlagsWritten(flags, words, opts, optarg);
      case Attached(flags, c, argument) => AttachedWritten(flags, c, argument, words, opts, optarg);
      case Separate(flags, c, argument) => SeparateWritten(flags, c, argument, words, opts, optarg);
    }
  }

  lemma OptionWord(group: string, rest: seq<string>, opts: string, optarg: Option<string>)
    requires group != "" && group != "-"
    ensures ParseWords(["-" + group] + rest, opts, optarg) == ParseGroup(group, rest, opts, optarg)
  {
    var words := ["-" + group] + rest;
    assert words[0][1..] == group && words[1..] == rest;
    assert "--"[1..] == "-";
  }

  lemma FlagsWritten(flags: string, words: seq<string>, opts: string, optarg: Option<string>)
    requires GroupOk(Flags(flags), opts)
    ensures ParseWords(WriteGroup(Flags(flags)) + words, opts, optarg)
         == ParseWords(words, opts, FlagsLeave(flags, opts, optarg)).After(GroupSeen(Flags(flags), opts, optarg))
  {
    hide KindOf, Takes, ParseGroup, ParseWords, FlagsSeen, FlagsLeave;
    OptionWord(flags, words, opts, optarg);
    ParseAllFlags(flags, words, opts, optarg);
    assert FlagsSeen(flags, opts, optarg) + [] == FlagsSeen(flags, opts, optarg);
  }

  lemma AttachedWritten(flags: string, c: char, argument: string, words: seq<string>, opts: string,
    optarg: Option<string>)
    requires GroupOk(Attached(flags, c, argument), opts)
    ensures ParseWords(WriteGroup(Attached(flags, c, argument)) + words, opts, optarg)
         == ParseWords(words, opts, Some(argument)).After(GroupSeen(Attached(flags, c, argument), opts, optarg))
  {
    hide KindOf, Takes, ParseGroup, ParseWords, FlagsSeen, FlagsLeave;
    assert "-" + flags + [c] + argument == "-" + (flags + ([c] + argument));
    OptionWord(flags + ([c] + argument), words, opts, optarg);
    ParseFlags(flags, [c] + argument, words, opts, optarg);
    ParseAttached(c, argument, words, opts, FlagsLeave(flags, opts, optarg));
    AfterTwice(ParseWords(words, opts, Some(argument)), FlagsSeen(flags, opts, optarg), [Seen(c, c, Some(argument))]);
  }

  lemma SeparateWritten(flags: string, c: char, argument: string, words: seq<string>, opts: string,
    optarg: Option<string>)
    requires GroupOk(Separate(flags, c, argument), opts)
    ensures ParseWords(WriteGroup(Separate(flags, c, argument)) + words, opts, optarg)
         == ParseWords(words, opts, Some(argument)).After(GroupSeen(Separate(flags, c, argument), opts, optarg))
  {
    hide KindOf, Takes, ParseGroup, ParseWords, FlagsSeen, FlagsLeave;
    assert "-" + flags + [c] == "-" + (flags + [c]);
    assert ["-" + (flags + [c]), argument] + words == ["-" + (flags + [c])] + ([argument] + words);
    OptionWord(flags + [c], [argument] + words, opts, optarg);
    ParseFlags(flags, [c], [argument] + words, opts, optarg);
    ParseSeparate(c, argument, words, opts, FlagsLeave(flags, opts, optarg));
    AfterTwice(ParseWords(words, opts, Some(argument)), FlagsSeen(flags, opts, optarg), [Seen(c, c, Some(argument))]);
  }

  /** An option in the last word whose argument is missing. */
  lemma MissingWritten(flags: string, c: char, opts: string, optarg: Option<string>)
    requires EndingOk(Missing(flags, c), opts)
    ensures ParseWords(WriteEnding(Missing(flags, c)), opts, optarg)
         == Parse(EndingSeen(Missing(flags, c), opts, optarg), [])
  {
    hide KindOf, Takes, ParseGroup, ParseWords, FlagsSeen, FlagsLeave;
    assert "-" + flags + [c] == "-" + (flags + [c]);
    assert ["-" + (flags + [c])] + [] == ["-" + (flags + [c])];
    OptionWord(flags + [c], [], opts, optarg);
    ParseFlags(flags, [c], [], opts, optarg);
    ParseMissing(c, opts, FlagsLeave(flags, opts, optarg));
  }

  lemma ParseAttached(c: char, argument: string, words: seq<string>, opts: string, optarg: Option<string>)
    requires Takes(opts, c) && argument != []
    ensures ParseGroup([c] + argument, words, opts, optarg)
         == ParseWords(words, opts, Some(argument)).After([Seen(c, c, Some(argument))])
  {
    hide KindOf, Takes;
    KindIs(opts, c);
    assert ([c] + argument)[1..] == argument;
  }

  lemma ParseSeparate(c: char, argument: string, words: seq<string>, opts: string, optarg: Option<string>)
    requires Takes(opts, c)
    ensures ParseGroup([c], [argument] + words, opts, optarg)
         == ParseWords(words, opts, Some(argument)).After([Seen(c, c, Some(argument))])
  {
    hide KindOf, Takes;
    KindIs(opts, c);
    assert ([argument] + words)[1..] == words;
  }

  lemma ParseMissing(c: char, opts: string, optarg: Option<string>)
    requires Takes(opts, c)
    ensures ParseGroup([c], [], opts, optarg) == Parse([Seen('?', c, optarg)], [])
  {
    hide KindOf, Takes;
    KindIs(opts, c);
  }

  lemma ParseEnding(e: Ending, opts: string, optarg: Option<string>)
    requires EndingOk(e, opts)
    ensures ParseWords(WriteEnding(e), opts, optarg) == Parse(EndingSeen(e, opts, optarg), Operands(e))
  {
    hide ParseGroup;
    match e
    case DashDash(operands) => assert (["--"] + operands)[1..] == operands;
    case Bare(_) =>
    case Missing(flags, c) => MissingWritten(flags, c, opts, optarg);
  }

  /** Written options, however grouped, are read back, and reading stops at the operands. */
  lemma {:induction false} ReadsBack(groups: seq<Group>, e: Ending, opts: string, optarg: Option<string>)
    requires forall g :: g in groups ==> GroupOk(g, opts)
    requires EndingOk(e, opts)
    ensures ParseWords(Write(groups, e), opts, optarg) == Parse(AllSeen(groups, e, opts, optarg), Operands(e))
    decreases |groups|
  {
    hide GroupSeen, GroupLeaves, WriteGroup, GroupOk, ParseWords, EndingSeen, WriteEnding, Operands, EndingOk;
    if groups == [] {
      ParseEnding(e, opts, optarg);
    } else {
      ParseWritten(groups[0], Write(groups[1..], e), opts, optarg);
      ReadsBack(groups[1..], e, opts, GroupLeaves(groups[0], opts, optarg));
    }
  }

  /** The letters of a group up to the first option that takes an argument. */
  lemma {:induction false} FlagsOf(group: string, opts: string) returns (p: nat)
    ensures p <= |group| && FlagsOk(group[..p], opts) && (p < |group| ==> Takes(opts, group[p]))
    decreases |group|
  {
    hide Takes;
    if group == "" || Takes(opts, group[0]) {
      p := 0;
    } else {
      var q := FlagsOf(group[1..], opts);
      p := q + 1;
      assert group[..p] == [group[0]] + group[1..][..q];
    }
  }

  /** Every argument list is written by groups and an ending: reading back says all there is to say. */
  lemma {:induction false} EveryArgv(words: seq<string>, opts: string) returns (groups: seq<Group>, e: Ending)
    ensures (forall g :: g in groups ==> GroupOk(g, opts)) && EndingOk(e, opts) && Write(groups, e) == words
    decreases |words|, 1
  {
    hide Takes;
    if words == [] || !IsOptionWord(words[0]) {
      groups, e := [], Bare(words);
    } else if words[0] == "--" {
      groups, e := [], DashDash(words[1..]);
      assert words == ["--"] + words[1..];
    } else {
      var group := words[0][1..];
      assert words[0] == "-" + group && words[..1] == [words[0]];
      var p := FlagsOf(group, opts);
      if p == |group| {
        assert group[..p] == group;
        groups, e := Behind(Flags(group), words, 1, opts);
      } else if p + 1 < |group| {
        assert "-" + group[..p] + [group[p]] + group[p + 1..] == "-" + group;
        groups, e := Behind(Attached(group[..p], group[p], group[p + 1..]), words, 1, opts);
      } else {
        assert group == group[..p] + [group[p]] && "-" + group[..p] + [group[p]] == "-" + group;
        if |words| == 1 {
          groups, e := [], Missing(group[..p], group[p]);
        } else {
          assert words[..2] == [words[0], words[1]];
          groups, e := Behind(Separate(group[..p], group[p], words[1]), words, 2, opts);
        }
      }
    }
  }

  lemma {:induction false} Behind(g: Group, words: seq<string>, n: nat, opts: string)
    returns (groups: seq<Group>, e: Ending)
    requires 0 < n <= |words| && GroupOk(g, opts) && WriteGroup(g) == words[..n]
    ensures (forall g :: g in groups ==> GroupOk(g, opts)) && EndingOk(e, opts) && Write(groups, e) == words
    decreases |words|, 0
  {
    hide GroupOk, WriteGroup, EndingOk, WriteEnding;
    var more;
    more, e := EveryArgv(words[n..], opts);
    groups := [g] + more;
    assert groups[1..] == more && words == words[..n] + words[n..];
  }

  /** The whole program run: scanning a written argument list returns the list. */
  method ScanWritten(program: string, groups: seq<Group>, e: Ending, opts: string) returns (seen: seq<Seen>, first: nat)
    requires forall g :: g in groups ==> GroupOk(g, opts)
    requires EndingOk(e, opts)
    ensures seen == AllSeen(groups, e, opts, None)
    ensures first <= 1 + |Write(groups, e)| && ([program] + Write(groups, e))[first..] == Operands(e)
  {
    var argv := [program] + Write(groups, e);
    assert argv[1..] == Write(groups, e);
    var scanner := new Scanner(argv, opts);
    ReadsBack(groups, e, opts, None);
    seen := scanner.Run();
    first := scanner.optind;
  }
}
