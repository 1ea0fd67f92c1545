// src/cli/args.ts, parseArgs: one or two tokens at a time, until `--`.
module Args {
  import opened Common

  // A flag given once as a switch, once with a value, or repeatedly.
  datatype Flag = Switch | Text(value: string) | Many(values: seq<string>)

  datatype Parsed = Parsed(positional: seq<string>, flags: map<string, Flag>)

  predicate StartsWith(s: string, t: string) { |t| <= |s| && s[..|t|] == t }

  // String(value)
  function AsString(f: Flag): string
    requires !f.Many?
  {
    if f.Text? then f.value else "true"
  }

  // The inner function `set`.
  function SetFlag(flags: map<string, Flag>, key: string, value: Flag): map<string, Flag>
    requires !value.Many?
  {
    if key !in flags then flags[key := value]
    else match flags[key]
      case Many(values) => flags[key := Many(values + [AsString(value)])]
      case _ => flags[key := Many([AsString(flags[key]), AsString(value)])]
  }

  // tok.indexOf("="), None for -1.
  function IndexOfEq(tok: string): (k: Option<nat>)
    ensures k != None ==> k.value < |tok| && tok[k.value] == '=' && '=' !in tok[..k.value]
    ensures k == None ==> '=' !in tok
  {
    if tok == "" then None
    else if tok[0] == '=' then Some(0)
    else
      var k := IndexOfEq(tok[1..]);
      assert tok == [tok[0]] + tok[1..];
      if k == None then None else
      assert tok[..k.value + 1] == [tok[0]] + tok[1..][..k.value];
      Some(k.value + 1)
  }

  // A token that could be the value of the flag before it.
  predicate IsValue(tok: string) { !StartsWith(tok, "-") }

  // One turn of the loop before `--` was seen: what it does to the result and how many
  // tokens it takes.
  datatype Turn = Turn(result: Parsed, taken: nat)

  function Named(p: Parsed, key: string, rest: seq<string>): Turn {
    if rest != [] && IsValue(rest[0])
    then Turn(p.(flags := SetFlag(p.flags, key, Text(rest[0]))), 2)
    else Turn(p.(flags := SetFlag(p.flags, key, Switch)), 1)
  }

  function TakeTurn(p: Parsed, tok: string, rest: seq<string>): (t: Turn)
    requires tok != "--"
    ensures 1 <= t.taken <= 1 + |rest|
  {
    if StartsWith(tok, "--") then
      var eq := IndexOfEq(tok);
      if eq != None && eq.value >= 2
      then Turn(p.(flags := SetFlag(p.flags, tok[2..eq.value], Text(tok[eq.value + 1..]))), 1)
      else Named(p, tok[2..], rest)
    else if StartsWith(tok, "-") && |tok| > 1 then
      if |tok| > 2
      then Turn(p.(flags := SetFlag(p.flags, tok[1..2], Text(tok[2..]))), 1)
      else Named(p, tok[1..2], rest)
    else Turn(p.(positional := p.positional + [tok]), 1)
  }

  // The whole loop, as a function of the tokens that are left.
  function ParseFrom(p: Parsed, argv: seq<string>): Parsed
    decreases |argv|
  {
    if argv == [] then p
    else if argv[0] == "--" then p.(positional := p.positional + argv[1..])
    else
      var t := TakeTurn(p, argv[0], argv[1..]);
      ParseFrom(t.result, argv[t.taken..])
  }

  const NOTHING := Parsed([], map[])

  function Parse(argv: seq<string>): Parsed { ParseFrom(NOTHING, argv) }

  // What is left to compute when the loop stands at token i.
  ghost function Remaining(p: Parsed, argv: seq<string>, i: nat, endOfOptions: bool): Parsed
    requires i <= |argv|
  {
    if endOfOptions then p.(positional := p.positional + argv[i..]) else ParseFrom(p, argv[i..])
  }

  lemma VerbatimStep(p: Parsed, argv: seq<string>, i: nat)
    requires i < |argv|
    ensures Remaining(p, argv, i, true) == Remaining(p.(positional := p.positional + [argv[i]]), argv, i + 1, true)
  {
    assert p.positional + argv[i..] == p.positional + [argv[i]] + argv[i + 1..];
  }

  lemma DoubleDashStep(p: Parsed, argv: seq<string>, i: nat)
    requires i < |argv| && argv[i] == "--"
    ensures Remaining(p, argv, i, false) == Remaining(p, argv, i + 1, true)
  {
    assert argv[i..][1..] == argv[i + 1..];
  }

  lemma TurnStep(p: Parsed, argv: seq<string>, i: nat, t: Turn)
    requires i < |argv| && argv[i] != "--" && t == TakeTurn(p, argv[i], argv[i + 1..])
    ensures i + t.taken <= |argv|
    ensures Remaining(p, argv, i, false) == Remaining(t.result, argv, i + t.taken, false)
  {
    assert argv[i..][1..] == argv[i + 1..];
    assert argv[i..][t.taken..] == argv[i + t.taken..];
  }

  // parseArgs itself.
  method ParseArgs(argv: seq<string>) returns (parsed: Parsed)
    ensures parsed == Parse(argv)
  {
    var positional: seq<string> := [];
    var flags: map<string, Flag> := map[];
    var i := 0;
    var endOfOptions := false;
    assert argv[0..] == argv;
    while i < |argv|
      invariant 0 <= i <= |argv|
      invariant Parse(argv) == Remaining(Parsed(positional, flags), argv, i, endOfOptions)
    {
      ghost var p := Parsed(positional, flags);
      var tok := argv[i];
      if endOfOptions {
        VerbatimStep(p, argv, i);
        positional := positional + [tok];
        i := i + 1;
      } else if tok == "--" {
        DoubleDashStep(p, argv, i);
        endOfOptions := true;
        i := i + 1;
      } else if StartsWith(tok, "-") && |tok| > 1 {
        var taken;
        flags, taken := TakeFlag(argv, i, flags, p);
        TurnStep(p, argv, i, Turn(p.(flags := flags), taken));
        i := i + taken;
      } else {
        TurnStep(p, argv, i, Turn(p.(positional := positional + [tok]), 1));
        positional := positional + [tok];
        i := i + 1;
      }
    }
    parsed := Parsed(positional, flags);
    FinishedAt(parsed, argv, endOfOptions);
  }

  lemma FinishedAt(p: Parsed, argv: seq<string>, endOfOptions: bool)
    ensures Remaining(p, argv, |argv|, endOfOptions) == p
  {
    assert argv[|argv|..] == [];
    assert p.positional + [] == p.positional;
  }

  // The two branches for tokens that start with a dash.
  method TakeFlag(argv: seq<string>, i: nat, flags: map<string, Flag>, ghost p: Parsed)
    returns (updated: map<string, Flag>, taken: nat)
    requires i < |argv| && argv[i] != "--" && StartsWith(argv[i], "-") && |argv[i]| > 1 && p.flags == flags
    ensures Turn(p.(flags := updated), taken) == TakeTurn(p, argv[i], argv[i + 1..])
  {
    var tok := argv[i];
    var hasNext := i + 1 < |argv| && !StartsWith(argv[i + 1], "-");
    assert i + 1 < |argv| ==> argv[i + 1..][0] == argv[i + 1];
    if StartsWith(tok, "--") {
      var eq := IndexOfEq(tok);
      if eq != None {
        DashesHoldNoEq(tok, eq.value);
        return SetFlag(flags, tok[2..eq.value], Text(tok[eq.value + 1..])), 1;
      } else if hasNext {
        return SetFlag(flags, tok[2..], Text(argv[i + 1])), 2;
      } else {
        return SetFlag(flags, tok[2..], Switch), 1;
      }
    } else if |tok| > 2 {
      return SetFlag(flags, tok[1..2], Text(tok[2..])), 1;
    } else if hasNext {
      return SetFlag(flags, tok[1..2], Text(argv[i + 1])), 2;
    } else {
      return SetFlag(flags, tok[1..2], Switch), 1;
    }
  }

  // The first `=` of a long flag lies behind its dashes.
  lemma DashesHoldNoEq(tok: string, k: nat)
    requires StartsWith(tok, "--") && k < |tok| && tok[k] == '='
    ensures k >= 2
  {
    assert tok[..2][0] == tok[0] && tok[..2][1] == tok[1];
  }

  // ---------------------------------------------------------------- the laws

  // What follows `--` is appended verbatim, and nothing before it notices.
  lemma {:induction false} DoubleDashSplits(p: Parsed, a: seq<string>, b: seq<string>)
    requires "--" !in a
    ensures ParseFrom(p, a + ["--"] + b) == ParseFrom(p, a).(positional := ParseFrom(p, a).positional + b)
    decreases |a|
  {
    var whole := a + ["--"] + b;
    if a == [] {
      assert whole == ["--"] + b;
    } else {
      assert whole[0] == a[0] && a[0] in a;
      var t, u := TakeTurn(p, a[0], a[1..]), TakeTurn(p, a[0], whole[1..]);
      SameTurn(p, a[0], a[1..], b);
      assert whole[1..] == a[1..] + ["--"] + b;
      assert whole[t.taken..] == a[t.taken..] + ["--"] + b;
      DoubleDashSplits(t.result, a[t.taken..], b);
    }
  }

  // A flag at the end of `a` takes no value from "--" either.
  lemma SameTurn(p: Parsed, tok: string, rest: seq<string>, b: seq<string>)
    requires tok != "--"
    ensures TakeTurn(p, tok, rest + ["--"] + b) == TakeTurn(p, tok, rest)
  {
    var more := rest + ["--"] + b;
    if rest == [] {
      assert more[0] == "--" && "--"[..1] == "-";
    } else {
      assert more[0] == rest[0];
    }
  }

  // The same for a whole command line.
  lemma ParseDoubleDash(a: seq<string>, b: seq<string>)
    requires "--" !in a
    ensures Parse(a + ["--"] + b) == Parse(a).(positional := Parse(a).positional + b)
  {
    DoubleDashSplits(NOTHING, a, b);
  }

  // What a command line can say before `--`: a bare word, or a flag with its value behind `=`,
  // in the next token, or behind the letter of a short flag, or a flag without a value.
  datatype Item =
    | Bare(tok: string)
    | LongEq(key: string, value: string)
    | LongNext(key: string, value: string)
    | LongSwitch(key: string)
    | ShortInline(letter: char, value: string)
    | ShortNext(letter: char, value: string)
    | ShortSwitch(letter: char)

  function Tokens(it: Item): (tokens: seq<string>)
    ensures 1 <= |tokens| <= 2
  {
    match it
    case Bare(tok) => [tok]
    case LongEq(key, value) => ["--" + key + "=" + value]
    case LongNext(key, value) => ["--" + key, value]
    case LongSwitch(key) => ["--" + key]
    case ShortInline(letter, value) => ["-" + [letter] + value]
    case ShortNext(letter, value) => ["-" + [letter], value]
    case ShortSwitch(letter) => ["-" + [letter]]
  }

  // The item can be told from others: a bare word starts with no dash (a single dash is one),
  // a key holds no `=`, a value in the next token starts with no dash.
  predicate Readable(it: Item) {
    match it
    case Bare(tok) => tok == "-" || !StartsWith(tok, "-")
    case LongEq(key, _) => '=' !in key
    case LongNext(key, value) => '=' !in key && key != "" && !StartsWith(value, "-")
    case LongSwitch(key) => '=' !in key && key != ""
    case ShortInline(letter, value) => letter != '-' && value != ""
    case ShortNext(letter, value) => letter != '-' && !StartsWith(value, "-")
    case ShortSwitch(letter) => letter != '-'
  }

  // A flag without a value is followed by nothing that could be one.
  predicate FollowedBy(it: Item, rest: seq<string>) {
    (it.LongSwitch? || it.ShortSwitch?) && rest != [] ==> StartsWith(rest[0], "-")
  }

  function AllTokens(items: seq<Item>): seq<string> {
    if items == [] then [] else Tokens(items[0]) + AllTokens(items[1..])
  }

  predicate AllReadable(items: seq<Item>) {
    items == [] ||
    (Readable(items[0]) && FollowedBy(items[0], AllTokens(items[1..])) && AllReadable(items[1..]))
  }

  // The bare words, in order.
  function Words(items: seq<Item>): seq<string> {
    if items == [] then [] else (if items[0].Bare? then [items[0].tok] else []) + Words(items[1..])
  }

  function KeyOf(it: Item): string
    requires !it.Bare?
  {
    if it.ShortInline? || it.ShortNext? || it.ShortSwitch? then [it.letter] else it.key
  }

  // What the items give one key, in order; None for a flag without a value.
  function Given(items: seq<Item>, key: string): seq<Option<string>> {
    if items == [] then [] else GivenBy(items[0], key) + Given(items[1..], key)
  }

  function GivenBy(it: Item, key: string): seq<Option<string>> {
    if it.Bare? || KeyOf(it) != key then []
    else if it.LongSwitch? || it.ShortSwitch? then [None] else [Some(it.value)]
  }

  function Spelled(v: Option<string>): string { if v == None then "true" else v.value }

  // A flag entry that stands for exactly this: nothing; a switch or a value; or the list of
  // several, a switch among them read as "true".
  predicate Holds(flags: map<string, Flag>, key: string, given: seq<Option<string>>) {
    if given == [] then key !in flags
    else if |given| == 1 then key in flags && flags[key] == if given[0] == None then Switch else Text(given[0].value)
    else key in flags && flags[key].Many? && |flags[key].values| == |given|
         && forall i :: 0 <= i < |given| ==> flags[key].values[i] == Spelled(given[i])
  }

  lemma {:induction false} IndexOfEqIs(tok: string, k: nat)
    requires k < |tok| && tok[k] == '=' && '=' !in tok[..k]
    ensures IndexOfEq(tok) == Some(k)
    decreases |tok|
  {
    if k > 0 {
      assert tok[..k][0] == tok[0] && tok[0] in tok[..k];
      assert tok[..k] == [tok[0]] + tok[1..][..k - 1];
      IndexOfEqIs(tok[1..], k - 1);
    }
  }

  // The flag of an item, as `set` is called with it.
  function FlagOf(it: Item): Flag
    requires !it.Bare?
  {
    if it.LongSwitch? || it.ShortSwitch? then Switch else Text(it.value)
  }

  function Applied(p: Parsed, it: Item): Parsed {
    if it.Bare? then p.(positional := p.positional + [it.tok])
    else p.(flags := SetFlag(p.flags, KeyOf(it), FlagOf(it)))
  }

  lemma LongEqTurn(p: Parsed, key: string, value: string, rest: seq<string>)
    requires '=' !in key
    ensures var tok := "--" + key + "=" + value;
      tok != "--" && TakeTurn(p, tok, rest) == Turn(p.(flags := SetFlag(p.flags, key, Text(value))), 1)
  {
    var tok := "--" + key + "=" + value;
    var k := 2 + |key|;
    assert tok[..2] == "--" && tok[k] == '=' && tok[2..k] == key && tok[k + 1..] == value;
    assert tok[..k] == "--" + key;
    IndexOfEqIs(tok, k);
  }

  lemma LongTurn(p: Parsed, key: string, rest: seq<string>)
    requires '=' !in key && key != ""
    ensures "--" + key != "--" && TakeTurn(p, "--" + key, rest) == Named(p, key, rest)
  {
    var tok := "--" + key;
    assert tok[..2] == "--" && tok[2..] == key;
    assert |tok| > 2;
    assert forall i :: 0 <= i < |tok| ==> tok[i] != '=';
  }

  lemma ShortTurn(p: Parsed, letter: char, value: string, rest: seq<string>)
    requires letter != '-'
    ensures var tok := "-" + [letter] + value;
      && tok != "--"
      && TakeTurn(p, tok, rest) ==
         if value != "" then Turn(p.(flags := SetFlag(p.flags, [letter], Text(value))), 1)
         else Named(p, [letter], rest)
  {
    var tok := "-" + [letter] + value;
    assert tok[..1] == "-" && tok[1] == letter && tok[1..2] == [letter] && tok[2..] == value;
    assert tok[..2][1] == letter;
  }

  lemma TwoDashes(tok: string)
    requires StartsWith(tok, "--")
    ensures StartsWith(tok, "-") && tok != "-"
  {
    assert tok[..2][..1] == tok[..1];
  }

  // A turn of the loop takes an item.
  lemma ItemTurn(p: Parsed, it: Item, rest: seq<string>)
    requires Readable(it) && FollowedBy(it, rest)
    ensures Tokens(it)[0] != "--"
    ensures TakeTurn(p, Tokens(it)[0], Tokens(it)[1..] + rest) == Turn(Applied(p, it), |Tokens(it)|)
  {
    var more := Tokens(it)[1..] + rest;
    match it
    case Bare(tok) =>
      if StartsWith(tok, "--") { TwoDashes(tok); }
    case LongEq(key, value) => LongEqTurn(p, key, value, more);
    case LongNext(key, value) => LongTurn(p, key, more);
    case LongSwitch(key) => LongTurn(p, key, more);
    case ShortInline(letter, value) => ShortTurn(p, letter, value, more);
    case ShortNext(letter, value) =>
      assert "-" + [letter] + "" == "-" + [letter];
      ShortTurn(p, letter, "", more);
    case ShortSwitch(letter) =>
      assert "-" + [letter] + "" == "-" + [letter];
      ShortTurn(p, letter, "", more);
  }

  function AllApplied(p: Parsed, items: seq<Item>): Parsed
    decreases |items|
  {
    if items == [] then p else AllApplied(Applied(p, items[0]), items[1..])
  }

  lemma {:induction false} ParseItems(p: Parsed, items: seq<Item>)
    requires AllReadable(items)
    ensures ParseFrom(p, AllTokens(items)) == AllApplied(p, items)
    ensures "--" !in AllTokens(items)
    decreases |items|
  {
    if items != [] {
      ParseItem(p, items[0], AllTokens(items[1..]));
      ParseItems(Applied(p, items[0]), items[1..]);
      NoDashes(items[0]);
    }
  }

  lemma ParseItem(p: Parsed, it: Item, rest: seq<string>)
    requires Readable(it) && FollowedBy(it, rest)
    ensures ParseFrom(p, Tokens(it) + rest) == ParseFrom(Applied(p, it), rest)
  {
    ItemTurn(p, it, rest);
    assert (Tokens(it) + rest)[1..] == Tokens(it)[1..] + rest;
    assert (Tokens(it) + rest)[|Tokens(it)|..] == rest;
  }

  lemma NoDashes(it: Item)
    requires Readable(it) && FollowedBy(it, [])
    ensures "--" !in Tokens(it)
  {
    ItemTurn(NOTHING, it, []);
    assert "--"[..1] == "-";
  }

  lemma {:induction false} AppliedHold(p: Parsed, items: seq<Item>, done: seq<Option<string>>, key: string)
    requires Holds(p.flags, key, done)
    ensures Holds(AllApplied(p, items).flags, key, done + Given(items, key))
    decreases |items|
  {
    if items == [] {
      assert done + [] == done;
    } else {
      SetHolds(p, items[0], done, key);
      AppliedHold(Applied(p, items[0]), items[1..], done + GivenBy(items[0], key), key);
      ConcatAssoc(done, GivenBy(items[0], key), Given(items[1..], key));
    }
  }

  lemma {:induction false} AppliedWords(p: Parsed, items: seq<Item>)
    ensures AllApplied(p, items).positional == p.positional + Words(items)
    decreases |items|
  {
    if items != [] {
      AppliedWords(Applied(p, items[0]), items[1..]);
      ConcatAssoc(p.positional, if items[0].Bare? then [items[0].tok] else [], Words(items[1..]));
    }
  }

  lemma SetHolds(p: Parsed, it: Item, done: seq<Option<string>>, key: string)
    requires Holds(p.flags, key, done)
    ensures Holds(Applied(p, it).flags, key, done + GivenBy(it, key))
  {
    if GivenBy(it, key) == [] {
      assert done + [] == done;
    } else {
      SetNext(p.flags, key, done, GivenBy(it, key)[0], FlagOf(it));
    }
  }

  lemma SetNext(flags: map<string, Flag>, key: string, done: seq<Option<string>>, v: Option<string>, f: Flag)
    requires Holds(flags, key, done) && f == if v == None then Switch else Text(v.value)
    ensures Holds(SetFlag(flags, key, f), key, done + [v])
  {
  }

  // Every command line without `--` can be read as such items, so what follows says what each
  // of them parses to.
  lemma {:induction false} ItemsOf(argv: seq<string>) returns (items: seq<Item>)
    requires "--" !in argv
    ensures AllReadable(items) && AllTokens(items) == argv
    decreases |argv|
  {
    if argv == [] {
      items := [];
    } else {
      var it := FirstItem(argv);
      var more := ItemsOf(argv[|Tokens(it)|..]);
      items := [it] + more;
      assert items[1..] == more;
    }
  }

  lemma FirstItem(argv: seq<string>) returns (it: Item)
    requires argv != [] && "--" !in argv
    ensures |Tokens(it)| <= |argv| && Tokens(it) == argv[..|Tokens(it)|]
    ensures Readable(it) && FollowedBy(it, argv[|Tokens(it)|..])
  {
    var tok := argv[0];
    assert argv[..1] == [tok] && tok in argv;
    assert |argv| > 1 ==> argv[..2] == [tok, argv[1]];
    if StartsWith(tok, "--") {
      it := FirstLong(argv);
    } else if StartsWith(tok, "-") && |tok| > 1 {
      it := FirstShort(argv);
    } else {
      it := Bare(tok);
    }
  }

  lemma FirstLong(argv: seq<string>) returns (it: Item)
    requires argv != [] && argv[0] != "--" && StartsWith(argv[0], "--")
    ensures |Tokens(it)| <= |argv| && Tokens(it)[0] == argv[0]
    ensures |Tokens(it)| == 2 ==> Tokens(it)[1] == argv[1]
    ensures Readable(it) && FollowedBy(it, argv[|Tokens(it)|..])
  {
    var tok := argv[0];
    var eq := IndexOfEq(tok);
    if eq != None {
      DashesHoldNoEq(tok, eq.value);
      it := LongEq(tok[2..eq.value], tok[eq.value + 1..]);
      assert forall i :: 2 <= i < eq.value ==> tok[i] == tok[..eq.value][i];
      assert tok == "--" + tok[2..eq.value] + "=" + tok[eq.value + 1..];
    } else {
      assert tok == "--" + tok[2..];
      assert forall i :: 2 <= i < |tok| ==> tok[i] in tok;
      it := if |argv| > 1 && !StartsWith(argv[1], "-") then LongNext(tok[2..], argv[1]) else LongSwitch(tok[2..]);
    }
  }

  lemma FirstShort(argv: seq<string>) returns (it: Item)
    requires argv != [] && StartsWith(argv[0], "-") && |argv[0]| > 1 && !StartsWith(argv[0], "--")
    ensures |Tokens(it)| <= |argv| && Tokens(it)[0] == argv[0]
    ensures |Tokens(it)| == 2 ==> Tokens(it)[1] == argv[1]
    ensures Readable(it) && FollowedBy(it, argv[|Tokens(it)|..])
  {
    var tok := argv[0];
    assert tok[..1][0] == '-' && tok[..2] == [tok[0], tok[1]];
    assert tok == "-" + [tok[1]] + tok[2..];
    if |tok| > 2 {
      it := ShortInline(tok[1], tok[2..]);
    } else {
      it := if |argv| > 1 && !StartsWith(argv[1], "-") then ShortNext(tok[1], argv[1]) else ShortSwitch(tok[1]);
    }
  }

  // Items before `--` and any words behind it parse back to the same words and, for every key,
  // the same values in the same order.
  lemma PrintedArgsParse(items: seq<Item>, tail: seq<string>, key: string)
    requires AllReadable(items)
    ensures Parse(AllTokens(items)).positional == Words(items)
    ensures Parse(AllTokens(items) + ["--"] + tail).positional == Words(items) + tail
    ensures Holds(Parse(AllTokens(items)).flags, key, Given(items, key))
    ensures Holds(Parse(AllTokens(items) + ["--"] + tail).flags, key, Given(items, key))
  {
    ParseItems(NOTHING, items);
    AppliedHold(NOTHING, items, [], key);
    AppliedWords(NOTHING, items);
    assert [] + Given(items, key) == Given(items, key);
    assert [] + Words(items) == Words(items);
    ParseDoubleDash(AllTokens(items), tail);
  }
}
