// src/jsonl/parser.ts: what the extractors find in a window agrees with the whole file.
//
// A transcript is a sequence of parsed lines, None for a line that is not a JSON object.
module Transcript {
  import opened Common

  import opened JsonlLines

  // ------------------------------------------------------------------ records

  // Tool ids are only compared for equality.
  type Id = nat

  datatype Json = Json(text: string, keys: seq<string>)
  datatype BlockKind = ToolUseBlock | ToolResultBlock | OtherBlock
  datatype Block = Block(kind: BlockKind, id: Option<Id>, name: Option<string>, input: Option<Json>,
      toolUseId: Option<Id>)
  datatype LineKind = Assistant | User | OtherLine

  // A message's content: missing or null, an array, or a string or anything else.
  datatype Content = Missing | Blocks(blocks: seq<Block>) | Other(json: Json)

  // Array.isArray(content) ? content : []
  function BlocksOf(content: Content): seq<Block> { if content.Blocks? then content.blocks else [] }

  // A line JSON.parse accepts and that is an object. `iterable` says that a loop over its
  // content can read the type of every element: it is missing, a string, or an array without
  // null.
  datatype Record = Record(
    kind: LineKind, assistantRole: bool, content: Content, iterable: bool,
    stopReason: Option<string>, timestamp: string, uuid: string)

  type Parsed = Option<Record>

  // How lines are read: the blank test of the filter, and JSON.parse.
  datatype Reader = Reader(isBlank: Line -> bool, parse: Line -> Parsed)

  function ParseAll(rd: Reader, lines: seq<Line>): (r: seq<Parsed>)
    ensures |r| == |lines|
  {
    seq(|lines|, i requires 0 <= i < |lines| => rd.parse(lines[i]))
  }

  function TailRecords(rd: Reader, file: seq<byte>, maxBytes: nat): seq<Parsed> {
    ParseAll(rd, TailLines(rd.isBlank, Some(file), maxBytes))
  }

  function AllRecords(rd: Reader, file: seq<byte>): seq<Parsed> {
    ParseAll(rd, AllLines(rd.isBlank, file))
  }

  // A line cut at its front is not JSON.
  ghost predicate CutLinesDoNotParse(rd: Reader, file: seq<byte>) {
    forall part :: StrictSuffixOfLine(file, part) ==> rd.parse(part) == None
  }

  // What a window gives: perhaps one unparseable line, then the last k records of the file.
  lemma WindowHoldsLastRecords(rd: Reader, file: seq<byte>, maxBytes: nat) returns (cut: seq<Parsed>, k: nat)
    requires CutLinesDoNotParse(rd, file)
    ensures cut == [] || cut == [None]
    ensures k <= |AllRecords(rd, file)|
    ensures TailRecords(rd, file, maxBytes) == cut + AllRecords(rd, file)[|AllRecords(rd, file)| - k..]
    ensures maxBytes >= |file| ==> cut == [] && k == |AllRecords(rd, file)|
  {
    var cutLine, n := WindowHoldsLastLines(rd.isBlank, file, maxBytes);
    var all := AllLines(rd.isBlank, file);
    cut, k := ParseAll(rd, cutLine), n;
    if cutLine != [] { assert rd.parse(cutLine[0]) == None; }
    assert TailRecords(rd, file, maxBytes) == cut + ParseAll(rd, all[|all| - k..]);
  }

  // --------------------------------------------------------- pending tool uses

  datatype ToolUse = ToolUse(id: Id, name: string, input: Option<Json>)
  datatype Fact = Used(use: ToolUse) | Answered(id: Id)

  function BlockFacts(kind: LineKind, b: Block): seq<Fact> {
    if kind == Assistant && b.kind == ToolUseBlock && b.id != None
    then [Used(ToolUse(b.id.value, if b.name == None then "" else b.name.value, b.input))]
    else if kind == User && b.kind == ToolResultBlock && b.toolUseId != None then [Answered(b.toolUseId.value)]
    else []
  }

  function LineFacts(r: Parsed): seq<Fact> {
    if r == None then [] else Flat(FactsOf(r.value.kind), BlocksOf(r.value.content))
  }

  function FactsOf(kind: LineKind): Block -> seq<Fact> { b => BlockFacts(kind, b) }

  // What the lines say about tool calls, in order.
  function Facts(lines: seq<Parsed>): seq<Fact> {
    Flat(LineFacts, lines)
  }

  // The latest payload of every id used.
  function Uses(facts: seq<Fact>): map<Id, ToolUse> {
    if facts == [] then map[] else
    var before, last := Uses(facts[..|facts| - 1]), facts[|facts| - 1];
    if last.Used? then before[last.use.id := last.use] else before
  }

  // The ids used, in order of first use: the key order of a JavaScript Map.
  function UseOrder(facts: seq<Fact>): seq<Id> {
    if facts == [] then [] else
    UseOrder(facts[..|facts| - 1]) + FirstUse(facts[..|facts| - 1], facts[|facts| - 1])
  }

  // The key a fact adds.
  function FirstUse(before: seq<Fact>, last: Fact): seq<Id> {
    if last.Used? && last.use.id !in Uses(before) then [last.use.id] else []
  }

  function AnsweredIds(facts: seq<Fact>): set<Id> {
    if facts == [] then {} else
    var last := facts[|facts| - 1];
    AnsweredIds(facts[..|facts| - 1]) + if last.Answered? then {last.id} else {}
  }

  // What is pending: used and not answered, with the latest payload.
  function Pending(facts: seq<Fact>): map<Id, ToolUse> {
    map id | id in Uses(facts) && id !in AnsweredIds(facts) :: Uses(facts)[id]
  }

  // [...toolUses.values()].filter(tu => !matchedIds.has(tu.id))
  function Unanswered(order: seq<Id>, uses: map<Id, ToolUse>, answered: set<Id>): seq<ToolUse>
    requires forall id :: id in order ==> id in uses
  {
    if order == [] then [] else
    Unanswered(order[..|order| - 1], uses, answered) + UnlessAnswered(order[|order| - 1], uses, answered)
  }

  function UnlessAnswered(id: Id, uses: map<Id, ToolUse>, answered: set<Id>): seq<ToolUse>
    requires id in uses
  {
    if id in answered then [] else [uses[id]]
  }

  lemma {:induction false} OrderCoversUses(facts: seq<Fact>)
    ensures forall id :: id in UseOrder(facts) <==> id in Uses(facts)
    ensures forall id :: id in Uses(facts) ==> Uses(facts)[id].id == id
  {
    if facts != [] {
      OrderCoversUses(facts[..|facts| - 1]);
    }
  }

  function PendingList(facts: seq<Fact>): seq<ToolUse> {
    OrderCoversUses(facts);
    Unanswered(UseOrder(facts), Uses(facts), AnsweredIds(facts))
  }

  // The variables of extractPendingToolUses: the Map (its key order and its entries) and the Set.
  datatype Scan = Scan(keys: seq<Id>, toolUses: map<Id, ToolUse>, matchedIds: set<Id>)

  function ScanOf(facts: seq<Fact>): Scan {
    Scan(UseOrder(facts), Uses(facts), AnsweredIds(facts))
  }

  lemma ScanNext(facts: seq<Fact>, more: seq<Fact>)
    requires |more| <= 1
    ensures var s := ScanOf(facts);
            ScanOf(facts + more) ==
            if more == [] then s
            else if more[0].Used?
                 then Scan(if more[0].use.id in s.toolUses then s.keys else s.keys + [more[0].use.id],
                           s.toolUses[more[0].use.id := more[0].use], s.matchedIds)
            else Scan(s.keys, s.toolUses, s.matchedIds + {more[0].id})
  {
    if more == [] {
      assert facts + more == facts;
    } else {
      assert (facts + more)[..|facts|] == facts;
    }
  }

  // extractPendingToolUses, after the lines have been read.
  method ExtractPendingToolUses(lines: seq<Parsed>) returns (pending: seq<ToolUse>)
    ensures pending == PendingList(Facts(lines))
    ensures forall use :: use in pending <==> LatestUse(lines, use) && !IsAnswered(lines, use.id)
  {
    var scan := Scan([], map[], {});
    for n := 0 to |lines|
      invariant scan == ScanOf(Facts(lines[..n]))
    {
      FlatPrefix(LineFacts, lines, n);
      var obj := lines[n];
      if obj != None && obj.value.content.Blocks? {
        scan := ScanBlocks(scan, obj.value.kind, obj.value.content.blocks, Facts(lines[..n]));
      }
    }
    assert lines[..|lines|] == lines;
    OrderCoversUses(Facts(lines));
    pending := FilterUnanswered(scan.keys, scan.toolUses, scan.matchedIds);
    forall use ensures use in pending <==> LatestUse(lines, use) && !IsAnswered(lines, use.id) {
      PendingListMeans(lines, use);
    }
  }

  method FilterUnanswered(keys: seq<Id>, toolUses: map<Id, ToolUse>, matchedIds: set<Id>)
      returns (pending: seq<ToolUse>)
    requires forall id :: id in keys ==> id in toolUses
    ensures pending == Unanswered(keys, toolUses, matchedIds)
  {
    pending := [];
    for n := 0 to |keys|
      invariant pending == Unanswered(keys[..n], toolUses, matchedIds)
    {
      assert keys[..n + 1][..n] == keys[..n];
      if keys[n] !in matchedIds { pending := pending + [toolUses[keys[n]]]; }
    }
    assert keys[..|keys|] == keys;
  }

  // The two inner loops over the blocks of one line.
  method ScanBlocks(start: Scan, kind: LineKind, blocks: seq<Block>, ghost facts: seq<Fact>) returns (scan: Scan)
    requires start == ScanOf(facts)
    ensures scan == ScanOf(facts + Flat(FactsOf(kind), blocks))
  {
    ghost var f := FactsOf(kind);
    scan := start;
    assert facts + [] == facts;
    for n := 0 to |blocks|
      invariant scan == ScanOf(facts + Flat(f, blocks[..n]))
    {
      FlatPrefix(f, blocks, n);
      ConcatAssoc(facts, Flat(f, blocks[..n]), BlockFacts(kind, blocks[n]));
      scan := ScanBlock(scan, kind, blocks[n], facts + Flat(f, blocks[..n]));
    }
    assert blocks[..|blocks|] == blocks;
  }

  method ScanBlock(start: Scan, kind: LineKind, block: Block, ghost facts: seq<Fact>) returns (scan: Scan)
    requires start == ScanOf(facts)
    ensures scan == ScanOf(facts + BlockFacts(kind, block))
  {
    ScanNext(facts, BlockFacts(kind, block));
    scan := start;
    if kind == Assistant && block.kind == ToolUseBlock && block.id != None {
      var id := block.id.value;
      scan := Scan(if id in scan.toolUses then scan.keys else scan.keys + [id],
                   scan.toolUses[id := ToolUse(id, if block.name == None then "" else block.name.value, block.input)],
                   scan.matchedIds);
    }
    if kind == User && block.kind == ToolResultBlock && block.toolUseId != None {
      scan := scan.(matchedIds := scan.matchedIds + {block.toolUseId.value});
    }
  }

  lemma {:induction false} UsesConcat(a: seq<Fact>, b: seq<Fact>)
    ensures Uses(a + b) == Uses(a) + Uses(b)
    ensures AnsweredIds(a + b) == AnsweredIds(a) + AnsweredIds(b)
  {
    if b == [] {
      assert a + b == a;
    } else {
      UsesConcat(a, b[..|b| - 1]);
      assert (a + b)[..|a + b| - 1] == a + b[..|b| - 1];
    }
  }

  // The facts a window of the file gives, and those it misses.
  lemma WindowFacts(rd: Reader, file: seq<byte>, maxBytes: nat)
    returns (missed: seq<Fact>)
    requires CutLinesDoNotParse(rd, file)
    ensures Facts(AllRecords(rd, file)) == missed + Facts(TailRecords(rd, file, maxBytes))
  {
    var cut, k := WindowHoldsLastRecords(rd, file, maxBytes);
    missed := Facts(AllRecords(rd, file)[..|AllRecords(rd, file)| - k]);
    NoFactsInCut(cut);
    FlatOfSuffix(LineFacts, cut, AllRecords(rd, file), k);
  }

  lemma NoFactsInCut(cut: seq<Parsed>)
    requires cut == [] || cut == [None]
    ensures Flat(LineFacts, cut) == []
  {
    assert cut != [] ==> cut[..0] == [];
  }

  lemma FlatOfSuffix<A, B>(f: A -> seq<B>, cut: seq<A>, all: seq<A>, k: nat)
    requires Flat(f, cut) == [] && k <= |all|
    ensures Flat(f, all) == Flat(f, all[..|all| - k]) + Flat(f, cut + all[|all| - k..])
  {
    assert all[..|all| - k] + all[|all| - k..] == all;
    FlatConcat(f, all[..|all| - k], all[|all| - k..]);
    FlatConcat(f, cut, all[|all| - k..]);
  }

  // An id is used here although its answer came earlier, and no later answer is here.
  ghost predicate AnsweredOnlyBefore(missed: seq<Fact>, seen: seq<Fact>, id: Id) {
    id in Uses(seen) && id in AnsweredIds(missed) && id !in AnsweredIds(seen)
  }

  function Restrict(m: map<Id, ToolUse>, ids: set<Id>): map<Id, ToolUse> {
    map id | id in m && id in ids :: m[id]
  }

  // The window's pending tool uses are the full transcript's, among the ids used in the
  // window and with the same payloads, exactly when no such id was answered only before it.
  lemma PendingAgreesExactlyWhen(missed: seq<Fact>, seen: seq<Fact>)
    ensures Pending(seen) == Restrict(Pending(missed + seen), Uses(seen).Keys) <==>
            forall id :: !AnsweredOnlyBefore(missed, seen, id)
  {
    UsesConcat(missed, seen);
    var restricted := Restrict(Pending(missed + seen), Uses(seen).Keys);
    if id :| AnsweredOnlyBefore(missed, seen, id) {
      assert id in Pending(seen) && id !in restricted;
    } else {
      forall id ensures id in Pending(seen) <==> id in restricted {
        assert !AnsweredOnlyBefore(missed, seen, id);
      }
    }
  }

  // A transcript in causal order: no answer precedes a use of the same id.
  ghost predicate CausalOrder(facts: seq<Fact>) {
    forall i, j :: 0 <= i < j < |facts| && facts[i].Answered? && facts[j].Used? ==> facts[i].id != facts[j].use.id
  }

  lemma {:induction false} UseIndex(facts: seq<Fact>, id: Id) returns (j: nat)
    requires id in Uses(facts)
    ensures j < |facts| && facts[j].Used? && facts[j].use.id == id
  {
    j := |facts| - 1;
    if !(facts[j].Used? && facts[j].use.id == id) { j := UseIndex(facts[..|facts| - 1], id); }
  }

  lemma {:induction false} AnswerIndex(facts: seq<Fact>, id: Id) returns (j: nat)
    requires id in AnsweredIds(facts)
    ensures j < |facts| && facts[j] == Answered(id)
  {
    j := |facts| - 1;
    if facts[j] != Answered(id) { j := AnswerIndex(facts[..|facts| - 1], id); }
  }

  lemma AnswerThenUse(missed: seq<Fact>, seen: seq<Fact>, id: Id) returns (i: nat, j: nat)
    requires id in AnsweredIds(missed) && id in Uses(seen)
    ensures i < j < |missed + seen| && (missed + seen)[i] == Answered(id)
    ensures (missed + seen)[j].Used? && (missed + seen)[j].use.id == id
  {
    i := AnswerIndex(missed, id);
    j := UseIndex(seen, id);
    j := |missed| + j;
  }

  lemma CausalOrderSuffices(missed: seq<Fact>, seen: seq<Fact>)
    requires CausalOrder(missed + seen)
    ensures forall id :: !AnsweredOnlyBefore(missed, seen, id)
  {
    forall id ensures !AnsweredOnlyBefore(missed, seen, id) {
      if id in Uses(seen) && id in AnsweredIds(missed) {
        var i, j := AnswerThenUse(missed, seen, id);
        assert false;
      }
    }
  }

  // For any file in causal order and any window, the tail read is right about every tool
  // used in the window.
  lemma TailPendingMatchesFullRead(rd: Reader, file: seq<byte>, maxBytes: nat)
    requires CutLinesDoNotParse(rd, file)
    requires CausalOrder(Facts(AllRecords(rd, file)))
    ensures var full := Facts(AllRecords(rd, file));
            var seen := Facts(TailRecords(rd, file, maxBytes));
            Pending(seen) == Restrict(Pending(full), Uses(seen).Keys)
  {
    var missed := WindowFacts(rd, file, maxBytes);
    var seen := Facts(TailRecords(rd, file, maxBytes));
    CausalOrderSuffices(missed, seen);
    PendingAgreesExactlyWhen(missed, seen);
  }

  // The returned list holds exactly the pending tool uses, one entry per id.
  lemma {:induction false} PendingListIsPending(facts: seq<Fact>)
    ensures forall use :: use in PendingList(facts) <==> use.id in Pending(facts) && Pending(facts)[use.id] == use
  {
    OrderCoversUses(facts);
    UnansweredMembers(UseOrder(facts), Uses(facts), AnsweredIds(facts));
  }

  lemma {:induction false} UnansweredMembers(order: seq<Id>, uses: map<Id, ToolUse>, answered: set<Id>)
    requires forall id :: id in order ==> id in uses
    ensures forall use :: use in Unanswered(order, uses, answered) <==>
              exists id :: id in order && id !in answered && uses[id] == use
  {
    if order != [] {
      var init, last := order[..|order| - 1], order[|order| - 1];
      UnansweredMembers(init, uses, answered);
      assert order == init + [last];
    }
  }

  // The ids of a list that are not among some others.
  function Fresh(order: seq<Id>, others: set<Id>): seq<Id> {
    if order == [] then [] else
    Fresh(order[..|order| - 1], others) + if order[|order| - 1] in others then [] else [order[|order| - 1]]
  }

  lemma {:induction false} FreshMembers(order: seq<Id>, others: set<Id>)
    ensures forall id :: id in Fresh(order, others) <==> id in order && id !in others
  {
    if order != [] {
      FreshMembers(order[..|order| - 1], others);
      assert order == order[..|order| - 1] + [order[|order| - 1]];
    }
  }

  lemma FreshNext(order: seq<Id>, id: Id, others: set<Id>)
    ensures Fresh(order + [id], others) == Fresh(order, others) + if id in others then [] else [id]
  {
    assert (order + [id])[..|order|] == order;
  }

  // A Map keeps the position of a key that is set again.
  lemma {:induction false} UseOrderConcat(a: seq<Fact>, b: seq<Fact>)
    ensures UseOrder(a + b) == UseOrder(a) + Fresh(UseOrder(b), Uses(a).Keys)
  {
    if b == [] {
      assert a + b == a;
    } else {
      UseOrderConcat(a, b[..|b| - 1]);
      WithoutLast(a, b);
      FreshUse(a, b[..|b| - 1], b[|b| - 1]);
      ConcatAssoc(UseOrder(a), Fresh(UseOrder(b[..|b| - 1]), Uses(a).Keys), FirstUse(a + b[..|b| - 1], b[|b| - 1]));
    }
  }

  lemma FreshUse(a: seq<Fact>, init: seq<Fact>, last: Fact)
    ensures Fresh(UseOrder(init) + FirstUse(init, last), Uses(a).Keys) ==
            Fresh(UseOrder(init), Uses(a).Keys) + FirstUse(a + init, last)
  {
    UsesConcat(a, init);
    if last.Used? && last.use.id !in Uses(init) {
      FreshNext(UseOrder(init), last.use.id, Uses(a).Keys);
    } else {
      assert UseOrder(init) + [] == UseOrder(init);
    }
  }

  lemma {:induction false} UnansweredConcat(a: seq<Id>, b: seq<Id>, uses: map<Id, ToolUse>, answered: set<Id>)
    requires forall id :: id in a || id in b ==> id in uses
    ensures Unanswered(a + b, uses, answered) == Unanswered(a, uses, answered) + Unanswered(b, uses, answered)
  {
    if b == [] {
      assert a + b == a;
    } else {
      UnansweredConcat(a, b[..|b| - 1], uses, answered);
      WithoutLast(a, b);
      ConcatAssoc(Unanswered(a, uses, answered), Unanswered(b[..|b| - 1], uses, answered),
                  UnlessAnswered(b[|b| - 1], uses, answered));
    }
  }

  lemma {:induction false} UnansweredLocal(
    order: seq<Id>, uses: map<Id, ToolUse>, answered: set<Id>, uses': map<Id, ToolUse>, answered': set<Id>)
    requires forall id :: id in order ==>
               id in uses && id in uses' && uses[id] == uses'[id] && (id in answered <==> id in answered')
    ensures Unanswered(order, uses, answered) == Unanswered(order, uses', answered')
  {
    if order != [] { UnansweredLocal(order[..|order| - 1], uses, answered, uses', answered'); }
  }

  // The pending tool uses of the window whose ids were not used before it.
  function FreshPending(missed: seq<Fact>, seen: seq<Fact>): seq<ToolUse> {
    OrderCoversUses(seen);
    FreshMembers(UseOrder(seen), Uses(missed).Keys);
    Unanswered(Fresh(UseOrder(seen), Uses(missed).Keys), Uses(seen), AnsweredIds(seen))
  }

  // The full list is a list of ids used before the window, followed by this one.
  ghost predicate EndsInFresh(missed: seq<Fact>, seen: seq<Fact>, front: seq<ToolUse>) {
    && PendingList(missed + seen) == front + FreshPending(missed, seen)
    && forall i :: 0 <= i < |front| ==> front[i].id in Uses(missed)
  }

  // Even the order agrees: the full list ends in what the window adds to the ids used before
  // it, exactly when none of the ids it adds was answered only before it.
  lemma PendingListEndsInFreshExactlyWhen(missed: seq<Fact>, seen: seq<Fact>)
    ensures (exists front :: EndsInFresh(missed, seen, front)) <==>
            forall id :: AnsweredOnlyBefore(missed, seen, id) ==> id in Uses(missed)
  {
    if id :| AnsweredOnlyBefore(missed, seen, id) && id !in Uses(missed) {
      forall front ensures !EndsInFresh(missed, seen, front) { AnsweredFreshUse(missed, seen, front, id); }
    } else {
      EndsInFreshPending(missed, seen);
    }
  }

  lemma AnsweredFreshUse(missed: seq<Fact>, seen: seq<Fact>, front: seq<ToolUse>, id: Id)
    requires AnsweredOnlyBefore(missed, seen, id) && id !in Uses(missed)
    ensures !EndsInFresh(missed, seen, front)
  {
    UsesConcat(missed, seen);
    OrderCoversUses(seen);
    FreshMembers(UseOrder(seen), Uses(missed).Keys);
    UnansweredMembers(Fresh(UseOrder(seen), Uses(missed).Keys), Uses(seen), AnsweredIds(seen));
    assert Uses(seen)[id] in FreshPending(missed, seen);
    PendingListIsPending(missed + seen);
  }

  // What is pending of these ids, by all that is known.
  function PendingOf(order: seq<Id>, facts: seq<Fact>): seq<ToolUse>
    requires forall id :: id in order ==> id in Uses(facts)
  {
    Unanswered(order, Uses(facts), AnsweredIds(facts))
  }

  lemma KnownIds(missed: seq<Fact>, seen: seq<Fact>)
    ensures forall id :: id in UseOrder(missed) ==> id in Uses(missed + seen) && id in Uses(missed)
    ensures forall id :: id in Fresh(UseOrder(seen), Uses(missed).Keys) ==>
              id in Uses(missed + seen) && id in Uses(seen) && id !in Uses(missed)
  {
    UsesConcat(missed, seen);
    OrderCoversUses(missed);
    OrderCoversUses(seen);
    FreshMembers(UseOrder(seen), Uses(missed).Keys);
  }

  lemma FullListSplits(missed: seq<Fact>, seen: seq<Fact>)
    ensures (KnownIds(missed, seen);
            PendingList(missed + seen) == PendingOf(UseOrder(missed), missed + seen)
                + PendingOf(Fresh(UseOrder(seen), Uses(missed).Keys), missed + seen))
  {
    KnownIds(missed, seen);
    UseOrderConcat(missed, seen);
    UnansweredConcat(UseOrder(missed), Fresh(UseOrder(seen), Uses(missed).Keys),
                     Uses(missed + seen), AnsweredIds(missed + seen));
  }

  lemma FrontIsOld(missed: seq<Fact>, seen: seq<Fact>)
    ensures (KnownIds(missed, seen);
            forall use :: use in PendingOf(UseOrder(missed), missed + seen) ==> use.id in Uses(missed))
  {
    KnownIds(missed, seen);
    OrderCoversUses(missed + seen);
    UnansweredMembers(UseOrder(missed), Uses(missed + seen), AnsweredIds(missed + seen));
  }

  lemma FreshAgree(missed: seq<Fact>, seen: seq<Fact>)
    requires forall id :: AnsweredOnlyBefore(missed, seen, id) ==> id in Uses(missed)
    ensures (KnownIds(missed, seen);
            PendingOf(Fresh(UseOrder(seen), Uses(missed).Keys), missed + seen) == FreshPending(missed, seen))
  {
    KnownIds(missed, seen);
    UsesConcat(missed, seen);
    forall id | id in Fresh(UseOrder(seen), Uses(missed).Keys)
      ensures Uses(missed + seen)[id] == Uses(seen)[id]
      ensures id in AnsweredIds(missed + seen) <==> id in AnsweredIds(seen)
    {
      assert !AnsweredOnlyBefore(missed, seen, id);
    }
    UnansweredLocal(Fresh(UseOrder(seen), Uses(missed).Keys), Uses(missed + seen), AnsweredIds(missed + seen),
                    Uses(seen), AnsweredIds(seen));
  }

  lemma EndsInFreshPending(missed: seq<Fact>, seen: seq<Fact>)
    requires forall id :: AnsweredOnlyBefore(missed, seen, id) ==> id in Uses(missed)
    ensures exists front :: EndsInFresh(missed, seen, front)
  {
    KnownIds(missed, seen);
    FullListSplits(missed, seen);
    FreshAgree(missed, seen);
    FrontIsOld(missed, seen);
    assert EndsInFresh(missed, seen, PendingOf(UseOrder(missed), missed + seen));
  }

  // When no id is used on both sides of the cut, that is the window's whole list.
  lemma FreshPendingIsAll(missed: seq<Fact>, seen: seq<Fact>)
    requires Uses(missed).Keys !! Uses(seen).Keys
    ensures FreshPending(missed, seen) == PendingList(seen)
  {
    OrderCoversUses(seen);
    AllFresh(UseOrder(seen), Uses(missed).Keys);
  }

  lemma {:induction false} AllFresh(order: seq<Id>, others: set<Id>)
    requires forall id :: id in order ==> id !in others
    ensures Fresh(order, others) == order
  {
    if order != [] { AllFresh(order[..|order| - 1], others); }
  }

  // ------------------------------------------- what is pending, in the lines

  // Block j of line i, if line i is a record of this kind with that many blocks.
  ghost predicate HasBlock(lines: seq<Parsed>, kind: LineKind, i: nat, j: nat) {
    && i < |lines| && lines[i] != None && lines[i].value.kind == kind
    && lines[i].value.content.Blocks? && j < |lines[i].value.content.blocks|
  }

  ghost predicate UsedIn(blocks: seq<Block>, j: nat, id: Id) {
    j < |blocks| && blocks[j].kind == ToolUseBlock && blocks[j].id == Some(id)
  }

  ghost predicate AnsweredIn(blocks: seq<Block>, j: nat, id: Id) {
    j < |blocks| && blocks[j].kind == ToolResultBlock && blocks[j].toolUseId == Some(id)
  }

  // An assistant record uses the id in block j of line i.
  ghost predicate UsedAt(lines: seq<Parsed>, i: nat, j: nat, id: Id) {
    HasBlock(lines, Assistant, i, j) && UsedIn(lines[i].value.content.blocks, j, id)
  }

  // A user record answers the id.
  ghost predicate AnsweredAt(lines: seq<Parsed>, i: nat, j: nat, id: Id) {
    HasBlock(lines, User, i, j) && AnsweredIn(lines[i].value.content.blocks, j, id)
  }

  ghost predicate Before(i: nat, j: nat, i': nat, j': nat) { i < i' || (i == i' && j < j') }

  // It is the last use of the id.
  ghost predicate LastUsedAt(lines: seq<Parsed>, i: nat, j: nat, id: Id) {
    UsedAt(lines, i, j, id) && forall i', j' :: UsedAt(lines, i', j', id) ==> !Before(i, j, i', j')
  }

  // The name and the input of a block; a missing name is read as "".
  ghost predicate Carries(use: ToolUse, b: Block) {
    use.name == (if b.name == None then "" else b.name.value) && use.input == b.input
  }

  // Some block before position n uses the id, and the last one that does carries this.
  ghost predicate LatestIn(blocks: seq<Block>, use: ToolUse) {
    exists j: nat :: LastUsedIn(blocks, j, use.id) && Carries(use, blocks[j])
  }

  ghost predicate LastUsedIn(blocks: seq<Block>, j: nat, id: Id) {
    UsedIn(blocks, j, id) && forall j': nat :: j < j' ==> !UsedIn(blocks, j', id)
  }

  // Some line uses the id, and the last block that does carries this.
  ghost predicate LatestUse(lines: seq<Parsed>, use: ToolUse) {
    exists i: nat, j: nat :: LastUsedAt(lines, i, j, use.id) && Carries(use, lines[i].value.content.blocks[j])
  }

  ghost predicate IsAnswered(lines: seq<Parsed>, id: Id) { exists i: nat, j: nat :: AnsweredAt(lines, i, j, id) }

  function Get(m: map<Id, ToolUse>, id: Id): Option<ToolUse> { if id in m then Some(m[id]) else None }

  lemma BlockFactsAre(kind: LineKind, b: Block, use: ToolUse)
    ensures Get(Uses(BlockFacts(kind, b)), use.id) == Some(use) <==>
            kind == Assistant && b.kind == ToolUseBlock && b.id == Some(use.id) && Carries(use, b)
    ensures use.id in Uses(BlockFacts(kind, b)) <==> kind == Assistant && b.kind == ToolUseBlock && b.id == Some(use.id)
    ensures use.id in AnsweredIds(BlockFacts(kind, b)) <==>
            kind == User && b.kind == ToolResultBlock && b.toolUseId == Some(use.id)
  {
    var facts := BlockFacts(kind, b);
    assert |facts| == 1 ==> facts[..0] == [];
  }

  lemma LatestInNext(blocks: seq<Block>, b: Block, use: ToolUse)
    ensures LatestIn(blocks + [b], use) <==>
            if UsedIn([b], 0, use.id) then Carries(use, b) else LatestIn(blocks, use)
  {
    var more, n := blocks + [b], |blocks|;
    assert forall j: nat :: UsedIn(more, j, use.id) <==>
        UsedIn(blocks, j, use.id) || (j == n && UsedIn([b], 0, use.id));
    if UsedIn([b], 0, use.id) {
      assert LastUsedIn(more, n, use.id) && more[n] == b;
      forall j: nat | j < n ensures !LastUsedIn(more, j, use.id) { assert UsedIn(more, n, use.id); }
    } else {
      forall j: nat ensures LastUsedIn(more, j, use.id) <==> LastUsedIn(blocks, j, use.id) {}
      assert forall j: nat :: LastUsedIn(blocks, j, use.id) ==> more[j] == blocks[j];
    }
  }

  ghost predicate IsAnsweredIn(blocks: seq<Block>, id: Id) { exists j: nat :: AnsweredIn(blocks, j, id) }

  lemma AnsweredInNext(blocks: seq<Block>, b: Block, id: Id)
    ensures IsAnsweredIn(blocks + [b], id) <==> IsAnsweredIn(blocks, id) || AnsweredIn([b], 0, id)
  {
    var more := blocks + [b];
    assert forall j: nat :: AnsweredIn(more, j, id) <==>
        AnsweredIn(blocks, j, id) || (j == |blocks| && AnsweredIn([b], 0, id));
    if AnsweredIn([b], 0, id) { assert AnsweredIn(more, |blocks|, id); }
    if j: nat :| AnsweredIn(blocks, j, id) { assert AnsweredIn(more, j, id); }
  }

  lemma {:induction false} BlocksFactsAre(kind: LineKind, blocks: seq<Block>, use: ToolUse)
    ensures Get(Uses(Flat(FactsOf(kind), blocks)), use.id) == Some(use) <==> kind == Assistant && LatestIn(blocks, use)
    ensures use.id in AnsweredIds(Flat(FactsOf(kind), blocks)) <==>
            kind == User && IsAnsweredIn(blocks, use.id)
  {
    if blocks != [] {
      var init, b := blocks[..|blocks| - 1], blocks[|blocks| - 1];
      assert init + [b] == blocks;
      BlocksFactsAre(kind, init, use);
      UsesConcat(Flat(FactsOf(kind), init), BlockFacts(kind, b));
      BlockFactsAre(kind, b, use);
      LatestInNext(init, b, use);
      AnsweredInNext(init, b, use.id);
    }
  }

  // What one more line says about an id.
  lemma UsedInNext(lines: seq<Parsed>, r: Parsed, id: Id)
    ensures forall i: nat, j: nat :: UsedAt(lines + [r], i, j, id) <==>
              UsedAt(lines, i, j, id) || (i == |lines| && UsedAt([r], 0, j, id))
    ensures forall i: nat, j: nat :: AnsweredAt(lines + [r], i, j, id) <==>
              AnsweredAt(lines, i, j, id) || (i == |lines| && AnsweredAt([r], 0, j, id))
  {
  }

  lemma LastUseInLastLine(lines: seq<Parsed>, r: Parsed, j: nat, id: Id)
    ensures LastUsedAt(lines + [r], |lines|, j, id) <==> LastUsedAt([r], 0, j, id)
  {
    var more, n := lines + [r], |lines|;
    UsedInNext(lines, r, id);
    if LastUsedAt(more, n, j, id) {
      forall i', j' | UsedAt([r], i', j', id) ensures !Before(0, j, i', j') { assert UsedAt(more, n, j', id); }
    }
    if LastUsedAt([r], 0, j, id) {
      forall i', j' | UsedAt(more, i', j', id) ensures !Before(n, j, i', j') {
        if i' == n { assert UsedAt([r], 0, j', id); }
      }
    }
  }

  lemma LatestUseNext(lines: seq<Parsed>, r: Parsed, use: ToolUse)
    ensures LatestUse(lines + [r], use) <==>
            if exists j: nat :: UsedAt([r], 0, j, use.id) then LatestUse([r], use) else LatestUse(lines, use)
  {
    var more, n := lines + [r], |lines|;
    UsedInNext(lines, r, use.id);
    if j: nat :| UsedAt([r], 0, j, use.id) {
      forall i: nat, j': nat | i < n ensures !LastUsedAt(more, i, j', use.id) { assert UsedAt(more, n, j, use.id); }
      forall j': nat ensures LastUsedAt(more, n, j', use.id) <==> LastUsedAt([r], 0, j', use.id) {
        LastUseInLastLine(lines, r, j', use.id);
      }
      assert forall i: nat, j': nat :: LastUsedAt([r], i, j', use.id) ==> i == 0;
      assert forall i: nat, j': nat :: LastUsedAt(more, i, j', use.id) ==> i == n;
    } else {
      forall i: nat, j: nat ensures LastUsedAt(more, i, j, use.id) <==> LastUsedAt(lines, i, j, use.id) {}
      assert forall i: nat, j: nat :: LastUsedAt(lines, i, j, use.id) ==> more[i] == lines[i];
    }
  }

  lemma LatestInLine(r: Parsed, use: ToolUse)
    ensures LatestUse([r], use) <==>
            r != None && r.value.kind == Assistant && LatestIn(BlocksOf(r.value.content), use)
  {
    if r != None && r.value.kind == Assistant {
      forall j: nat ensures LastUsedAt([r], 0, j, use.id) <==> LastUsedIn(BlocksOf(r.value.content), j, use.id) {
        assert forall j': nat :: UsedAt([r], 0, j', use.id) <==> UsedIn(BlocksOf(r.value.content), j', use.id);
      }
      assert forall i: nat, j: nat :: LastUsedAt([r], i, j, use.id) ==> i == 0;
    }
  }

  lemma LineFactsAre(r: Parsed, use: ToolUse)
    ensures Get(Uses(LineFacts(r)), use.id) == Some(use) <==> LatestUse([r], use)
    ensures use.id in AnsweredIds(LineFacts(r)) <==> IsAnswered([r], use.id)
  {
    LatestInLine(r, use);
    if r != None {
      BlocksFactsAre(r.value.kind, BlocksOf(r.value.content), use);
      forall j: nat ensures AnsweredAt([r], 0, j, use.id) <==>
          r.value.kind == User && AnsweredIn(BlocksOf(r.value.content), j, use.id) {}
      assert forall i: nat, j: nat :: AnsweredAt([r], i, j, use.id) ==> i == 0;
    }
  }

  lemma AnsweredNext(lines: seq<Parsed>, r: Parsed, id: Id)
    ensures IsAnswered(lines + [r], id) <==> IsAnswered(lines, id) || IsAnswered([r], id)
  {
    UsedInNext(lines, r, id);
    assert forall i: nat, j: nat :: AnsweredAt([r], i, j, id) ==> i == 0;
    if i: nat, j: nat :| AnsweredAt([r], i, j, id) { assert AnsweredAt(lines + [r], |lines|, j, id); }
    if i: nat, j: nat :| AnsweredAt(lines, i, j, id) { assert AnsweredAt(lines + [r], i, j, id); }
  }

  // An id has a last use among the lines if it has one.
  lemma {:induction false} LastUseExists(blocks: seq<Block>, id: Id, j: nat) returns (last: nat)
    requires UsedIn(blocks, j, id)
    ensures LastUsedIn(blocks, last, id)
    decreases |blocks| - j
  {
    if j': nat :| j < j' && UsedIn(blocks, j', id) {
      last := LastUseExists(blocks, id, j');
    } else {
      last := j;
    }
  }

  lemma UsesOfLine(r: Parsed, id: Id)
    ensures id in Uses(LineFacts(r)) <==> exists j: nat :: UsedAt([r], 0, j, id)
  {
    if id in Uses(LineFacts(r)) {
      OrderCoversUses(LineFacts(r));
      LineFactsAre(r, Uses(LineFacts(r))[id]);
    }
    if j: nat :| UsedAt([r], 0, j, id) {
      var blocks := r.value.content.blocks;
      var last := LastUseExists(blocks, id, j);
      var b := blocks[last];
      var use := ToolUse(id, if b.name == None then "" else b.name.value, b.input);
      assert LatestIn(blocks, use);
      LatestInLine(r, use);
      LineFactsAre(r, use);
    }
  }

  lemma {:induction false} FactsAre(lines: seq<Parsed>, use: ToolUse)
    ensures Get(Uses(Facts(lines)), use.id) == Some(use) <==> LatestUse(lines, use)
    ensures use.id in AnsweredIds(Facts(lines)) <==> IsAnswered(lines, use.id)
  {
    if lines != [] {
      var init, r := lines[..|lines| - 1], lines[|lines| - 1];
      assert init + [r] == lines;
      FactsAre(init, use);
      UsesConcat(Facts(init), LineFacts(r));
      LineFactsAre(r, use);
      UsesOfLine(r, use.id);
      LatestUseNext(init, r, use);
      AnsweredNext(init, r, use.id);
    }
  }

  // A tool use is in the list exactly when no user record answers its id, some assistant
  // record uses it, and the last block that does carries its name and input.
  lemma PendingListMeans(lines: seq<Parsed>, use: ToolUse)
    ensures use in PendingList(Facts(lines)) <==> LatestUse(lines, use) && !IsAnswered(lines, use.id)
  {
    PendingListIsPending(Facts(lines));
    FactsAre(lines, use);
  }

  // -------------------------------------------------------- last assistant turn

  datatype Turn = Turn(stopReason: Option<string>, content: Content, timestamp: string, uuid: string)

  predicate IsTurn(r: Option<Record>) {
    r != None && r.value.kind == Assistant && r.value.assistantRole
  }

  function TurnOf(r: Record): Turn {
    Turn(r.stopReason, if r.content == Missing then Blocks([]) else r.content, r.timestamp, r.uuid)
  }

  // extractLastAssistantTurn, after the lines have been read.
  method ExtractLastAssistantTurn(lines: seq<Parsed>) returns (turn: Option<Turn>)
    ensures turn == LastTurn(lines)
    ensures turn == None <==> forall i: nat :: !TurnAt(lines, i)
    ensures turn != None ==> exists i: nat :: LastTurnIs(lines, turn.value, i)
  {
    LastTurnMeans(lines);
    var i := |lines| - 1;
    assert lines[..|lines|] == lines;
    while i >= 0
      invariant -1 <= i < |lines|
      invariant LastTurn(lines) == LastTurn(lines[..i + 1])
    {
      var obj := lines[i];
      assert lines[..i + 1][..i] == lines[..i];
      if IsTurn(obj) { return Some(TurnOf(obj.value)); }
      i := i - 1;
    }
    return None;
  }

  function LastTurn(lines: seq<Parsed>): Option<Turn> {
    if lines == [] then None else
    var last := lines[|lines| - 1];
    if IsTurn(last) then Some(TurnOf(last.value)) else LastTurn(lines[..|lines| - 1])
  }

  ghost predicate TurnAt(lines: seq<Parsed>, i: nat) {
    i < |lines| && lines[i] != None && lines[i].value.kind == Assistant && lines[i].value.assistantRole
  }

  // What is returned of a record: its fields, and no blocks where the content is missing.
  ghost predicate Returns(turn: Turn, r: Record) {
    && turn.stopReason == r.stopReason && turn.timestamp == r.timestamp && turn.uuid == r.uuid
    && (r.content.Missing? ==> turn.content == Blocks([]))
    && (!r.content.Missing? ==> turn.content == r.content)
  }

  // Line i is the last assistant turn, and this is it.
  ghost predicate LastTurnIs(lines: seq<Parsed>, turn: Turn, i: nat) {
    TurnAt(lines, i) && Returns(turn, lines[i].value) && forall k: nat :: i < k ==> !TurnAt(lines, k)
  }

  lemma LastTurnMeans(lines: seq<Parsed>)
    ensures LastTurn(lines) == None <==> forall i: nat :: !TurnAt(lines, i)
    ensures LastTurn(lines) != None ==> exists i: nat :: LastTurnIs(lines, LastTurn(lines).value, i)
  {
    LastTurnIsLast(lines);
    if i: nat :| LastTurnAt(lines, i) { assert LastTurnIs(lines, LastTurn(lines).value, i); }
  }

  // It is the turn of the last line that is one, and null only when there is none.
  lemma {:induction false} LastTurnIsLast(lines: seq<Parsed>)
    ensures (exists i: nat :: LastTurnAt(lines, i)) || (LastTurn(lines) == None && NoTurns(lines))
  {
    if lines == [] {
    } else {
      var n := |lines| - 1;
      LastTurnIsLast(lines[..n]);
      if IsTurn(lines[n]) {
        assert LastTurnAt(lines, n);
      } else if i: nat :| LastTurnAt(lines[..n], i) {
        assert LastTurnAt(lines, i);
      } else {
        assert lines == lines[..n] + [lines[n]];
      }
    }
  }

  ghost predicate NoTurns(lines: seq<Parsed>) {
    forall j :: 0 <= j < |lines| ==> !IsTurn(lines[j])
  }

  // Line i is the last assistant turn, and its text is the answer.
  ghost predicate LastTurnAt(lines: seq<Parsed>, i: nat) {
    && i < |lines| && IsTurn(lines[i])
    && LastTurn(lines) == Some(TurnOf(lines[i].value))
    && (forall j :: i < j < |lines| ==> !IsTurn(lines[j]))
  }

  lemma {:induction false} LastTurnConcat(a: seq<Parsed>, b: seq<Parsed>)
    ensures LastTurn(a + b) == if LastTurn(b) != None then LastTurn(b) else LastTurn(a)
  {
    if b == [] {
      assert a + b == a;
    } else {
      LastTurnConcat(a, b[..|b| - 1]);
      assert (a + b)[..|a + b| - 1] == a + b[..|b| - 1];
    }
  }

  // The tail read gives the file's last assistant turn whenever some complete line of the
  // window is an assistant turn, and null otherwise.
  lemma TailTurnMatchesFullRead(rd: Reader, file: seq<byte>, maxBytes: nat)
    requires CutLinesDoNotParse(rd, file)
    ensures var seen := LastTurn(TailRecords(rd, file, maxBytes));
            seen == None || seen == LastTurn(AllRecords(rd, file))
    ensures var lines := TailRecords(rd, file, maxBytes);
            LastTurn(lines) != None <==> !NoTurns(lines)
    ensures maxBytes >= |file| ==>
              LastTurn(TailRecords(rd, file, maxBytes)) == LastTurn(AllRecords(rd, file))
  {
    var cut, k := WindowHoldsLastRecords(rd, file, maxBytes);
    var all := AllRecords(rd, file);
    var rest := all[|all| - k..];
    assert all[..|all| - k] + rest == all;
    LastTurnConcat(all[..|all| - k], rest);
    LastTurnConcat(cut, rest);
    assert cut != [] ==> cut[..0] == [];
    assert LastTurn(cut) == None;
    LastTurnIsLast(TailRecords(rd, file, maxBytes));
  }

  // -------------------------------------------------------------- tool use events

  datatype Call = Call(name: string, inputKeys: seq<string>)
  datatype ToolEvent<C> = ToolEvent(call: C, turnIndex: int)

  predicate IsNamedToolUse(b: Block) { b.kind == ToolUseBlock && b.name != None }

  function CallOf(b: Block): Call
    requires IsNamedToolUse(b)
  {
    Call(b.name.value, if b.input == None then [] else b.input.value.keys)
  }

  function BlockCalls(b: Block): seq<Call> {
    if IsNamedToolUse(b) then [CallOf(b)] else []
  }

  function CallsOf(r: Record): seq<Call> { Flat(BlockCalls, BlocksOf(r.content)) }

  function AssistantTurn(r: Parsed): seq<Record> {
    if r != None && r.value.kind == Assistant then [r.value] else []
  }

  // The assistant records, one a turn.
  function Turns(lines: seq<Parsed>): seq<Record> {
    Flat(AssistantTurn, lines)
  }

  function Max(a: int, b: int): int { if a < b then b else a }

  function EventsOfTurn<C>(calls: seq<C>, turnIndex: int): (r: seq<ToolEvent<C>>)
    ensures |r| == |calls|
  {
    if calls == [] then [] else
    EventsOfTurn(calls[..|calls| - 1], turnIndex) + [ToolEvent(calls[|calls| - 1], turnIndex)]
  }

  // The events of one turn, if it is late enough.
  function TurnPart<T, C>(calls: T -> seq<C>, turn: T, index: int, first: int): seq<ToolEvent<C>> {
    if index >= first then EventsOfTurn(calls(turn), index) else []
  }

  // The calls of every turn from index `first` on, numbered by turn.
  function EventsFrom<T, C>(calls: T -> seq<C>, turns: seq<T>, first: int): seq<ToolEvent<C>> {
    if turns == [] then [] else
    var n := |turns| - 1;
    EventsFrom(calls, turns[..n], first) + TurnPart(calls, turns[n], n, first)
  }

  // The calls of the last lastNTurns turns.
  function RecentEvents<T, C>(calls: T -> seq<C>, turns: seq<T>, lastNTurns: int): seq<ToolEvent<C>> {
    EventsFrom(calls, turns, Max(0, |turns| - lastNTurns))
  }

  // events.filter(e => e.turnIndex >= cutoff)
  function Since<C>(events: seq<ToolEvent<C>>, cutoff: int): seq<ToolEvent<C>> {
    if events == [] then [] else
    var last := events[|events| - 1];
    Since(events[..|events| - 1], cutoff) + if last.turnIndex >= cutoff then [last] else []
  }

  predicate AllIterable(turns: seq<Record>) { forall i :: 0 <= i < |turns| ==> turns[i].iterable }

  // ------------------------------------------ what the events are, in the lines

  // How many of the first n lines are assistant lines.
  function AssistantLines(lines: seq<Parsed>, n: nat): nat
    requires n <= |lines|
  {
    if n == 0 then 0
    else AssistantLines(lines, n - 1) + if lines[n - 1] != None && lines[n - 1].value.kind == Assistant then 1 else 0
  }

  // Block j of line i is a tool use with a name, in one of the last lastNTurns turns, and this
  // is its event: name, keys of its input if it has one, number of its turn.
  ghost predicate EventAt(lines: seq<Parsed>, lastNTurns: int, e: ToolEvent<Call>, i: nat, j: nat) {
    && HasBlock(lines, Assistant, i, j)
    && CallIn(lines[i].value.content.blocks, e.call, j)
    && e.turnIndex == AssistantLines(lines, i)
    && e.turnIndex >= AssistantLines(lines, |lines|) - lastNTurns
  }

  ghost predicate CallIn(blocks: seq<Block>, c: Call, j: nat) {
    && j < |blocks| && blocks[j].kind == ToolUseBlock && blocks[j].name == Some(c.name)
    && (blocks[j].input == None ==> c.inputKeys == [])
    && (blocks[j].input != None ==> c.inputKeys == blocks[j].input.value.keys)
  }

  lemma {:induction false} CallsAre(blocks: seq<Block>, c: Call)
    ensures c in Flat(BlockCalls, blocks) <==> exists j: nat :: CallIn(blocks, c, j)
  {
    if blocks != [] {
      var init, b := blocks[..|blocks| - 1], blocks[|blocks| - 1];
      CallsAre(init, c);
      assert c in BlockCalls(b) <==> CallIn(blocks, c, |blocks| - 1);
      assert forall j: nat :: j < |init| ==> (CallIn(init, c, j) <==> CallIn(blocks, c, j));
    }
  }

  lemma {:induction false} EventsOfTurnAre<C>(calls: seq<C>, turnIndex: int, e: ToolEvent<C>)
    ensures e in EventsOfTurn(calls, turnIndex) <==> e.call in calls && e.turnIndex == turnIndex
  {
    if calls != [] {
      EventsOfTurnAre(calls[..|calls| - 1], turnIndex, e);
      assert calls == calls[..|calls| - 1] + [calls[|calls| - 1]];
    }
  }

  ghost predicate CalledIn<T(!new), C>(calls: T -> seq<C>, turns: seq<T>, first: int, e: ToolEvent<C>, k: nat) {
    k < |turns| && e.turnIndex == k && k >= first && e.call in calls(turns[k])
  }

  lemma {:induction false} EventsFromAre<T(!new), C>(calls: T -> seq<C>, turns: seq<T>, first: int, e: ToolEvent<C>)
    ensures e in EventsFrom(calls, turns, first) <==> exists k: nat :: CalledIn(calls, turns, first, e, k)
  {
    if turns != [] {
      var n := |turns| - 1;
      EventsFromAre(calls, turns[..n], first, e);
      EventsOfTurnAre(calls(turns[n]), n, e);
      assert e in TurnPart(calls, turns[n], n, first) <==> CalledIn(calls, turns, first, e, n);
      CalledInNext(calls, turns, first, e);
    }
  }

  lemma CalledInNext<T(!new), C>(calls: T -> seq<C>, turns: seq<T>, first: int, e: ToolEvent<C>)
    requires turns != []
    ensures var n := |turns| - 1;
      forall k: nat :: k < n ==> (CalledIn(calls, turns[..n], first, e, k) <==> CalledIn(calls, turns, first, e, k))
  {
  }

  // Turn k is line i.
  ghost predicate IsTurnLine(lines: seq<Parsed>, i: nat, k: nat) {
    i < |lines| && lines[i] != None && lines[i].value.kind == Assistant && AssistantLines(lines, i) == k
  }

  lemma {:induction false} SameLines(a: seq<Parsed>, b: seq<Parsed>, n: nat)
    requires n <= |a| && n <= |b| && a[..n] == b[..n]
    ensures AssistantLines(a, n) == AssistantLines(b, n)
  {
    if n > 0 {
      assert a[..n - 1] == a[..n][..n - 1] == b[..n][..n - 1] == b[..n - 1];
      assert a[n - 1] == a[..n][n - 1] == b[..n][n - 1] == b[n - 1];
      SameLines(a, b, n - 1);
    }
  }

  ghost predicate HasTurnLine(lines: seq<Parsed>, k: nat) { exists i: nat :: IsTurnLine(lines, i, k) }

  lemma {:induction false} TurnsAre(lines: seq<Parsed>)
    ensures |Turns(lines)| == AssistantLines(lines, |lines|)
    ensures forall i: nat, k: nat :: IsTurnLine(lines, i, k) ==> k < |Turns(lines)| && Turns(lines)[k] == lines[i].value
    ensures forall k: nat :: k < |Turns(lines)| ==> HasTurnLine(lines, k)
  {
    if lines != [] {
      var n := |lines| - 1;
      TurnsAre(lines[..n]);
      TurnLineNext(lines);
      SameLines(lines, lines[..n], n);
      forall k: nat | k < |Turns(lines)| ensures HasTurnLine(lines, k) {
        if k < |Turns(lines[..n])| {
          assert HasTurnLine(lines[..n], k);
          var i: nat :| IsTurnLine(lines[..n], i, k);
          assert IsTurnLine(lines, i, k);
        } else {
          assert IsTurnLine(lines, n, k);
        }
      }
    }
  }

  lemma TurnLineNext(lines: seq<Parsed>)
    requires lines != []
    ensures var n := |lines| - 1;
            forall i: nat, k: nat :: i < n ==> (IsTurnLine(lines, i, k) <==> IsTurnLine(lines[..n], i, k))
  {
    var n := |lines| - 1;
    forall i: nat, k: nat | i < n ensures IsTurnLine(lines, i, k) <==> IsTurnLine(lines[..n], i, k) {
      assert lines[..i] == lines[..n][..i];
      SameLines(lines, lines[..n], i);
    }
  }

  ghost predicate HasEvent(lines: seq<Parsed>, lastNTurns: int, e: ToolEvent<Call>) {
    exists i: nat, j: nat :: EventAt(lines, lastNTurns, e, i, j)
  }

  // The recent events are exactly those of the named tool uses in the last turns.
  lemma EventsMean(lines: seq<Parsed>, lastNTurns: int, e: ToolEvent<Call>)
    ensures e in RecentEvents(CallsOf, Turns(lines), lastNTurns) <==> HasEvent(lines, lastNTurns, e)
  {
    var first := Max(0, |Turns(lines)| - lastNTurns);
    EventsFromAre(CallsOf, Turns(lines), first, e);
    if k: nat :| CalledIn(CallsOf, Turns(lines), first, e, k) { TurnHasEvent(lines, lastNTurns, e, k); }
    if i: nat, j: nat :| EventAt(lines, lastNTurns, e, i, j) { EventHasTurn(lines, lastNTurns, e, i, j); }
  }

  lemma TurnHasEvent(lines: seq<Parsed>, lastNTurns: int, e: ToolEvent<Call>, k: nat)
    requires CalledIn(CallsOf, Turns(lines), Max(0, |Turns(lines)| - lastNTurns), e, k)
    ensures HasEvent(lines, lastNTurns, e)
  {
    TurnsAre(lines);
    assert HasTurnLine(lines, k);
    var i: nat :| IsTurnLine(lines, i, k);
    var blocks := BlocksOf(lines[i].value.content);
    CallsAre(blocks, e.call);
    var j: nat :| CallIn(blocks, e.call, j);
    assert EventAt(lines, lastNTurns, e, i, j);
  }

  lemma EventHasTurn(lines: seq<Parsed>, lastNTurns: int, e: ToolEvent<Call>, i: nat, j: nat)
    requires EventAt(lines, lastNTurns, e, i, j)
    ensures 0 <= e.turnIndex
    ensures CalledIn(CallsOf, Turns(lines), Max(0, |Turns(lines)| - lastNTurns), e, e.turnIndex)
  {
    TurnsAre(lines);
    assert IsTurnLine(lines, i, e.turnIndex);
    CallsAre(BlocksOf(lines[i].value.content), e.call);
  }

  // extractToolUseEvents, after the lines have been read; None if it throws.
  method ExtractToolUseEvents(lines: seq<Parsed>, lastNTurns: int) returns (events: Option<seq<ToolEvent<Call>>>)
    ensures events == if AllIterable(Turns(lines)) then Some(RecentEvents(CallsOf, Turns(lines), lastNTurns)) else None
    ensures events != None ==> forall e :: e in events.value <==> HasEvent(lines, lastNTurns, e)
  {
    forall e ensures e in RecentEvents(CallsOf, Turns(lines), lastNTurns) <==> HasEvent(lines, lastNTurns, e) {
      EventsMean(lines, lastNTurns, e);
    }
    if |lines| == 0 { return Some([]); }
    var ok, allEvents, totalTurns := NumberCalls(lines);
    if !ok { return None; }
    if totalTurns <= 0 { return Some([]); }
    var cutoff := Max(0, totalTurns - lastNTurns);
    SinceIsFrom(CallsOf, Turns(lines), cutoff);
    var kept := FilterSince(allEvents, cutoff);
    events := Some(kept);
  }

  method NumberCalls(lines: seq<Parsed>) returns (ok: bool, allEvents: seq<ToolEvent<Call>>, totalTurns: nat)
    ensures ok <==> AllIterable(Turns(lines))
    ensures ok ==> totalTurns == |Turns(lines)|
    ensures ok ==> allEvents == EventsFrom(CallsOf, Turns(lines), 0)
  {
    allEvents := [];
    var turnIndex := -1;
    for n := 0 to |lines|
      invariant turnIndex + 1 == |Turns(lines[..n])|
      invariant allEvents == EventsFrom(CallsOf, Turns(lines[..n]), 0)
      invariant AllIterable(Turns(lines[..n]))
    {
      FlatPrefix(AssistantTurn, lines, n);
      var obj := lines[n];
      if obj != None && obj.value.kind == Assistant {
        EventsFromNext(CallsOf, Turns(lines[..n]), obj.value, 0);
        turnIndex := turnIndex + 1;
        if !obj.value.iterable {
          UnreadableTurn(lines, n);
          return false, allEvents, 0;
        }
        allEvents := PushCalls(allEvents, BlocksOf(obj.value.content), turnIndex);
      }
    }
    assert lines[..|lines|] == lines;
    ok, totalTurns := true, turnIndex + 1;
  }

  lemma UnreadableTurn(lines: seq<Parsed>, n: nat)
    requires n < |lines| && AssistantTurn(lines[n]) != [] && !lines[n].value.iterable
    ensures !AllIterable(Turns(lines))
  {
    FlatPrefix(AssistantTurn, lines, n);
    assert lines == lines[..n + 1] + lines[n + 1..];
    FlatConcat(AssistantTurn, lines[..n + 1], lines[n + 1..]);
    assert Turns(lines)[|Turns(lines[..n])|] == lines[n].value;
  }

  method FilterSince<C>(events: seq<ToolEvent<C>>, cutoff: int) returns (kept: seq<ToolEvent<C>>)
    ensures kept == Since(events, cutoff)
  {
    kept := [];
    for n := 0 to |events|
      invariant kept == Since(events[..n], cutoff)
    {
      assert events[..n + 1][..n] == events[..n];
      if events[n].turnIndex >= cutoff { kept := kept + [events[n]]; }
    }
    assert events[..|events|] == events;
  }

  lemma EventsFromNext<T, C>(calls: T -> seq<C>, turns: seq<T>, turn: T, first: int)
    ensures EventsFrom(calls, turns + [turn], first) ==
            EventsFrom(calls, turns, first) + TurnPart(calls, turn, |turns|, first)
  {
    assert (turns + [turn])[..|turns|] == turns;
  }

  method PushCalls(start: seq<ToolEvent<Call>>, blocks: seq<Block>, turnIndex: int)
      returns (events: seq<ToolEvent<Call>>)
    ensures events == start + EventsOfTurn(Flat(BlockCalls, blocks), turnIndex)
  {
    events := start;
    for n := 0 to |blocks|
      invariant events == start + EventsOfTurn(Flat(BlockCalls, blocks[..n]), turnIndex)
    {
      FlatPrefix(BlockCalls, blocks, n);
      if IsNamedToolUse(blocks[n]) {
        EventsOfTurnNext(start, Flat(BlockCalls, blocks[..n]), CallOf(blocks[n]), turnIndex);
        events := events + [ToolEvent(CallOf(blocks[n]), turnIndex)];
      }
    }
    assert blocks[..|blocks|] == blocks;
  }

  lemma EventsOfTurnNext<C>(start: seq<ToolEvent<C>>, calls: seq<C>, call: C, turnIndex: int)
    ensures start + EventsOfTurn(calls + [call], turnIndex) ==
        start + EventsOfTurn(calls, turnIndex) + [ToolEvent(call, turnIndex)]
  {
    assert (calls + [call])[..|calls|] == calls;
  }

  lemma {:induction false} SinceConcat<C>(a: seq<ToolEvent<C>>, b: seq<ToolEvent<C>>, cutoff: int)
    ensures Since(a + b, cutoff) == Since(a, cutoff) + Since(b, cutoff)
  {
    if b == [] {
      assert a + b == a;
    } else {
      SinceConcat(a, b[..|b| - 1], cutoff);
      assert (a + b)[..|a + b| - 1] == a + b[..|b| - 1];
    }
  }

  lemma {:induction false} SinceOfTurn<C>(calls: seq<C>, turnIndex: int, cutoff: int)
    ensures Since(EventsOfTurn(calls, turnIndex), cutoff) ==
            if turnIndex >= cutoff then EventsOfTurn(calls, turnIndex) else []
  {
    if calls != [] {
      var n := |calls| - 1;
      SinceOfTurn(calls[..n], turnIndex, cutoff);
      assert EventsOfTurn(calls, turnIndex)[..n] == EventsOfTurn(calls[..n], turnIndex);
    }
  }

  // Filtering all events by turn keeps exactly the events of the turns from the cutoff on.
  lemma {:induction false} SinceIsFrom<T, C>(calls: T -> seq<C>, turns: seq<T>, cutoff: nat)
    ensures Since(EventsFrom(calls, turns, 0), cutoff) == EventsFrom(calls, turns, cutoff)
  {
    if turns != [] {
      var n := |turns| - 1;
      SinceIsFrom(calls, turns[..n], cutoff);
      SinceConcat(EventsFrom(calls, turns[..n], 0), EventsOfTurn(calls(turns[n]), n), cutoff);
      SinceOfTurn(calls(turns[n]), n, cutoff);
    }
  }

  function Shifted<C>(events: seq<ToolEvent<C>>, shift: int): (r: seq<ToolEvent<C>>)
    ensures |r| == |events|
  {
    seq(|events|, i requires 0 <= i < |events| => ToolEvent(events[i].call, events[i].turnIndex + shift))
  }

  // The events of turns that come after `offset` others.
  function EventsAfter<T, C>(calls: T -> seq<C>, offset: nat, turns: seq<T>, first: int): seq<ToolEvent<C>> {
    if turns == [] then [] else
    EventsAfter(calls, offset, turns[..|turns| - 1], first)
    + TurnPart(calls, turns[|turns| - 1], offset + (|turns| - 1), first)
  }

  lemma {:induction false} EventsFromParts<T, C>(calls: T -> seq<C>, a: seq<T>, b: seq<T>, first: int)
    ensures EventsFrom(calls, a + b, first) == EventsFrom(calls, a, first) + EventsAfter(calls, |a|, b, first)
  {
    if b == [] {
      assert a + b == a;
    } else {
      EventsFromParts(calls, a, b[..|b| - 1], first);
      EventsFromLast(calls, a, b, first);
      ConcatAssoc(EventsFrom(calls, a, first), EventsAfter(calls, |a|, b[..|b| - 1], first),
                  TurnPart(calls, b[|b| - 1], |a| + (|b| - 1), first));
    }
  }

  lemma EventsFromLast<T, C>(calls: T -> seq<C>, a: seq<T>, b: seq<T>, first: int)
    requires b != []
    ensures EventsFrom(calls, a + b, first) ==
            EventsFrom(calls, a + b[..|b| - 1], first) + TurnPart(calls, b[|b| - 1], |a| + (|b| - 1), first)
  {
    EventsFromNext(calls, a + b[..|b| - 1], b[|b| - 1], first);
    EndsWith(a, b);
  }

  lemma WithoutLast<T>(a: seq<T>, b: seq<T>)
    requires b != []
    ensures |a + b| == |a| + |b| && (a + b)[|a + b| - 1] == b[|b| - 1]
    ensures (a + b)[..|a + b| - 1] == a + b[..|b| - 1]
  {
  }

  lemma {:induction false} EventsAfterAreShifted<T, C>(calls: T -> seq<C>, offset: nat, turns: seq<T>, first: int)
    ensures EventsAfter(calls, offset, turns, first) == Shifted(EventsFrom(calls, turns, first - offset), offset)
  {
    if turns != [] {
      EventsAfterAreShifted(calls, offset, turns[..|turns| - 1], first);
      ShiftedPart(calls, turns[|turns| - 1], |turns| - 1, first, offset);
      ShiftedStep(EventsAfter(calls, offset, turns[..|turns| - 1], first),
                  EventsFrom(calls, turns[..|turns| - 1], first - offset),
                  TurnPart(calls, turns[|turns| - 1], |turns| - 1, first - offset),
                  TurnPart(calls, turns[|turns| - 1], offset + (|turns| - 1), first), offset);
    }
  }

  lemma ShiftedStep<C>(after: seq<ToolEvent<C>>, from: seq<ToolEvent<C>>, part: seq<ToolEvent<C>>,
      moved: seq<ToolEvent<C>>, shift: int)
    requires after == Shifted(from, shift) && moved == Shifted(part, shift)
    ensures after + moved == Shifted(from + part, shift)
  {
    ShiftedConcat(from, part, shift);
  }

  lemma ShiftedPart<T, C>(calls: T -> seq<C>, turn: T, index: int, first: int, offset: nat)
    ensures Shifted(TurnPart(calls, turn, index, first - offset), offset) ==
        TurnPart(calls, turn, offset + index, first)
  {
    ShiftedTurn(calls(turn), index, offset);
  }

  lemma EventsFromConcat<T, C>(calls: T -> seq<C>, a: seq<T>, b: seq<T>, first: int)
    ensures EventsFrom(calls, a + b, first) ==
            EventsFrom(calls, a, first) + Shifted(EventsFrom(calls, b, first - |a|), |a|)
  {
    EventsFromParts(calls, a, b, first);
    EventsAfterAreShifted(calls, |a|, b, first);
  }

  lemma ShiftedConcat<C>(a: seq<ToolEvent<C>>, b: seq<ToolEvent<C>>, shift: int)
    ensures Shifted(a + b, shift) == Shifted(a, shift) + Shifted(b, shift)
  {
  }

  lemma {:induction false} ShiftedTurn<C>(calls: seq<C>, turnIndex: int, shift: int)
    ensures Shifted(EventsOfTurn(calls, turnIndex), shift) == EventsOfTurn(calls, turnIndex + shift)
  {
    if calls != [] {
      var n := |calls| - 1;
      ShiftedTurn(calls[..n], turnIndex, shift);
      ShiftedConcat(EventsOfTurn(calls[..n], turnIndex), [ToolEvent(calls[n], turnIndex)], shift);
    }
  }

  lemma {:induction false} EventsFromClamp<T, C>(calls: T -> seq<C>, turns: seq<T>, first: int, other: int)
    requires Max(0, first) == Max(0, other)
    ensures EventsFrom(calls, turns, first) == EventsFrom(calls, turns, other)
  {
    if turns != [] { EventsFromClamp(calls, turns[..|turns| - 1], first, other); }
  }

  lemma {:induction false} EventsFromEnd<T, C>(calls: T -> seq<C>, turns: seq<T>, first: int)
    requires first >= |turns|
    ensures EventsFrom(calls, turns, first) == []
  {
    if turns != [] { EventsFromEnd(calls, turns[..|turns| - 1], first); }
  }

  // Reading only the last turns gives the tool events of a full read, with turns numbered
  // from the window, except for the recent turns that lie before the window; there are none
  // once the window holds lastNTurns turns.
  lemma RecentEventsOfSuffix<T, C>(calls: T -> seq<C>, before: seq<T>, seen: seq<T>, lastNTurns: int)
    ensures RecentEvents(calls, before + seen, lastNTurns) ==
            EventsFrom(calls, before, |before| + |seen| - lastNTurns)
                + Shifted(RecentEvents(calls, seen, lastNTurns), |before|)
  {
    var first := Max(0, |before + seen| - lastNTurns);
    var start := Max(0, |seen| - lastNTurns);
    EventsFromConcat(calls, before, seen, first);
    var mine := EventsFrom(calls, seen, first - |before|);
    assert RecentEvents(calls, before + seen, lastNTurns) == EventsFrom(calls, before, first) + Shifted(mine, |before|);
    assert mine == RecentEvents(calls, seen, lastNTurns) by {
      EventsFromClamp(calls, seen, first - |before|, start);
    }
    EventsFromClamp(calls, before, |before| + |seen| - lastNTurns, first);
  }

  lemma EnoughTurnsSeen<T, C>(calls: T -> seq<C>, before: seq<T>, seen: seq<T>, lastNTurns: int)
    requires lastNTurns <= |seen|
    ensures RecentEvents(calls, before + seen, lastNTurns) == Shifted(RecentEvents(calls, seen, lastNTurns), |before|)
  {
    RecentEventsOfSuffix(calls, before, seen, lastNTurns);
    EventsFromEnd(calls, before, |before| + |seen| - lastNTurns);
    NothingInFront(RecentEvents(calls, before + seen, lastNTurns),
                   EventsFrom(calls, before, |before| + |seen| - lastNTurns),
                   Shifted(RecentEvents(calls, seen, lastNTurns), |before|));
  }

  lemma NothingInFront<T>(whole: seq<T>, a: seq<T>, b: seq<T>)
    requires whole == a + b && a == []
    ensures whole == b
  {
  }

  // The window's turns are the last turns of the file.
  lemma WindowTurns(rd: Reader, file: seq<byte>, maxBytes: nat) returns (before: seq<Record>)
    requires CutLinesDoNotParse(rd, file)
    ensures Turns(AllRecords(rd, file)) == before + Turns(TailRecords(rd, file, maxBytes))
  {
    var cut, k := WindowHoldsLastRecords(rd, file, maxBytes);
    before := Turns(AllRecords(rd, file)[..|AllRecords(rd, file)| - k]);
    assert cut != [] ==> cut[..0] == [];
    FlatOfSuffix(AssistantTurn, cut, AllRecords(rd, file), k);
  }

  // So for any window of any file that holds lastNTurns turns.
  lemma TailEventsMatchFullRead(rd: Reader, file: seq<byte>, maxBytes: nat, lastNTurns: int)
    returns (earlier: nat)
    requires CutLinesDoNotParse(rd, file)
    requires lastNTurns <= |Turns(TailRecords(rd, file, maxBytes))|
    ensures earlier + |Turns(TailRecords(rd, file, maxBytes))| == |Turns(AllRecords(rd, file))|
    ensures RecentEvents(CallsOf, Turns(AllRecords(rd, file)), lastNTurns) ==
            Shifted(RecentEvents(CallsOf, Turns(TailRecords(rd, file, maxBytes)), lastNTurns), earlier)
  {
    var before := WindowTurns(rd, file, maxBytes);
    EnoughTurnsSeen(CallsOf, before, Turns(TailRecords(rd, file, maxBytes)), lastNTurns);
    earlier := |before|;
  }

  // Reading a window throws only on a turn in the window, on which a full read throws too.
  lemma TailThrowsOnlyIfFullReadThrows(rd: Reader, file: seq<byte>, maxBytes: nat)
    requires CutLinesDoNotParse(rd, file) && AllIterable(Turns(AllRecords(rd, file)))
    ensures AllIterable(Turns(TailRecords(rd, file, maxBytes)))
  {
    var before := WindowTurns(rd, file, maxBytes);
    IterableEnd(before, Turns(TailRecords(rd, file, maxBytes)));
  }

  lemma IterableEnd(a: seq<Record>, b: seq<Record>)
    requires AllIterable(a + b)
    ensures AllIterable(b)
  {
    assert forall i :: 0 <= i < |b| ==> b[i] == (a + b)[|a| + i];
  }
}
