/** Two laws of the command engine seen from outside: a modem that keeps answering serves every
    command in order, and a multi-line answer reaches its command one record at a time. */
module AtAnswers {
  import opened AtEngine
  import LineParser

  // ---------------------------------------------------------------- every command is served

  // every line of the text has at least one character
  predicate WellLined(s: string)
    decreases |s|
  {
    var i := StrChr(s, '\n');
    0 < i && (i < |s| ==> WellLined(s[i + 1..]))
  }

  predicate Writable(c: Cmd) { Unsent(c) && WellLined(c.text[c.sent..]) }

  predicate AllWritable(cs: seq<Cmd>) {
    forall c :: c in cs ==> Writable(c)
  }

  lemma Suffix(s: string, i: nat, j: nat)
    requires i + j <= |s|
    ensures s[i..][j..] == s[i + j..]
  {
  }

  lemma AdvanceWritable(c: Cmd)
    requires Writable(c)
    ensures NextLine(c) != "" && !Stuck(c)
    ensures Unsent(Advance(c)) ==> Writable(Advance(c))
  {
    var s := c.text[c.sent..];
    var i := StrChr(s, '\n');
    if i < |s| {
      Suffix(c.text, c.sent, i + 1);
    }
  }

  // the texts that a step submits hold no empty line
  predicate Lined(s: Step) {
    match s
    case DoSubmit(r) => WellLined(r.text)
    case DoLine(_, _, _, more) => LinedAll(more)
    case DoCancel(r, more) => WellLined(r.text) && LinedAll(more)
    case _ => true
  }

  predicate LinedAll(rs: seq<Request>) {
    forall r :: r in rs ==> WellLined(r.text)
  }

  lemma SubmitWritable(e: Engine, r: Request)
    requires AllWritable(e.pending) && WellLined(r.text)
    ensures AllWritable(Submit(e, r).pending)
  {
    assert " "[0..] == " " && r.text[0..] == r.text;
    assert StrChr(" ", '\n') == 1;
  }

  lemma {:induction false} SubmitAllWritable(e: Engine, rs: seq<Request>)
    requires AllWritable(e.pending) && LinedAll(rs)
    ensures AllWritable(SubmitAll(e, rs).pending)
    decreases |rs|
  {
    if rs != [] {
      SubmitWritable(e, rs[0]);
      SubmitAllWritable(Submit(e, rs[0]), rs[1..]);
    }
  }

  lemma CallbackWritable(e: Engine, c: Cmd, resp: string, more: seq<Request>)
    requires AllWritable(e.pending) && LinedAll(more)
    ensures AllWritable(Callback(e, c, resp, more).pending)
  {
    if c.cb == UserCb { SubmitAllWritable(e.(calls := e.calls + [Call(c.id, c.ret, resp)]), more); }
  }

  lemma WriteWritable(e: Engine)
    requires AllWritable(e.pending)
    ensures AllWritable(WriteReady(e).pending)
  {
    if e.pending != [] { AdvanceWritable(e.pending[0]); }
  }

  lemma FinalWritable(e: Engine, sets: bool, ret: int, line: string, more: seq<Request>)
    requires AllWritable(e.pending) && LinedAll(more)
    ensures AllWritable(Finish(if sets then SetRet(e, ret) else e, line, more).pending)
  {
    var e1 := if sets then SetRet(e, ret) else e;
    if e1.busy != [] { CallbackWritable(e1, e1.busy[0], if e1.mlbuf != "" then e1.mlbuf else line, more); }
  }

  lemma LineWritable(e: Engine, k: Kind, line: string, again: Verdict, more: seq<Request>)
    requires AllWritable(e.pending) && LinedAll(more)
    ensures AllWritable(Act(e, k, line, again, more).pending)
  {
    match k
    case Greeting => SubmitAllWritable(e.(ready := true), more);
    case Final(sets, ret) => FinalWritable(e, sets, ret, line, more);
    case Info(_) => if e.busy != [] { CallbackWritable(e, e.busy[0], e.mlbuf, more); }
    case _ =>
  }

  lemma StepWritable(m: Modem, e: Engine, s: Step)
    requires AllWritable(e.pending) && Lined(s)
    ensures AllWritable(Apply(m, e, s).pending)
  {
    match s
    case DoSubmit(r) => SubmitWritable(e, r);
    case DoWrite => WriteWritable(e);
    case DoLine(line, first, again, more) => LineWritable(e, Classify(m, e.busy, line, first), line, again, more);
    case DoCancel(r, more) =>
      if e.busy == [] {
        SubmitWritable(e, r);
      } else {
        assert r.text[0..] == r.text;
        var c := Cmd(e.next, r.text, 0, UNANSWERED, r.cb);
        CallbackWritable(e.(mlbuf := "", pending := [c] + e.pending, next := e.next + 1), e.busy[0], "OK", more);
      }
    case _ =>
  }

  /** When no text submitted in a run holds an empty line, callbacks and cancellations included,
      the last reason to wait falls away: whenever commands wait and none is being answered, the
      engine asks to write, or the first command is partly sent and waits for its prompt. */
  lemma {:induction false} AlwaysAwake(m: Modem, e: Engine, steps: seq<Step>)
    requires Sound(e) && AllWritable(e.pending) && forall s :: s in steps ==> Lined(s)
    ensures var t := Run(m, e, steps);
      && Sound(t) && AllWritable(t.pending)
      && (t.pending != [] && t.busy == [] ==> t.write || Sending(t.pending[0]))
    decreases |steps|
  {
    if steps == [] {
      if e.pending != [] { AdvanceWritable(e.pending[0]); }
    } else {
      StepSound(m, e, steps[0]);
      StepWritable(m, e, steps[0]);
      AlwaysAwake(m, Apply(m, e, steps[0]), steps[1..]);
    }
  }

  // a command that is not sent yet and holds an empty line further on
  predicate Hopeless(c: Cmd) { Unsent(c) && !WellLined(c.text[c.sent..]) }

  lemma HopelessOn(c: Cmd)
    requires Hopeless(c) && !Stuck(c)
    ensures Hopeless(Advance(c))
  {
    Suffix(c.text, c.sent, StrChr(c.text[c.sent..], '\n') + 1);
  }

  /** And when its text does hold an empty line, prompts and writes lead a ready engine to where
      that command blocks it for good. */
  lemma {:induction false} BlocksAlone(m: Modem, e: Engine) returns (steps: seq<Step>)
    requires e.ready && e.busy == [] && |e.pending| == 1 && Hopeless(e.pending[0])
    ensures (forall s :: s in steps ==> s == DoPrompt || s == DoWrite) && Blocked(Run(m, e, steps))
    decreases |e.pending[0].text| + 1 - e.pending[0].sent
  {
    if Stuck(e.pending[0]) {
      steps := [];
    } else {
      HopelessOn(e.pending[0]);
      assert WriteReady(PromptSeen(e)).pending == [Advance(e.pending[0])];
      var rest := BlocksAlone(m, WriteReady(PromptSeen(e)));
      TwoSteps(m, e);
      RunSplit(m, e, [DoPrompt, DoWrite], rest);
      steps := [DoPrompt, DoWrite] + rest;
    }
  }

  lemma TwoSteps(m: Modem, e: Engine)
    ensures Run(m, e, [DoPrompt, DoWrite]) == WriteReady(PromptSeen(e))
  {
    assert [DoPrompt, DoWrite][1..] == [DoWrite] && [DoWrite][1..] == [];
  }

  // some run that submits no other text with an empty line blocks the engine
  ghost predicate CanBlock(m: Modem, e: Engine) {
    exists steps: seq<Step> :: (forall s :: s in steps ==> Lined(s)) && Blocked(Run(m, e, steps))
  }

  // when the wake-up command has been sent and has timed out, the new command is alone
  function WakeSteps(e: Engine): seq<Step> {
    if e.timer then [] else [DoWrite, DoTimeout]
  }

  lemma AfterWake(m: Modem, e: Engine, r: Request)
    requires e.ready && e.pending == [] && e.busy == []
    ensures var t := Run(m, Submit(e, r), WakeSteps(e));
      t.ready && t.busy == [] && t.pending == [Cmd(if e.timer then e.next else e.next + 1, r.text, 0, UNANSWERED, r.cb)]
  {
    var s := Submit(e, r);
    if e.timer {
      assert Run(m, s, []) == s;
    } else {
      assert [DoWrite, DoTimeout][1..] == [DoTimeout] && [DoTimeout][1..] == [];
      assert Run(m, s, WakeSteps(e)) == WakeTimeout(WriteReady(s));
      assert " "[0..] == " " && StrChr(" ", '\n') == 1;
    }
  }

  lemma NeverBlocks(m: Modem, e: Engine, steps: seq<Step>)
    requires Sound(e) && AllWritable(e.pending) && forall s :: s in steps ==> Lined(s)
    ensures !Blocked(Run(m, e, steps))
  {
    AlwaysAwake(m, e, steps);
    var t := Run(m, e, steps);
    if t.pending != [] { AdvanceWritable(t.pending[0]); }
  }

  lemma BlocksOnce(m: Modem, e: Engine, r: Request)
    requires e.ready && e.pending == [] && e.busy == [] && !WellLined(r.text)
    ensures CanBlock(m, Submit(e, r))
  {
    AfterWake(m, e, r);
    var s := Submit(e, r);
    assert r.text[0..] == r.text;
    var rest := BlocksAlone(m, Run(m, s, WakeSteps(e)));
    RunSplit(m, s, WakeSteps(e), rest);
    assert forall t :: t in WakeSteps(e) + rest ==> Lined(t);
  }

  /** The condition that a caller can test is exact: a command submitted to an idle engine can come
      to block it if and only if some line of its text is empty. */
  lemma CanBlockIff(m: Modem, e: Engine, r: Request)
    requires e.ready && e.pending == [] && e.busy == []
    ensures CanBlock(m, Submit(e, r)) <==> !WellLined(r.text)
  {
    if WellLined(r.text) {
      SubmitSound(e, r);
      SubmitWritable(e, r);
      forall steps: seq<Step> | (forall t :: t in steps ==> Lined(t)) ensures !Blocked(Run(m, Submit(e, r), steps)) {
        NeverBlocks(m, Submit(e, r), steps);
      }
    } else {
      BlocksOnce(m, e, r);
    }
  }

  function BytesLeft(cs: seq<Cmd>): nat {
    if cs == [] then 0
    else (if Unsent(cs[0]) then |cs[0].text| + 1 - cs[0].sent else 0) + BytesLeft(cs[1..])
  }

  // what the modem and the main loop do when all goes well: a write when write interest is set,
  // a prompt when the first command waits for one, and a final result for a busy command
  predicate Obliging(m: Modem, e: Engine, s: Step) {
    match s
    case DoWrite => e.write && e.pending != []
    case DoPrompt => !e.write && e.busy == [] && e.pending != [] && Sending(e.pending[0])
    case DoLine(line, first, _, more) => e.busy != [] && more == [] && Classify(m, e.busy, line, first).Final?
    case _ => false
  }

  predicate AllObliging(m: Modem, e: Engine, steps: seq<Step>)
    decreases |steps|
  {
    steps == [] || (Obliging(m, e, steps[0]) && AllObliging(m, Apply(m, e, steps[0]), steps[1..]))
  }

  ghost predicate Servable(e: Engine) { e.ready && Sound(e) && AllWritable(e.pending) }

  // how much is left to do
  function Work(e: Engine): nat {
    3 * BytesLeft(e.pending) + 2 * |e.busy| + if e.write then 0 else 1
  }

  lemma ObligingProgress(m: Modem, e: Engine, s: Step)
    requires Servable(e) && Obliging(m, e, s)
    ensures var t := Apply(m, e, s);
      Servable(t) && Work(t) < Work(e) && t.next == e.next && Everyone(t) == Everyone(e)
  {
    StepSound(m, e, s);
    match s
    case DoWrite => WriteProgress(e);
    case DoPrompt =>
    case DoLine(line, first, _, more) =>
      var k := Classify(m, e.busy, line, first);
      FinalProgress(if k.sets then SetRet(e, k.ret) else e, line);
      if k.sets { SetRetSame(e, k.ret); }
  }

  lemma WriteProgress(e: Engine)
    requires e.ready && AllWritable(e.pending) && e.write && e.pending != []
    ensures var t := WriteReady(e);
      && AllWritable(t.pending) && t.ready && Work(t) < Work(e) && t.next == e.next && Everyone(t) == Everyone(e)
  {
    AdvanceWritable(e.pending[0]);
    WriteWritable(e);
    assert e.pending == [e.pending[0]] + e.pending[1..];
    WriteAppends(e);
    assert Everyone(WriteReady(e)) == Everyone(e) + [];
  }

  lemma FinalProgress(e: Engine, line: string)
    requires e.busy != []
    ensures var t := Done(e, line, []);
      && t.pending == e.pending && t.ready == e.ready
        && Work(t) < Work(e) && t.next == e.next && Everyone(t) == Everyone(e)
  {
    DoneAppends(e, line, []);
    assert Everyone(Done(e, line, [])) == Everyone(e) + [];
  }

  /** However such a modem and main loop take their turns, every step makes progress, so that
      they come to an end; and nobody is lost or overtaken. */
  lemma {:induction false} ServiceEnds(m: Modem, e: Engine, steps: seq<Step>)
    requires Servable(e) && AllObliging(m, e, steps)
    ensures var t := Run(m, e, steps);
      Servable(t) && |steps| + Work(t) <= Work(e) && t.next == e.next && Everyone(t) == Everyone(e)
    decreases |steps|
  {
    if steps != [] {
      ObligingProgress(m, e, steps[0]);
      ServiceEnds(m, Apply(m, e, steps[0]), steps[1..]);
    }
  }

  // one of the steps that the state calls for
  function Serve(e: Engine): Step {
    if e.busy != [] then DoLine(if e.busy[0].text == "OK" then "ERROR" else "OK", NoEntry, NoEntry, [])
    else if !e.write then DoPrompt
    else DoWrite
  }

  /** And as long as a command waits or is busy, there is such a step: the engine has asked to
      write, or waits for a prompt that the modem owes it, or for an answer. */
  lemma ServiceGoesOn(m: Modem, e: Engine)
    requires Servable(e) && 'O' !in m.extChars && 'E' !in m.extChars && (e.pending != [] || e.busy != [])
    ensures Obliging(m, e, Serve(e))
  {
    if e.busy == [] { AdvanceWritable(e.pending[0]); }
  }

  /** So every command is served: the steps such a modem and main loop take send and complete all
      commands, in their order. */
  lemma {:induction false} EveryCommandServed(m: Modem, e: Engine) returns (steps: seq<Step>)
    requires Servable(e) && 'O' !in m.extChars && 'E' !in m.extChars
    ensures AllObliging(m, e, steps)
    ensures var s := Run(m, e, steps);
      s.pending == [] && s.busy == [] && Ids(s.gone) == Ids(e.gone) + Ids(e.busy) + Ids(e.pending)
    decreases Work(e)
  {
    if e.pending == [] && e.busy == [] {
      steps := [];
    } else {
      ServiceGoesOn(m, e);
      ObligingProgress(m, e, Serve(e));
      var rest := EveryCommandServed(m, Apply(m, e, Serve(e)));
      steps := [Serve(e)] + rest;
    }
  }

  // ---------------------------------------------------------------- multi-line answers

  // a line between the first lines of two records: it continues the record, or it is an
  // unsolicited code that its own parser takes care of
  datatype Item = More(line: string) | Stray(line: string)

  // one record of an answer; `after` is what the callback submits when it gets the record before
  datatype Record = Record(head: string, items: seq<Item>, after: seq<Request>)

  predicate ItemOk(m: Modem, c: Cmd, i: Item) {
    match i
    case More(line) => Classify(m, [c], line, NoEntry) == Info(false)
    case Stray(line) => Classify(m, [c], line, Handled) == Dropped
  }

  predicate RecordOk(m: Modem, c: Cmd, r: Record) {
    && Classify(m, [c], r.head, NoEntry) == Info(true)
    && (forall i :: i in r.items ==> ItemOk(m, c, i))
    && |Assemble(r)| < MLPARSE_BUF_SIZE
  }

  function Assembled(text: string, items: seq<Item>): string
    decreases |items|
  {
    if items == [] then text
    else Assembled(if items[0].More? then text + "\n" + items[0].line else text, items[1..])
  }

  // the first line and its continuations, separated by line feeds
  function Assemble(r: Record): string { Assembled(r.head, r.items) }

  function ItemSteps(items: seq<Item>): seq<Step> {
    seq(|items|, i requires 0 <= i < |items| =>
      DoLine(items[i].line, if items[i].More? then NoEntry else Handled, NoEntry, []))
  }

  function RecordSteps(r: Record): seq<Step> {
    [DoLine(r.head, NoEntry, NoEntry, r.after)] + ItemSteps(r.items)
  }

  function AnswerSteps(rs: seq<Record>): seq<Step> {
    if rs == [] then [] else RecordSteps(rs[0]) + AnswerSteps(rs[1..])
  }

  lemma {:induction false} AssembledGrows(text: string, items: seq<Item>)
    ensures |text| <= |Assembled(text, items)|
    decreases |items|
  {
    if items != [] {
      AssembledGrows(if items[0].More? then text + "\n" + items[0].line else text, items[1..]);
    }
  }

  // the engine is at work on the answer to its first busy command, which has a user's callback
  ghost predicate Answering(e: Engine, c: Cmd) {
    e.busy != [] && e.busy[0] == c && c.cb == UserCb && !e.mlunsolicited
  }

  lemma ClassifyFirst(m: Modem, busy: seq<Cmd>, line: string, v: Verdict)
    requires busy != []
    ensures Classify(m, busy, line, v) == Classify(m, [busy[0]], line, v)
  {
  }

  lemma {:induction false} ItemsRun(m: Modem, e: Engine, c: Cmd, items: seq<Item>)
    requires Answering(e, c) && e.mlbuf != "" && forall i :: i in items ==> ItemOk(m, c, i)
    requires |Assembled(e.mlbuf, items)| <= MLPARSE_BUF_SIZE
    ensures Run(m, e, ItemSteps(items)) == e.(mlbuf := Assembled(e.mlbuf, items))
    decreases |items|
  {
    if items != [] {
      var i := items[0];
      var steps := ItemSteps(items);
      assert steps[1..] == ItemSteps(items[1..]);
      assert ItemOk(m, c, i);
      ClassifyFirst(m, e.busy, i.line, steps[0].first);
      var text := if i.More? then e.mlbuf + "\n" + i.line else e.mlbuf;
      AssembledGrows(text, items[1..]);
      var e1 := Apply(m, e, steps[0]);
      assert e1 == e.(mlbuf := text);
      ItemsRun(m, e1, c, items[1..]);
    }
  }

  // what is the same before and after a record, whatever the callback submits
  ghost predicate Onward(e: Engine, s: Engine) {
    s.busy == e.busy && s.gone == e.gone && s.mlunsolicited == e.mlunsolicited
  }

  lemma HeadRun(m: Modem, e: Engine, c: Cmd, r: Record)
    requires Answering(e, c) && RecordOk(m, c, r)
    ensures var s := Apply(m, e, RecordSteps(r)[0]);
      && Onward(e, s) && s.mlbuf == r.head && r.head != ""
      && s.calls == e.calls + if e.mlbuf == "" then [] else [Call(c.id, c.ret, e.mlbuf)]
  {
    ClassifyFirst(m, e.busy, r.head, NoEntry);
    AssembledGrows(r.head, r.items);
  }

  lemma RecordRun(m: Modem, e: Engine, c: Cmd, r: Record)
    requires Answering(e, c) && RecordOk(m, c, r)
    ensures var s := Run(m, e, RecordSteps(r));
      && Onward(e, s) && s.mlbuf == Assemble(r) && s.mlbuf != ""
      && s.calls == e.calls + if e.mlbuf == "" then [] else [Call(c.id, c.ret, e.mlbuf)]
  {
    var s := RecordSteps(r);
    HeadRun(m, e, c, r);
    var e1 := Apply(m, e, s[0]);
    ItemsRun(m, e1, c, r.items);
    AssembledGrows(r.head, r.items);
    assert s[1..] == ItemSteps(r.items);
  }

  // the callbacks for the records of an answer: all but the last carry the code of a command
  // that is not finished
  function Calls(c: Cmd, rs: seq<Record>, lastRet: int): seq<Call> {
    seq(|rs|, i requires 0 <= i < |rs| => Call(c.id, if i == |rs| - 1 then lastRet else c.ret, Assemble(rs[i])))
  }

  lemma JoinCalls(before: seq<Call>, c: Cmd, rs: seq<Record>)
    requires |rs| >= 2
    ensures before + [Call(c.id, c.ret, Assemble(rs[0]))] + Calls(c, rs[1..], c.ret)[..|rs| - 2]
         == before + Calls(c, rs, c.ret)[..|rs| - 1]
  {
    assert Calls(c, rs, c.ret)[..|rs| - 1]
      == [Call(c.id, c.ret, Assemble(rs[0]))] + Calls(c, rs[1..], c.ret)[..|rs| - 2];
  }

  // the callbacks so far once s has been reached from e, all records of rs having been read
  ghost predicate RecordsRead(e: Engine, s: Engine, c: Cmd, rs: seq<Record>)
    requires rs != []
  {
    && Onward(e, s) && s.mlbuf == Assemble(rs[|rs| - 1]) && s.mlbuf != ""
    && s.calls == e.calls + (if e.mlbuf == "" then [] else [Call(c.id, c.ret, e.mlbuf)])
      + Calls(c, rs, c.ret)[..|rs| - 1]
  }

  lemma RecordsJoin(e: Engine, e1: Engine, s: Engine, c: Cmd, rs: seq<Record>)
    requires |rs| >= 2 && RecordsRead(e, e1, c, rs[..1]) && RecordsRead(e1, s, c, rs[1..])
    ensures RecordsRead(e, s, c, rs)
  {
    JoinCalls(e1.calls, c, rs);
    assert Calls(c, rs[..1], c.ret)[..0] == [];
  }

  lemma OneRecord(m: Modem, e: Engine, c: Cmd, r: Record)
    requires Answering(e, c) && RecordOk(m, c, r)
    ensures RecordsRead(e, Run(m, e, RecordSteps(r)), c, [r])
  {
    RecordRun(m, e, c, r);
    assert Calls(c, [r], c.ret)[..0] == [];
  }

  lemma {:induction false} RecordsRun(m: Modem, e: Engine, c: Cmd, rs: seq<Record>)
    requires Answering(e, c) && rs != [] && (forall r :: r in rs ==> RecordOk(m, c, r))
    ensures RecordsRead(e, Run(m, e, AnswerSteps(rs)), c, rs)
    decreases |rs|
  {
    OneRecord(m, e, c, rs[0]);
    RunSplit(m, e, RecordSteps(rs[0]), AnswerSteps(rs[1..]));
    var e1 := Run(m, e, RecordSteps(rs[0]));
    assert rs[..1] == [rs[0]];
    if |rs| == 1 {
      assert AnswerSteps(rs[1..]) == [] && rs == [rs[0]];
    } else {
      RecordsRun(m, e1, c, rs[1..]);
      RecordsJoin(e, e1, Run(m, e1, AnswerSteps(rs[1..])), c, rs);
    }
  }

  /** A command answered by k >= 1 records, each with continuation lines and with handled
      unsolicited codes in between, and then OK, gets exactly k callbacks in order, each with
      its own assembled record; the result code is 0 for the last and still unset for the
      others; then the command leaves the queue and the buffer is empty. */
  lemma AnswerCallbacks(m: Modem, e: Engine, c: Cmd, rs: seq<Record>, more: seq<Request>)
    requires Answering(e, c) && e.mlbuf == "" && rs != [] && (forall r :: r in rs ==> RecordOk(m, c, r))
    requires Classify(m, [c], "OK", NoEntry) == Final(true, 0)
    ensures var s := Run(m, e, AnswerSteps(rs) + [DoLine("OK", NoEntry, NoEntry, more)]);
      && s.calls == e.calls + Calls(c, rs, 0)
      && s.busy == e.busy[1..] && s.gone == e.gone + [c.(ret := 0)] && s.mlbuf == ""
  {
    RecordsRun(m, e, c, rs);
    RunSplit(m, e, AnswerSteps(rs), [DoLine("OK", NoEntry, NoEntry, more)]);
    var e1 := Run(m, e, AnswerSteps(rs));
    FinalOk(m, e1, c, more);
    LastCall(e.calls, c, rs);
  }

  lemma LastCall(before: seq<Call>, c: Cmd, rs: seq<Record>)
    requires rs != []
    ensures before + Calls(c, rs, c.ret)[..|rs| - 1] + [Call(c.id, 0, Assemble(rs[|rs| - 1]))]
         == before + Calls(c, rs, 0)
  {
    assert Calls(c, rs, 0) == Calls(c, rs, c.ret)[..|rs| - 1] + [Call(c.id, 0, Assemble(rs[|rs| - 1]))];
  }

  // the final result hands the last record over
  lemma FinalOk(m: Modem, e: Engine, c: Cmd, more: seq<Request>)
    requires Answering(e, c) && e.mlbuf != "" && Classify(m, [c], "OK", NoEntry) == Final(true, 0)
    ensures var s := Run(m, e, [DoLine("OK", NoEntry, NoEntry, more)]);
      && s.calls == e.calls + [Call(c.id, 0, e.mlbuf)]
      && s.busy == e.busy[1..] && s.gone == e.gone + [c.(ret := 0)] && s.mlbuf == ""
  {
    ClassifyFirst(m, e.busy, "OK", NoEntry);
    var s := Apply(m, e, DoLine("OK", NoEntry, NoEntry, more));
    assert s == Done(SetRet(e, 0), "OK", more);
    assert Run(m, s, []) == s;
  }

  // sms_list_cb: the entry of a message list is marked as the last one by the result code
  predicate IsLast(call: Call) { call.ret == 0 }

  // the callbacks made between two states
  ghost predicate Made(e: Engine, s: Engine, calls: seq<Call>) { s.calls == e.calls + calls }

  /** In every reachable state that is: after any run, the k callbacks that the answer makes carry
      -255 for all records but the last and 0 for the last, so that exactly the last entry of a
      message list is marked as the last. */
  lemma OnlyLastMarked(m: Modem, before: seq<Step>, c: Cmd, rs: seq<Record>, more: seq<Request>)
        returns (calls: seq<Call>)
    requires var e := Run(m, INITIAL, before); Answering(e, c) && e.mlbuf == ""
    requires rs != [] && (forall r :: r in rs ==> RecordOk(m, c, r))
    requires Classify(m, [c], "OK", NoEntry) == Final(true, 0)
    ensures var e := Run(m, INITIAL, before);
      Made(e, Run(m, e, AnswerSteps(rs) + [DoLine("OK", NoEntry, NoEntry, more)]), calls) && |calls| == |rs|
    ensures forall i :: 0 <= i < |rs| ==>
      && calls[i] == Call(c.id, if i == |rs| - 1 then 0 else -255, Assemble(rs[i]))
      && (IsLast(calls[i]) <==> i == |rs| - 1)
  {
    var e := Run(m, INITIAL, before);
    InitialState();
    NoEarlyResult(m, INITIAL, before);
    assert c in e.busy;
    AnswerCallbacks(m, e, c, rs, more);
    calls := Calls(c, rs, 0);
  }

  /** A line that repeats the name of an extended command up to a colon starts a record of its
      answer, whatever unsolicited codes are known. */
  lemma HeadLine(m: Modem, c: Cmd, name: string, rest: string, v: Verdict)
    requires |c.text| >= 2 + |name| && c.text[2..2 + |name|] == name
    requires name != "" && Extended(m, name[0]) && ':' !in name && NUL !in name
    requires var line := name + ":" + rest;
      line != c.text && !StartsAt(line, 1, "CME ERROR") && !StartsAt(line, 1, "CMS ERROR")
    requires name + ":" + rest != "AT-Command Interpreter ready"
    ensures Classify(m, [c], name + ":" + rest, v) == Info(true)
  {
    var line := name + ":" + rest;
    ColonAt(name, ":" + rest);
    assert name + (":" + rest) == line;
    assert line[..|name|] == name;
  }

  lemma {:induction false} ColonAt(name: string, rest: string)
    requires ':' !in name && NUL !in name && rest != "" && rest[0] == ':'
    ensures StrChr(name + rest, ':') == |name|
    decreases |name|
  {
    if name == "" {
      assert name + rest == rest;
    } else {
      assert (name + rest)[1..] == name[1..] + rest;
      ColonAt(name[1..], rest);
    }
  }

  // ---------------------------------------------------------------- from bytes to callbacks

  // the answers of the environment that go with a line
  datatype Reply = Reply(first: Verdict, again: Verdict, more: seq<Request>)

  // the callbacks of the line parser drive the engine
  function Deliver(m: Modem, e: Engine, events: seq<LineParser.Event>, replies: seq<Reply>): Engine
    requires |replies| == |events|
    decreases |events|
  {
    if events == [] then e
    else
      var e1 := match events[0]
        case PromptSeen => PromptSeen(e)
        case LineSeen(text) => MlParse(m, e, text, replies[0].first, replies[0].again, replies[0].more);
      Deliver(m, e1, events[1..], replies[1..])
  }

  function LinesOf(steps: seq<Step>): seq<string>
    requires forall s :: s in steps ==> s.DoLine?
  {
    seq(|steps|, i requires 0 <= i < |steps| => assert steps[i] in steps; steps[i].line)
  }

  function RepliesOf(steps: seq<Step>): seq<Reply>
    requires forall s :: s in steps ==> s.DoLine?
  {
    seq(|steps|, i requires 0 <= i < |steps| =>
      assert steps[i] in steps; Reply(steps[i].first, steps[i].again, steps[i].more))
  }

  lemma {:induction false} DeliverLines(m: Modem, e: Engine, steps: seq<Step>)
    requires forall s :: s in steps ==> s.DoLine?
    ensures |LineParser.Seen(LinesOf(steps))| == |RepliesOf(steps)|
    ensures Deliver(m, e, LineParser.Seen(LinesOf(steps)), RepliesOf(steps)) == Run(m, e, steps)
    decreases |steps|
  {
    if steps != [] {
      assert steps[0] in steps;
      assert LineParser.Seen(LinesOf(steps))[1..] == LineParser.Seen(LinesOf(steps[1..]));
      assert RepliesOf(steps)[1..] == RepliesOf(steps[1..]);
      DeliverLines(m, Apply(m, e, steps[0]), steps[1..]);
    }
  }

  /** Framed lines that arrive over the wire in reads of any size drive the engine exactly as
      the lines themselves would. */
  lemma WireToEngine(m: Modem, e: Engine, steps: seq<Step>, chunks: seq<string>)
    requires forall s :: s in steps ==> s.DoLine?
    requires forall t :: t in LinesOf(steps) ==> LineParser.Sendable(t)
    requires LineParser.Concat(chunks) == LineParser.FrameAll(LinesOf(steps))
    ensures var o := LineParser.FeedAll(LineParser.EXTENDED, LineParser.Line(LineParser.Idle, ""), chunks);
      && o.ok && o.line == LineParser.Line(LineParser.Idle, "")
      && |o.events| == |RepliesOf(steps)| && Deliver(m, e, o.events, RepliesOf(steps)) == Run(m, e, steps)
  {
    LineParser.ChunkedFraming(LinesOf(steps), chunks);
    DeliverLines(m, e, steps);
  }
}
