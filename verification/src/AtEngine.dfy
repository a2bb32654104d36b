/** The AT command engine as a state machine: the queues of commands waiting to be sent and
    waiting for their answers, the write-interest flag, the wake-up command and its timer, and
    the assembly of multi-line answers. */
module AtEngine {

  const MLPARSE_BUF_SIZE: nat := 65535
  const NUL: char := '\0'

  // What a command's callback is: none, null_wakeup_cb, or one of the user's.
  datatype Cb = NoCb | WakeCb | UserCb

  // struct gsmd_atcmd: `sent` is the offset of cur in the NUL-terminated text
  datatype Cmd = Cmd(id: nat, text: string, sent: nat, ret: int, cb: Cb)

  // a callback invocation: which command, its result code at that time, and the answer text
  datatype Call = Call(id: nat, ret: int, resp: string)

  // what a callback may submit in its turn
  datatype Request = Request(text: string, cb: Cb)

  // the answer of unsolicited_parse: -EAGAIN, -ENOENT, or anything else
  datatype Verdict = Again | NoEntry | Handled

  datatype Modem = Modem(v0: bool, extChars: string)

  // `next` numbers the commands in the order of submission; `calls`, `gone` and `wire` record
  // the callbacks made, the commands that have left the queues, and the bytes written.
  datatype Engine = Engine(
    pending: seq<Cmd>, busy: seq<Cmd>, write: bool, timer: bool, ready: bool,
    mlbuf: string, mlunsolicited: bool,
    next: nat, calls: seq<Call>, gone: seq<Cmd>, wire: string)

  const INITIAL := Engine([], [], false, false, false, "", false, 0, [], [], "")

  // ---------------------------------------------------------------- submitting

  const UNANSWERED: int := -255

  // atcmd_wakeup_modem: the wake-up command " " goes ahead of the next command unless its
  // timer is running
  function WakeModem(e: Engine): Engine {
    if e.timer then e
    else e.(timer := true,
            write := e.write || e.pending == [],
            pending := e.pending + [Cmd(e.next, " ", 0, UNANSWERED, WakeCb)],
            next := e.next + 1)
  }

  // llist_add_tail and the test around it in atcmd_submit
  function Enqueue(e: Engine, r: Request): Engine {
    e.(pending := e.pending + [Cmd(e.next, r.text, 0, UNANSWERED, r.cb)],
       write := e.write || e.pending == [],
       next := e.next + 1)
  }

  // atcmd_submit
  function Submit(e: Engine, r: Request): Engine {
    Enqueue(WakeModem(e), r)
  }

  function SubmitAll(e: Engine, rs: seq<Request>): (s: Engine)
    ensures s.busy == e.busy && s.calls == e.calls && s.gone == e.gone
    ensures s.mlbuf == e.mlbuf && s.mlunsolicited == e.mlunsolicited
    ensures e.pending <= s.pending && (e.write ==> s.write)
    decreases |rs|
  {
    if rs == [] then e else SubmitAll(Submit(e, rs[0]), rs[1..])
  }

  // ---------------------------------------------------------------- sending

  // strchr: the position of c before the terminator, or the length when there is none
  function StrChr(s: string, c: char): (i: nat)
    ensures i <= |s|
    ensures i < |s| ==> s[i] == c && c !in s[..i]
    ensures i == |s| ==> c !in s || NUL in s
  {
    if s == [] then 0
    else if s[0] == c then 0
    else if s[0] == NUL then |s|
    else 1 + StrChr(s[1..], c)
  }

  // the next line of a command that is not sent yet
  function NextLine(c: Cmd): string
    requires c.sent <= |c.text|
  {
    c.text[c.sent..][..StrChr(c.text[c.sent..], '\n')]
  }

  // The command after its next line has been written; past its terminator it is sent.
  function Advance(c: Cmd): Cmd
    requires c.sent <= |c.text|
  {
    c.(sent := c.sent + |NextLine(c)| + 1)
  }

  predicate Unsent(c: Cmd) { c.sent <= |c.text| }

  // The write half of atcmd_select_cb; a write of nothing returns 0 and is given up.
  function WriteReady(e: Engine): Engine {
    if !e.write || !e.ready then e
    else if e.pending == [] || !Unsent(e.pending[0]) || NextLine(e.pending[0]) == "" then e.(write := false)
    else
      var c := Advance(e.pending[0]);
      var w := e.(write := false, wire := e.wire + NextLine(e.pending[0]) + "\r");
      if Unsent(c) then w.(pending := [c] + e.pending[1..])
      else w.(pending := e.pending[1..], busy := e.busy + [c])
  }

  // atcmd_prompt
  function PromptSeen(e: Engine): Engine { e.(write := true) }

  // ---------------------------------------------------------------- answers

  // what calling a command's callback does to the engine
  function Callback(e: Engine, c: Cmd, resp: string, more: seq<Request>): Engine {
    match c.cb
    case NoCb => e
    case WakeCb => e.(timer := false, calls := e.calls + [Call(c.id, c.ret, resp)])
    case UserCb => SubmitAll(e.(calls := e.calls + [Call(c.id, c.ret, resp)]), more)
  }

  // the end of atcmd_done and of wakeup_timeout: the first busy command leaves
  function Retire(e: Engine): Engine
    requires e.busy != []
  {
    var rest := e.busy[1..];
    e.(busy := rest, gone := e.gone + [e.busy[0]], write := e.write || (rest == [] && e.pending != []))
  }

  // atcmd_done for the first busy command
  function Done(e: Engine, buf: string, more: seq<Request>): Engine
    requires e.busy != []
  {
    var c := e.busy[0];
    if c.cb == NoCb then Retire(e)
    else
      Retire(Callback(e, c, if e.mlbuf != "" then e.mlbuf else buf, more).(mlbuf := ""))
  }

  function SetRet(e: Engine, ret: int): Engine {
    if e.busy == [] then e else e.(busy := [e.busy[0].(ret := ret)] + e.busy[1..])
  }

  function Finish(e: Engine, buf: string, more: seq<Request>): Engine {
    if e.busy == [] then e else Done(e, buf, more)
  }

  // the line is added to the answer collected so far, as far as the buffer goes
  function Collect(mlbuf: string, line: string): string {
    var m := if mlbuf != "" then mlbuf + "\n" else mlbuf;
    var room := MLPARSE_BUF_SIZE - |m|;
    if |line| <= room then m + line else if room > 0 then m + line[..room] else m
  }

  // the end of ml_parse, where an information response is kept
  function Keep(e: Engine, line: string, again: Verdict): Engine {
    var e1 := e.(mlbuf := Collect(e.mlbuf, line));
    if e1.mlunsolicited && again != Again then e1.(mlunsolicited := false, mlbuf := "") else e1
  }

  predicate Extended(m: Modem, c: char) { c == '+' || c in m.extChars }

  // strchr also finds the terminator, so a command of two characters passes for an extended one
  predicate ExtendedCmd(m: Modem, text: string) {
    |text| == 2 || (|text| > 2 && (Extended(m, text[2]) || text[2] == NUL))
  }

  // strncmp(buf, &cmd->buf[2], colon - buf) == 0
  predicate Answers(line: string, colon: nat, text: string)
    requires colon <= |line|
  {
    |text| >= 2 + colon && text[2..2 + colon] == line[..colon]
  }

  predicate StartsAt(s: string, i: nat, p: string) {
    i + |p| <= |s| && s[i..i + |p|] == p
  }

  predicate Digit(c: char) { '0' <= c <= '9' }

  // strtoul in base 10 on an unsigned number
  function Number(s: string): nat {
    if s != [] && s[0] == ' ' then Number(s[1..]) else Digits(s, 0)
  }

  function Digits(s: string, n: nat): nat
    decreases |s|
  {
    if s != [] && Digit(s[0]) then Digits(s[1..], 10 * n + (s[0] as int - '0' as int)) else n
  }

  // What a line is: the interpreter's greeting, something to drop, the final result of the
  // first busy command (which may set its result code), the start of a multi-line unsolicited
  // code, or information to be kept, before which a record already collected may be complete.
  datatype Kind =
    | Greeting
    | Dropped
    | Final(sets: bool, ret: int)
    | Multiline
    | Info(completes: bool)

  // The case distinction of ml_parse. `first` is the answer of unsolicited_parse on the line.
  function Classify(m: Modem, busy: seq<Cmd>, line: string, first: Verdict): Kind {
    if line == "" || line == "AT-Command Interpreter ready" then Greeting
    else if busy != [] && line == busy[0].text then Dropped
    else if Extended(m, line[0]) then ClassifyExtended(m, busy, line, first)
    else if line == "RING" || (m.v0 && line[0] == '2') then Dropped
    else if line == "ERROR" || (m.v0 && line[0] == '4') then Final(true, 4)
    else if StartsAt(line, 0, "OK") || (m.v0 && line[0] == '0') then Final(true, 0)
    else if line == "NO CARRIER" || (m.v0 && line[0] == '3') then Final(false, 0)
    else if StartsAt(line, 0, "BUSY") || (m.v0 && line[0] == '7') then Final(false, 0)
    else Info(false)
  }

  function ClassifyExtended(m: Modem, busy: seq<Cmd>, line: string, first: Verdict): Kind {
    var colon := StrChr(line, ':');
    if colon == |line| then Dropped
    else if StartsAt(line, 1, "CME ERROR") || StartsAt(line, 1, "CMS ERROR") then Final(true, Number(line[colon + 1..]))
    else
      var foreign := busy == [] || !Answers(line, colon, busy[0].text);
      if foreign && first == Again then Multiline
      else if foreign && first == Handled then Dropped
      else if busy == [] then Info(false)
      else if !ExtendedCmd(m, busy[0].text) then Dropped
      else Info(true)
  }

  // ml_parse. `again` is the answer of unsolicited_parse on the collected lines; `more` is what
  // a callback submits.
  function MlParse(m: Modem, e: Engine, line: string, first: Verdict, again: Verdict, more: seq<Request>): Engine {
    Act(e, Classify(m, e.busy, line, first), line, again, more)
  }

  // what ml_parse does with a line of each kind
  function Act(e: Engine, k: Kind, line: string, again: Verdict, more: seq<Request>): Engine {
    if k.Info? then Keep(BeforeKeep(e, k, line, more), line, again) else BeforeKeep(e, k, line, more)
  }

  // the same up to the point where the line is kept
  function BeforeKeep(e: Engine, k: Kind, line: string, more: seq<Request>): Engine {
    match k
    case Greeting => SubmitAll(e.(ready := true), more)
    case Dropped => e
    case Final(sets, ret) => Finish(if sets then SetRet(e, ret) else e, line, more)
    case Multiline => e.(mlbuf := line, mlunsolicited := true)
    case Info(completes) => if completes && e.busy != [] then Flush(e, more) else e
  }

  // a record collected before the next extended line is handed to the callback
  function Flush(e: Engine, more: seq<Request>): Engine
    requires e.busy != []
  {
    if e.mlbuf == "" then e else Callback(e, e.busy[0], e.mlbuf, more).(mlbuf := "")
  }

  // ---------------------------------------------------------------- time-out and cancellation

  // wakeup_timeout: only the wake-up command is discarded
  function WakeTimeout(e: Engine): Engine {
    if !e.timer then e
    else
      var e1 := e.(timer := false);
      if e1.busy != [] && e1.busy[0].text != "" && e1.busy[0].text[0] == ' ' then Retire(e1) else e1
  }

  // cancel_atcmd
  function Cancel(e: Engine, r: Request, more: seq<Request>): Engine {
    if e.busy == [] then Submit(e, r)
    else
      var e1 := e.(mlbuf := "",
                   pending := [Cmd(e.next, r.text, 0, UNANSWERED, r.cb)] + e.pending,
                   next := e.next + 1);
      Done(e1, "OK", more)
  }

  // ---------------------------------------------------------------- runs

  datatype Step =
    | DoSubmit(r: Request)
    | DoWrite
    | DoPrompt
    | DoLine(line: string, first: Verdict, again: Verdict, more: seq<Request>)
    | DoTimeout
    | DoCancel(r: Request, more: seq<Request>)

  function Apply(m: Modem, e: Engine, s: Step): Engine {
    match s
    case DoSubmit(r) => Submit(e, r)
    case DoWrite => WriteReady(e)
    case DoPrompt => PromptSeen(e)
    case DoLine(line, first, again, more) => MlParse(m, e, line, first, again, more)
    case DoTimeout => WakeTimeout(e)
    case DoCancel(r, more) => Cancel(e, r, more)
  }

  function Run(m: Modem, e: Engine, steps: seq<Step>): Engine
    decreases |steps|
  {
    if steps == [] then e else Run(m, Apply(m, e, steps[0]), steps[1..])
  }

  lemma {:induction false} RunSplit(m: Modem, e: Engine, a: seq<Step>, b: seq<Step>)
    ensures Run(m, e, a + b) == Run(m, Run(m, e, a), b)
    decreases |a|
  {
    if a == [] {
      assert a + b == b;
    } else {
      assert (a + b)[0] == a[0] && (a + b)[1..] == a[1..] + b;
      RunSplit(m, Apply(m, e, a[0]), a[1..], b);
    }
  }

  // ---------------------------------------------------------------- invariants

  function Ids(cs: seq<Cmd>): seq<nat> {
    seq(|cs|, i requires 0 <= i < |cs| => cs[i].id)
  }

  function UpTo(n: nat): seq<nat> {
    seq(n, i => i)
  }

  // every command there ever was, in the order gone, busy, pending
  function Everyone(e: Engine): seq<nat> {
    Ids(e.gone) + Ids(e.busy) + Ids(e.pending)
  }

  // a command whose next line is empty can not be written
  predicate Stuck(c: Cmd) { Unsent(c) && NextLine(c) == "" }

  predicate Sending(c: Cmd) { 0 < c.sent }

  // commands wait only for a reason: for an answer, for the line to the modem, because the first
  // of them waits for its prompt, or because it begins with a line that can not be written
  predicate Awake(e: Engine) {
    e.pending != [] && e.busy == [] ==> e.write || Sending(e.pending[0]) || Stuck(e.pending[0])
  }

  ghost predicate Sound(e: Engine) {
    && (forall c :: c in e.pending ==> Unsent(c))
    && (forall c :: c in e.busy ==> !Unsent(c))
    && Awake(e)
  }

  lemma SubmitSound(e: Engine, r: Request)
    requires Sound(e)
    ensures Sound(Submit(e, r))
  {
  }

  lemma {:induction false} SubmitAllSound(e: Engine, rs: seq<Request>)
    requires Sound(e)
    ensures Sound(SubmitAll(e, rs))
    decreases |rs|
  {
    if rs != [] {
      SubmitSound(e, rs[0]);
      SubmitAllSound(Submit(e, rs[0]), rs[1..]);
    }
  }

  lemma CallbackSound(e: Engine, c: Cmd, resp: string, more: seq<Request>)
    requires Sound(e)
    ensures Sound(Callback(e, c, resp, more))
    ensures Callback(e, c, resp, more).busy == e.busy && Callback(e, c, resp, more).gone == e.gone
  {
    if c.cb == UserCb { SubmitAllSound(e.(calls := e.calls + [Call(c.id, c.ret, resp)]), more); }
  }

  lemma DoneSound(e: Engine, buf: string, more: seq<Request>)
    requires e.busy != [] && (forall c :: c in e.pending ==> Unsent(c)) && (forall c :: c in e.busy ==> !Unsent(c))
    ensures Sound(Done(e, buf, more))
  {
    CallbackSound(e, e.busy[0], if e.mlbuf != "" then e.mlbuf else buf, more);
  }

  lemma WriteSound(e: Engine)
    requires Sound(e)
    ensures Sound(WriteReady(e))
  {
    var w := WriteReady(e);
    if w != e && e.pending != [] {
      var c := e.pending[0];
      if NextLine(c) == "" {
        assert c in w.pending && Stuck(c);
      } else if Unsent(Advance(c)) {
        assert Advance(c) in w.pending && Sending(Advance(c));
        forall d | d in w.pending ensures Unsent(d) {
          if d != Advance(c) { assert d in e.pending; }
        }
      } else {
        assert Advance(c) in w.busy;
      }
    }
  }

  lemma LineSound(e: Engine, k: Kind, line: string, again: Verdict, more: seq<Request>)
    requires Sound(e)
    ensures Sound(Act(e, k, line, again, more))
  {
    match k
    case Greeting => SubmitAllSound(e.(ready := true), more);
    case Dropped =>
    case Final(sets, ret) =>
      var e1 := if sets then SetRet(e, ret) else e;
      if e1.busy != [] {
        forall c | c in e1.busy ensures !Unsent(c) { assert e.busy[0] in e.busy; }
        DoneSound(e1, line, more);
      }
    case Multiline =>
    case Info(completes) =>
      if e.busy != [] { CallbackSound(e, e.busy[0], e.mlbuf, more); }
  }

  lemma StepSound(m: Modem, e: Engine, s: Step)
    requires Sound(e)
    ensures Sound(Apply(m, e, s))
  {
    match s
    case DoSubmit(r) => SubmitSound(e, r);
    case DoWrite => WriteSound(e);
    case DoPrompt =>
    case DoLine(line, first, again, more) => LineSound(e, Classify(m, e.busy, line, first), line, again, more);
    case DoTimeout =>
    case DoCancel(r, more) =>
      if e.busy == [] {
        SubmitSound(e, r);
      } else {
        var c := Cmd(e.next, r.text, 0, UNANSWERED, r.cb);
        DoneSound(e.(mlbuf := "", pending := [c] + e.pending, next := e.next + 1), "OK", more);
      }
  }

  /** No wake-up is ever lost: in every state a run can reach, when commands wait and none is
      being answered, the engine asks to write, or the first command is partly sent and waits for
      its prompt, or the first command begins with a line of no characters, which no write can
      take. */
  lemma {:induction false} NoLostWakeup(m: Modem, e: Engine, steps: seq<Step>)
    requires Sound(e)
    ensures Sound(Run(m, e, steps))
    decreases |steps|
  {
    if steps != [] {
      StepSound(m, e, steps[0]);
      NoLostWakeup(m, Apply(m, e, steps[0]), steps[1..]);
    }
  }

  // commands wait, and neither write interest nor an answer is outstanding, nor a prompt that
  // would help
  predicate Stalled(e: Engine) {
    e.pending != [] && e.busy == [] && !e.write && (!Sending(e.pending[0]) || Stuck(e.pending[0]))
  }

  /** A write stalls the engine exactly when nothing is being answered and the next line of the
      first command is empty, or the one after the line that it writes. */
  lemma StallsIff(e: Engine)
    requires Sound(e) && e.write && e.ready && e.pending != []
    ensures Stalled(WriteReady(e)) <==>
      e.busy == [] && (Stuck(e.pending[0]) || (Unsent(e.pending[0]) && Stuck(Advance(e.pending[0]))))
  {
    assert e.pending[0] in e.pending;
  }

  // the first command can not be written, and nothing is being answered
  predicate Blocked(e: Engine) {
    e.pending != [] && e.busy == [] && Stuck(e.pending[0])
  }

  /** Such a command blocks the engine for good: whatever happens, writes, prompts, time-outs and
      cancellations included, no byte is written and no command completes any more. */
  lemma {:induction false} BlockedForever(m: Modem, e: Engine, steps: seq<Step>)
    requires Blocked(e)
    ensures var s := Run(m, e, steps);
      Blocked(s) && s.pending[0] == e.pending[0] && s.wire == e.wire && s.gone == e.gone
    decreases |steps|
  {
    if steps != [] {
      BlockedStep(m, e, steps[0]);
      BlockedForever(m, Apply(m, e, steps[0]), steps[1..]);
    }
  }

  lemma BlockedStep(m: Modem, e: Engine, s: Step)
    requires Blocked(e)
    ensures var t := Apply(m, e, s);
      Blocked(t) && t.pending[0] == e.pending[0] && t.wire == e.wire && t.gone == e.gone
  {
    match s
    case DoLine(line, first, again, more) =>
      match Classify(m, e.busy, line, first) {
        case Greeting => SubmitAllWired(e.(ready := true), more);
        case _ =>
      }
    case _ =>
  }

  lemma {:induction false} SubmitAllWired(e: Engine, rs: seq<Request>)
    ensures SubmitAll(e, rs).wire == e.wire
    decreases |rs|
  {
    if rs != [] { SubmitAllWired(Submit(e, rs[0]), rs[1..]); }
  }

  /** It happens: a command that is only a line feed, submitted to a modem that is ready, stays
      where it is once the wake-up command has timed out. */
  lemma EmptyLineStalls(m: Modem)
    ensures Stalled(Run(m, INITIAL, [DoLine("", NoEntry, NoEntry, []),
      DoSubmit(Request("\n", UserCb)), DoWrite, DoTimeout, DoWrite]))
  {
  }

  // ---------------------------------------------------------------- the answer buffer

  // there is room for a line feed or a terminator behind what is collected
  predicate Room(e: Engine) { |e.mlbuf| < MLPARSE_BUF_SIZE }

  // the line, and a line feed before it if need be, leave room behind what is collected
  predicate Appendable(mlbuf: string, line: string) {
    |mlbuf| + (if mlbuf == "" then 0 else 1) + |line| < MLPARSE_BUF_SIZE
  }

  // what is kept of a line leaves room in the buffer
  predicate KindFits(e: Engine, k: Kind, line: string, again: Verdict) {
    match k
    case Multiline => |line| < MLPARSE_BUF_SIZE
    case Info(completes) =>
      || (e.mlunsolicited && again != Again)
      || Appendable(if completes && e.busy != [] then "" else e.mlbuf, line)
    case _ => true
  }

  predicate Fits(m: Modem, e: Engine, s: Step) {
    s.DoLine? ==> KindFits(e, Classify(m, e.busy, s.line, s.first), s.line, s.again)
  }

  /** The buffer keeps room exactly when the line fits: an answer one character longer fills it. */
  lemma RoomKeptIff(m: Modem, e: Engine, s: Step)
    requires Room(e)
    ensures Room(Apply(m, e, s)) <==> Fits(m, e, s)
  {
    if s.DoLine? { KindRoom(e, Classify(m, e.busy, s.line, s.first), s.line, s.again, s.more); }
  }

  lemma KindRoom(e: Engine, k: Kind, line: string, again: Verdict, more: seq<Request>)
    requires Room(e)
    ensures Room(Act(e, k, line, again, more)) <==> KindFits(e, k, line, again)
  {
    if k.Info? {
      KeepRoom(if k.completes && e.busy != [] then Flush(e, more) else e, line, again);
    }
  }

  lemma KeepRoom(e: Engine, line: string, again: Verdict)
    requires Room(e)
    ensures Room(Keep(e, line, again)) <==> (e.mlunsolicited && again != Again) || Appendable(e.mlbuf, line)
  {
  }

  // ---------------------------------------------------------------- result codes

  predicate NoResults(cs: seq<Cmd>) {
    forall c :: c in cs ==> c.ret == UNANSWERED
  }

  // no command in a queue has a result code yet
  predicate Unanswered(e: Engine) { NoResults(e.pending) && NoResults(e.busy) }

  lemma {:induction false} SubmitAllUnanswered(e: Engine, rs: seq<Request>)
    requires Unanswered(e)
    ensures Unanswered(SubmitAll(e, rs))
    decreases |rs|
  {
    if rs != [] { SubmitAllUnanswered(Submit(e, rs[0]), rs[1..]); }
  }

  lemma CallbackUnanswered(e: Engine, c: Cmd, resp: string, more: seq<Request>)
    requires NoResults(e.pending)
    ensures NoResults(Callback(e, c, resp, more).pending) && Callback(e, c, resp, more).busy == e.busy
  {
    var e1 := e.(calls := e.calls + [Call(c.id, c.ret, resp)]);
    if c.cb == UserCb {
      SubmitAllUnanswered(e1.(busy := []), more);
      SubmitAllBusy(e1, [], more);
    }
  }

  // submitting does not look at the busy commands
  lemma {:induction false} SubmitAllBusy(e: Engine, busy: seq<Cmd>, rs: seq<Request>)
    ensures SubmitAll(e.(busy := busy), rs).pending == SubmitAll(e, rs).pending
    decreases |rs|
  {
    if rs != [] {
      assert Submit(e.(busy := busy), rs[0]) == Submit(e, rs[0]).(busy := busy);
      SubmitAllBusy(Submit(e, rs[0]), busy, rs[1..]);
    }
  }

  lemma DoneUnanswered(e: Engine, buf: string, more: seq<Request>)
    requires NoResults(e.pending) && e.busy != [] && NoResults(e.busy[1..])
    ensures Unanswered(Done(e, buf, more))
  {
    CallbackUnanswered(e, e.busy[0], if e.mlbuf != "" then e.mlbuf else buf, more);
  }

  lemma WriteUnanswered(e: Engine)
    requires Unanswered(e)
    ensures Unanswered(WriteReady(e))
  {
    if e.pending != [] { assert e.pending[0] in e.pending; }
  }

  lemma FinalUnanswered(e: Engine, sets: bool, ret: int, line: string, more: seq<Request>)
    requires Unanswered(e)
    ensures Unanswered(Finish(if sets then SetRet(e, ret) else e, line, more))
  {
    var e1 := if sets then SetRet(e, ret) else e;
    if e1.busy != [] {
      assert e1.busy[1..] == e.busy[1..];
      DoneUnanswered(e1, line, more);
    }
  }

  lemma LineUnanswered(e: Engine, k: Kind, line: string, again: Verdict, more: seq<Request>)
    requires Unanswered(e)
    ensures Unanswered(Act(e, k, line, again, more))
  {
    match k
    case Greeting => SubmitAllUnanswered(e.(ready := true), more);
    case Final(sets, ret) => FinalUnanswered(e, sets, ret, line, more);
    case Info(_) => if e.busy != [] { CallbackUnanswered(e, e.busy[0], e.mlbuf, more); }
    case _ =>
  }

  lemma StepUnanswered(m: Modem, e: Engine, s: Step)
    requires Unanswered(e)
    ensures Unanswered(Apply(m, e, s))
  {
    match s
    case DoWrite => WriteUnanswered(e);
    case DoLine(line, first, again, more) => LineUnanswered(e, Classify(m, e.busy, line, first), line, again, more);
    case DoCancel(r, more) =>
      if e.busy != [] {
        var c := Cmd(e.next, r.text, 0, UNANSWERED, r.cb);
        DoneUnanswered(e.(mlbuf := "", pending := [c] + e.pending, next := e.next + 1), "OK", more);
      }
    case _ =>
  }

  /** A command has no result code before its final one: in every state of every run the commands
      in the queues carry -255. */
  lemma {:induction false} NoEarlyResult(m: Modem, e: Engine, steps: seq<Step>)
    requires Unanswered(e)
    ensures Unanswered(Run(m, e, steps))
    decreases |steps|
  {
    if steps != [] {
      StepUnanswered(m, e, steps[0]);
      NoEarlyResult(m, Apply(m, e, steps[0]), steps[1..]);
    }
  }

  // ---------------------------------------------------------------- order and conservation

  ghost predicate InOrder(e: Engine) { Everyone(e) == UpTo(e.next) }

  lemma IdsConcat(a: seq<Cmd>, b: seq<Cmd>)
    ensures Ids(a + b) == Ids(a) + Ids(b)
  {
  }

  // what a submission, or any number of them, does to the list of everyone
  ghost predicate Appends(e: Engine, s: Engine) {
    s.next >= e.next && Everyone(s) == Everyone(e) + seq(s.next - e.next, i => e.next + i)
  }

  lemma AppendsTrans(a: Engine, b: Engine, c: Engine)
    requires Appends(a, b) && Appends(b, c)
    ensures Appends(a, c)
  {
  }

  lemma SubmitAppends(e: Engine, r: Request)
    ensures Appends(e, Submit(e, r))
  {
    var w := WakeModem(e);
    var s := Submit(e, r);
    if !e.timer { IdsConcat(e.pending, [Cmd(e.next, " ", 0, UNANSWERED, WakeCb)]); }
    IdsConcat(w.pending, [Cmd(w.next, r.text, 0, UNANSWERED, r.cb)]);
  }

  lemma {:induction false} SubmitAllAppends(e: Engine, rs: seq<Request>)
    ensures Appends(e, SubmitAll(e, rs))
    decreases |rs|
  {
    if rs != [] {
      SubmitAppends(e, rs[0]);
      SubmitAllAppends(Submit(e, rs[0]), rs[1..]);
      AppendsTrans(e, Submit(e, rs[0]), SubmitAll(e, rs));
    }
  }

  lemma CallbackAppends(e: Engine, c: Cmd, resp: string, more: seq<Request>)
    ensures Appends(e, Callback(e, c, resp, more))
    ensures Callback(e, c, resp, more).busy == e.busy
  {
    if c.cb == UserCb { SubmitAllAppends(e.(calls := e.calls + [Call(c.id, c.ret, resp)]), more); }
  }

  lemma RetireSame(e: Engine)
    requires e.busy != []
    ensures Everyone(Retire(e)) == Everyone(e) && Retire(e).next == e.next
  {
    assert e.busy == [e.busy[0]] + e.busy[1..];
    IdsConcat([e.busy[0]], e.busy[1..]);
    IdsConcat(e.gone, [e.busy[0]]);
  }

  lemma DoneAppends(e: Engine, buf: string, more: seq<Request>)
    requires e.busy != []
    ensures Appends(e, Done(e, buf, more))
  {
    var c := e.busy[0];
    if c.cb == NoCb {
      RetireSame(e);
    } else {
      var resp := if e.mlbuf != "" then e.mlbuf else buf;
      CallbackAppends(e, c, resp, more);
      RetireSame(Callback(e, c, resp, more).(mlbuf := ""));
    }
  }

  lemma SetRetSame(e: Engine, ret: int)
    ensures Everyone(SetRet(e, ret)) == Everyone(e) && SetRet(e, ret).next == e.next
    ensures SetRet(e, ret).busy == [] <==> e.busy == []
  {
  }

  lemma LineAppends(e: Engine, k: Kind, line: string, again: Verdict, more: seq<Request>)
    ensures Appends(e, Act(e, k, line, again, more))
  {
    match k
    case Greeting => SubmitAllAppends(e.(ready := true), more);
    case Dropped =>
    case Final(sets, ret) =>
      FinalAppends(e, sets, ret, line, more);
    case Multiline =>
    case Info(completes) =>
      InfoAppends(e, completes, line, again, more);
  }

  lemma FinalAppends(e: Engine, sets: bool, ret: int, line: string, more: seq<Request>)
    ensures Appends(e, Finish(if sets then SetRet(e, ret) else e, line, more))
  {
    SetRetSame(e, ret);
    var e1 := if sets then SetRet(e, ret) else e;
    if e1.busy != [] { DoneAppends(e1, line, more); }
  }

  lemma InfoAppends(e: Engine, completes: bool, line: string, again: Verdict, more: seq<Request>)
    ensures Appends(e, Keep(if completes && e.busy != [] then Flush(e, more) else e, line, again))
  {
    if e.busy != [] {
      CallbackAppends(e, e.busy[0], e.mlbuf, more);
      SameQueues(Callback(e, e.busy[0], e.mlbuf, more), Flush(e, more));
    }
    var f := if completes && e.busy != [] then Flush(e, more) else e;
    SameQueues(f, Keep(f, line, again));
  }

  lemma SameQueues(a: Engine, b: Engine)
    ensures a.pending == b.pending && a.busy == b.busy && a.gone == b.gone ==> Everyone(a) == Everyone(b)
  {
  }

  // the first pending command moves on, or over to the busy ones
  lemma WriteMoves(e: Engine)
    requires e.pending != [] && Unsent(e.pending[0])
    ensures Ids(WriteReady(e).busy) + Ids(WriteReady(e).pending) == Ids(e.busy) + Ids(e.pending)
  {
    var c := Advance(e.pending[0]);
    var rest := e.pending[1..];
    assert e.pending == [e.pending[0]] + rest;
    IdsConcat([e.pending[0]], rest);
    IdsConcat([c], rest);
    IdsConcat(e.busy, [c]);
    assert Ids(e.busy) + Ids([c]) + Ids(rest) == Ids(e.busy) + (Ids([c]) + Ids(rest));
  }

  lemma WriteAppends(e: Engine)
    ensures Appends(e, WriteReady(e))
  {
    var w := WriteReady(e);
    if e.pending != [] && Unsent(e.pending[0]) { WriteMoves(e); }
    assert Ids(e.gone) + Ids(w.busy) + Ids(w.pending) == Ids(e.gone) + (Ids(w.busy) + Ids(w.pending));
    assert Everyone(w) == Everyone(e) + [];
  }

  // Every step but a cancellation that interrupts a command appends new commands at the end.
  lemma StepAppends(m: Modem, e: Engine, s: Step)
    requires s.DoCancel? ==> e.busy == []
    ensures Appends(e, Apply(m, e, s))
  {
    match s
    case DoSubmit(r) => SubmitAppends(e, r);
    case DoWrite => WriteAppends(e);
    case DoPrompt =>
    case DoLine(line, first, again, more) => LineAppends(e, Classify(m, e.busy, line, first), line, again, more);
    case DoTimeout => if e.timer && e.busy != [] { RetireSame(e.(timer := false)); }
    case DoCancel(r, more) => SubmitAppends(e, r);
  }

  lemma AppendsInOrder(e: Engine, s: Engine)
    requires InOrder(e) && Appends(e, s)
    ensures InOrder(s)
  {
  }

  /** First in, first out: in a run without cancellation the commands that are gone, the busy
      ones and the pending ones, in this order, are all commands ever submitted, wake-up
      commands included, in the order of submission. */
  lemma {:induction false} FirstInFirstOut(m: Modem, e: Engine, steps: seq<Step>)
    requires InOrder(e) && forall s :: s in steps ==> !s.DoCancel?
    ensures InOrder(Run(m, e, steps))
    decreases |steps|
  {
    if steps != [] {
      StepAppends(m, e, steps[0]);
      AppendsInOrder(e, Apply(m, e, steps[0]));
      FirstInFirstOut(m, Apply(m, e, steps[0]), steps[1..]);
    }
  }

  /** Cancelling while a command is busy completes exactly the first busy command, with "OK"
      when it has a callback, and puts the new command ahead of everything not yet sent. */
  lemma CancelExact(e: Engine, r: Request, more: seq<Request>)
    requires e.busy != []
    ensures var s := Cancel(e, r, more); var c := Cmd(e.next, r.text, 0, UNANSWERED, r.cb);
      && s.gone == e.gone + [e.busy[0]] && s.busy == e.busy[1..] && s.mlbuf == ""
      && [c] + e.pending <= s.pending
      && (s.pending == [c] + e.pending || e.busy[0].cb == UserCb)
      && s.calls == (if e.busy[0].cb == NoCb then e.calls else e.calls + [Call(e.busy[0].id, e.busy[0].ret, "OK")])
      && (e.busy[1..] == [] ==> s.write)
  {
  }

  lemma CancelKeepsAll(e: Engine, r: Request, more: seq<Request>)
    requires multiset(Everyone(e)) == multiset(UpTo(e.next))
    ensures multiset(Everyone(Cancel(e, r, more))) == multiset(UpTo(Cancel(e, r, more).next))
  {
    if e.busy == [] {
      SubmitAppends(e, r);
      AppendsAll(e, Submit(e, r));
    } else {
      var c := Cmd(e.next, r.text, 0, UNANSWERED, r.cb);
      var e1 := e.(mlbuf := "", pending := [c] + e.pending, next := e.next + 1);
      PushedFront(e, c);
      DoneAppends(e1, "OK", more);
      assert Cancel(e, r, more) == Done(e1, "OK", more);
      AppendsAll(e1, Done(e1, "OK", more));
    }
  }

  lemma PushedFront(e: Engine, c: Cmd)
    requires multiset(Everyone(e)) == multiset(UpTo(e.next)) && c.id == e.next
    ensures var e1 := e.(mlbuf := "", pending := [c] + e.pending, next := e.next + 1);
      multiset(Everyone(e1)) == multiset(UpTo(e1.next))
  {
    IdsConcat([c], e.pending);
    var front := Ids(e.gone) + Ids(e.busy);
    assert Ids([c]) == [e.next];
    assert front + (Ids([c]) + Ids(e.pending)) == front + [e.next] + Ids(e.pending);
    assert multiset(front + [e.next] + Ids(e.pending)) == multiset(front + Ids(e.pending)) + multiset{e.next};
    assert UpTo(e.next + 1) == UpTo(e.next) + [e.next];
  }

  lemma AppendsAll(e: Engine, s: Engine)
    requires multiset(Everyone(e)) == multiset(UpTo(e.next)) && Appends(e, s)
    ensures multiset(Everyone(s)) == multiset(UpTo(s.next))
  {
    assert UpTo(s.next) == UpTo(e.next) + seq(s.next - e.next, i => e.next + i);
  }

  /** Conservation: in any run, with cancellations, every command submitted is gone, busy or
      pending, and none is there twice. */
  lemma {:induction false} NothingLost(m: Modem, e: Engine, steps: seq<Step>)
    requires multiset(Everyone(e)) == multiset(UpTo(e.next))
    ensures var s := Run(m, e, steps); multiset(Everyone(s)) == multiset(UpTo(s.next))
    decreases |steps|
  {
    if steps != [] {
      if steps[0].DoCancel? {
        CancelKeepsAll(e, steps[0].r, steps[0].more);
      } else {
        StepAppends(m, e, steps[0]);
        AppendsAll(e, Apply(m, e, steps[0]));
      }
      NothingLost(m, Apply(m, e, steps[0]), steps[1..]);
    }
  }

  // ---------------------------------------------------------------- what the modem receives

  // the bytes of a command written so far: every line is ended by a carriage return
  function SentBytes(c: Cmd): string {
    if Unsent(c) then Returns(c.text[..c.sent]) else Returns(c.text) + "\r"
  }

  // line feeds become carriage returns
  function Returns(s: string): string {
    if s == "" then "" else [if s[0] == '\n' then '\r' else s[0]] + Returns(s[1..])
  }

  function Sent(cs: seq<Cmd>): string {
    if cs == [] then "" else SentBytes(cs[0]) + Sent(cs[1..])
  }

  function Begun(cs: seq<Cmd>): string { if cs == [] then "" else SentBytes(cs[0]) }

  // The wire has carried exactly the commands, in order; only the first pending one is begun.
  ghost predicate WireInOrder(e: Engine) {
    && e.wire == Sent(e.gone + e.busy) + Begun(e.pending)
    && (forall i :: 0 < i < |e.pending| ==> e.pending[i].sent == 0)
    && (forall c :: c in e.pending ==> Unsent(c) && NUL !in c.text)
  }

  lemma {:induction false} SentSnoc(a: seq<Cmd>, c: Cmd)
    ensures Sent(a + [c]) == Sent(a) + SentBytes(c)
  {
    if a == [] {
      assert a + [c] == [c] && [c][1..] == [];
    } else {
      assert (a + [c])[0] == a[0] && (a + [c])[1..] == a[1..] + [c];
      SentSnoc(a[1..], c);
    }
  }

  lemma {:induction false} SentSame(a: seq<Cmd>, b: seq<Cmd>)
    requires |a| == |b| && forall i :: 0 <= i < |a| ==> SentBytes(a[i]) == SentBytes(b[i])
    ensures Sent(a) == Sent(b)
  {
    if a != [] { SentSame(a[1..], b[1..]); }
  }

  lemma PushWire(e: Engine, s: Engine, c: Cmd)
    requires WireInOrder(e) && c.sent == 0 && NUL !in c.text
    requires s.pending == e.pending + [c] && s.busy == e.busy && s.gone == e.gone && s.wire == e.wire
    ensures WireInOrder(s)
  {
    assert c.text[..0] == "";
  }

  lemma SubmitWire(e: Engine, r: Request)
    requires WireInOrder(e) && NUL !in r.text
    ensures WireInOrder(Submit(e, r))
  {
    var w := WakeModem(e);
    if !e.timer { PushWire(e, w, Cmd(e.next, " ", 0, UNANSWERED, WakeCb)); }
    PushWire(w, Enqueue(w, r), Cmd(w.next, r.text, 0, UNANSWERED, r.cb));
  }

  lemma {:induction false} SubmitAllWire(e: Engine, rs: seq<Request>)
    requires WireInOrder(e) && forall r :: r in rs ==> NUL !in r.text
    ensures WireInOrder(SubmitAll(e, rs))
    decreases |rs|
  {
    if rs != [] {
      SubmitWire(e, rs[0]);
      SubmitAllWire(Submit(e, rs[0]), rs[1..]);
    }
  }

  lemma CallbackWire(e: Engine, c: Cmd, resp: string, more: seq<Request>)
    requires WireInOrder(e) && forall r :: r in more ==> NUL !in r.text
    ensures WireInOrder(Callback(e, c, resp, more))
    ensures Callback(e, c, resp, more).busy == e.busy
  {
    if c.cb == UserCb { SubmitAllWire(e.(calls := e.calls + [Call(c.id, c.ret, resp)]), more); }
  }

  lemma RetireWire(e: Engine)
    requires WireInOrder(e) && e.busy != []
    ensures WireInOrder(Retire(e))
  {
    assert e.gone + [e.busy[0]] + e.busy[1..] == e.gone + e.busy;
    SameWire(e, Retire(e));
  }

  lemma DoneWire(e: Engine, buf: string, more: seq<Request>)
    requires WireInOrder(e) && e.busy != [] && forall r :: r in more ==> NUL !in r.text
    ensures WireInOrder(Done(e, buf, more))
  {
    var c := e.busy[0];
    if c.cb == NoCb {
      RetireWire(e);
    } else {
      var resp := if e.mlbuf != "" then e.mlbuf else buf;
      CallbackWire(e, c, resp, more);
      RetireWire(Callback(e, c, resp, more).(mlbuf := ""));
    }
  }

  // Writing a line adds that line and a carriage return to the bytes of the command.
  lemma AdvanceBytes(c: Cmd)
    requires Unsent(c) && NUL !in c.text
    ensures SentBytes(Advance(c)) == SentBytes(c) + NextLine(c) + "\r"
  {
    var s := c.text[c.sent..];
    var i := StrChr(s, '\n');
    var d := Advance(c);
    assert '\n' !in s[..i];
    if i < |s| {
      assert c.text[..d.sent] == c.text[..c.sent] + s[..i] + ['\n'];
    } else {
      assert c.text == c.text[..c.sent] + s[..i];
    }
    ReturnsConcat(c.text[..c.sent], s[..i]);
    ReturnsConcat(c.text[..c.sent] + s[..i], ['\n']);
    ReturnsPlain(s[..i]);
    assert Returns(['\n']) == "\r" + Returns("");
  }

  lemma {:induction false} ReturnsConcat(a: string, b: string)
    ensures Returns(a + b) == Returns(a) + Returns(b)
  {
    if a == "" {
      assert a + b == b;
    } else {
      assert (a + b)[0] == a[0] && (a + b)[1..] == a[1..] + b;
      ReturnsConcat(a[1..], b);
    }
  }

  lemma {:induction false} ReturnsPlain(s: string)
    requires '\n' !in s
    ensures Returns(s) == s
  {
    if s != "" { ReturnsPlain(s[1..]); }
  }

  lemma WriteWire(e: Engine)
    requires WireInOrder(e)
    ensures WireInOrder(WriteReady(e))
  {
    if WriteReady(e) != e && e.pending != [] && NextLine(e.pending[0]) != "" {
      if Unsent(Advance(e.pending[0])) {
        PartWire(e);
      } else {
        WholeWire(e);
      }
    }
  }

  lemma PartWire(e: Engine)
    requires WireInOrder(e) && e.write && e.ready && e.pending != []
    requires NextLine(e.pending[0]) != "" && Unsent(Advance(e.pending[0]))
    ensures WireInOrder(WriteReady(e))
  {
    var c := e.pending[0];
    AdvanceBytes(c);
    var w := WriteReady(e);
    assert w.pending[0] == Advance(c) && w.pending[1..] == e.pending[1..];
    GroupLine(Sent(e.gone + e.busy), SentBytes(c), NextLine(c), "\r");
    forall d | d in w.pending ensures Unsent(d) && NUL !in d.text {
      if d != Advance(c) { assert d in e.pending; }
    }
  }

  lemma WholeWire(e: Engine)
    requires WireInOrder(e) && e.write && e.ready && e.pending != []
    requires NextLine(e.pending[0]) != "" && !Unsent(Advance(e.pending[0]))
    ensures WireInOrder(WriteReady(e))
  {
    var c := e.pending[0];
    WholeBytes(e.gone + e.busy, c, e.wire);
    assert e.gone + (e.busy + [Advance(c)]) == e.gone + e.busy + [Advance(c)];
    TailFresh(e.pending);
    var w := WriteReady(e);
    forall d | d in w.pending ensures Unsent(d) && NUL !in d.text { assert d in e.pending; }
  }

  lemma WholeBytes(done: seq<Cmd>, c: Cmd, wire: string)
    requires Unsent(c) && NUL !in c.text && wire == Sent(done) + SentBytes(c)
    ensures wire + NextLine(c) + "\r" == Sent(done + [Advance(c)]) + ""
  {
    AdvanceBytes(c);
    SentSnoc(done, Advance(c));
    GroupLine(Sent(done), SentBytes(c), NextLine(c), "\r");
  }

  lemma GroupLine(x: string, s: string, n: string, r: string)
    ensures x + s + n + r == x + (s + n + r) + ""
  {
  }

  lemma TailFresh(cs: seq<Cmd>)
    requires cs != [] && forall i :: 0 < i < |cs| ==> cs[i].sent == 0
    ensures Begun(cs[1..]) == "" && forall i :: 0 <= i < |cs[1..]| ==> cs[1..][i].sent == 0
  {
    if |cs| > 1 { assert cs[1].text[..0] == ""; }
  }

  // no NUL in the texts submitted, and no cancellation
  predicate Textual(s: Step) {
    match s
    case DoSubmit(r) => NUL !in r.text
    case DoLine(_, _, _, more) => forall r :: r in more ==> NUL !in r.text
    case DoCancel(_, _) => false
    case _ => true
  }

  lemma FinalWire(e: Engine, sets: bool, ret: int, line: string, more: seq<Request>)
    requires WireInOrder(e) && forall r :: r in more ==> NUL !in r.text
    ensures WireInOrder(Finish(if sets then SetRet(e, ret) else e, line, more))
  {
    var e1 := if sets then SetRet(e, ret) else e;
    if e1.busy != [] {
      SentSame(e1.gone + e1.busy, e.gone + e.busy);
      DoneWire(e1, line, more);
    }
  }

  lemma LineWire(e: Engine, k: Kind, line: string, again: Verdict, more: seq<Request>)
    requires WireInOrder(e) && forall r :: r in more ==> NUL !in r.text
    ensures WireInOrder(Act(e, k, line, again, more))
  {
    match k
    case Greeting => SubmitAllWire(e.(ready := true), more);
    case Dropped =>
    case Final(sets, ret) => FinalWire(e, sets, ret, line, more);
    case Multiline =>
    case Info(completes) => InfoWire(e, completes, line, again, more);
  }

  lemma InfoWire(e: Engine, completes: bool, line: string, again: Verdict, more: seq<Request>)
    requires WireInOrder(e) && forall r :: r in more ==> NUL !in r.text
    ensures WireInOrder(Keep(if completes && e.busy != [] then Flush(e, more) else e, line, again))
  {
    if e.busy != [] { CallbackWire(e, e.busy[0], e.mlbuf, more); }
    var f := if completes && e.busy != [] then Flush(e, more) else e;
    SameWire(f, Keep(f, line, again));
  }

  lemma SameWire(a: Engine, b: Engine)
    requires WireInOrder(a) && a.pending == b.pending && a.gone + a.busy == b.gone + b.busy && a.wire == b.wire
    ensures WireInOrder(b)
  {
  }

  lemma StepWire(m: Modem, e: Engine, s: Step)
    requires WireInOrder(e) && Textual(s)
    ensures WireInOrder(Apply(m, e, s))
  {
    match s
    case DoSubmit(r) => SubmitWire(e, r);
    case DoWrite => WriteWire(e);
    case DoPrompt =>
    case DoLine(line, first, again, more) => LineWire(e, Classify(m, e.busy, line, first), line, again, more);
    case DoTimeout => if e.timer && e.busy != [] { RetireWire(e.(timer := false)); }
    case DoCancel(_, _) =>
  }

  /** What the modem has received at any time of a run without cancellation is exactly the lines
      of the commands submitted, each ended by a carriage return, in the order of submission. */
  lemma {:induction false} ModemReceives(m: Modem, e: Engine, steps: seq<Step>)
    requires WireInOrder(e) && forall s :: s in steps ==> Textual(s)
    ensures WireInOrder(Run(m, e, steps))
    decreases |steps|
  {
    if steps != [] {
      StepWire(m, e, steps[0]);
      ModemReceives(m, Apply(m, e, steps[0]), steps[1..]);
    }
  }

  /** The state before anything is submitted satisfies every invariant above. */
  lemma InitialState()
    ensures Sound(INITIAL) && InOrder(INITIAL) && WireInOrder(INITIAL) && Unanswered(INITIAL)
    ensures multiset(Everyone(INITIAL)) == multiset(UpTo(INITIAL.next))
  {
  }
}
