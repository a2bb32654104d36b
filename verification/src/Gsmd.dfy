/** The command engine as it is: queues, flags and the answer buffer updated in place. Each
    method is proved to be its counterpart of the state machine in `AtEngine`. */
module Gsmd {
  import opened AtEngine

  class Daemon {
    var pending: seq<Cmd>
    var busy: seq<Cmd>
    var whenWrite: bool
    var wakeupTimer: bool
    var interpreterReady: bool
    var mlbuf: array<char>
    var mlbufLen: nat
    var mlunsolicited: bool
    var next: nat
    var wire: string
    ghost var calls: seq<Call>
    ghost var gone: seq<Cmd>

    ghost predicate Valid()
      reads this
    {
      mlbuf.Length == MLPARSE_BUF_SIZE && mlbufLen <= MLPARSE_BUF_SIZE
    }

    ghost function State(): Engine
      reads this, mlbuf
      requires Valid()
    {
      Engine(pending, busy, whenWrite, wakeupTimer, interpreterReady,
             mlbuf[..mlbufLen], mlunsolicited, next, calls, gone, wire)
    }

    // atcmd_init
    constructor ()
      ensures Valid() && fresh(mlbuf) && State() == INITIAL
    {
      pending, busy, whenWrite, wakeupTimer, interpreterReady := [], [], false, false, false;
      mlbuf := new char[MLPARSE_BUF_SIZE];
      mlbufLen, mlunsolicited, next, wire := 0, false, 0, "";
      calls, gone := [], [];
    }

    method WakeupModem()
      requires Valid()
      modifies this`wakeupTimer, this`whenWrite, this`pending, this`next
      ensures Valid() && State() == WakeModem(old(State()))
    {
      if !wakeupTimer {
        var cmd := Cmd(next, " ", 0, UNANSWERED, WakeCb);
        next := next + 1;
        wakeupTimer := true;
        if pending == [] { whenWrite := true; }
        pending := pending + [cmd];
      }
    }

    // atcmd_submit
    method AtcmdSubmit(r: Request)
      requires Valid()
      modifies this`wakeupTimer, this`whenWrite, this`pending, this`next
      ensures Valid() && State() == Submit(old(State()), r)
    {
      WakeupModem();
      var cmd := Cmd(next, r.text, 0, UNANSWERED, r.cb);
      next := next + 1;
      var empty := pending == [];
      pending := pending + [cmd];
      if empty { whenWrite := true; }
    }

    method SubmitEach(rs: seq<Request>)
      requires Valid()
      modifies this`wakeupTimer, this`whenWrite, this`pending, this`next
      ensures Valid() && State() == SubmitAll(old(State()), rs)
    {
      var i := 0;
      while i < |rs|
        invariant 0 <= i <= |rs| && Valid()
        invariant SubmitAll(State(), rs[i..]) == SubmitAll(old(State()), rs)
      {
        assert rs[i..][0] == rs[i] && rs[i..][1..] == rs[i + 1..];
        AtcmdSubmit(rs[i]);
        i := i + 1;
      }
      assert rs[i..] == [];
    }

    // The write half of atcmd_select_cb, called when write interest is set.
    method SelectWrite()
      requires Valid() && forall c :: c in pending ==> Unsent(c)
      modifies this`whenWrite, this`pending, this`busy, this`wire
      ensures Valid() && State() == WriteReady(old(State()))
    {
      if whenWrite && interpreterReady {
        if pending != [] {
          // every branch of the loop over the pending commands leaves it in its first turn
          var pos := pending[0];
          assert pos in pending;
          var cur := pos.text[pos.sent..];
          var len := StrChr(cur, '\n');
          var rc := len;
          if rc != 0 {
            wire := wire + cur[..len] + "\r";
            rc := rc + 1;
            pos := pos.(sent := pos.sent + rc);
            if pos.sent == |pos.text| + 1 {
              pending := pending[1..];
              busy := busy + [pos];
            } else {
              pending := [pos] + pending[1..];
            }
          }
        }
        whenWrite := false;
      }
    }

    // atcmd_prompt
    method AtcmdPrompt()
      requires Valid()
      modifies this`whenWrite
      ensures Valid() && State() == PromptSeen(old(State()))
    {
      whenWrite := true;
    }

    // cmd->cb
    method CallBack(cmd: Cmd, ghost resp: string, more: seq<Request>)
      requires Valid() && cmd.cb != NoCb
      modifies this`wakeupTimer, this`whenWrite, this`pending, this`next, this`calls
      ensures Valid() && State() == Callback(old(State()), cmd, resp, more)
    {
      calls := calls + [Call(cmd.id, cmd.ret, resp)];
      if cmd.cb == WakeCb {
        if wakeupTimer { wakeupTimer := false; }
      } else {
        SubmitEach(more);
      }
    }

    // llist_del, talloc_free and the wake-up at the end of atcmd_done and wakeup_timeout
    method Leave()
      requires Valid() && busy != []
      modifies this`busy, this`gone, this`whenWrite
      ensures Valid() && State() == Retire(old(State()))
    {
      gone := gone + [busy[0]];
      busy := busy[1..];
      if busy == [] {
        if pending != [] { whenWrite := true; }
      }
    }

    // atcmd_done
    method AtcmdDone(buf: string, more: seq<Request>)
      requires Valid() && busy != [] && mlbufLen < MLPARSE_BUF_SIZE
      modifies this, mlbuf
      ensures Valid() && mlbuf == old(mlbuf) && State() == Done(old(State()), buf, more)
    {
      var cmd := busy[0];
      if cmd.cb != NoCb {
        ghost var resp := buf;
        if mlbufLen != 0 {
          mlbuf[mlbufLen] := NUL;
          resp := mlbuf[..mlbufLen];
        }
        CallBack(cmd, resp, more);
        mlbufLen := 0;
      }
      Leave();
    }

    // memcpy(mlbuf + at, line, len)
    method CopyIn(at: nat, line: string, len: nat)
      requires at + len <= mlbuf.Length && len <= |line|
      modifies mlbuf
      ensures mlbuf[..at + len] == old(mlbuf[..at]) + line[..len]
    {
      ghost var was := mlbuf[..at];
      var i := 0;
      while i < len
        invariant 0 <= i <= len && mlbuf[..at + i] == was + line[..i]
      {
        mlbuf[at + i] := line[i];
        i := i + 1;
        assert mlbuf[..at + i] == mlbuf[..at + i - 1] + [line[i - 1]];
      }
    }

    // The end of ml_parse: the line is added to the answer collected so far.
    method AppendLine(line: string)
      requires Valid() && mlbufLen < MLPARSE_BUF_SIZE
      modifies this`mlbufLen, mlbuf
      ensures Valid() && mlbuf[..mlbufLen] == Collect(old(mlbuf[..mlbufLen]), line)
    {
      ghost var was := mlbuf[..mlbufLen];
      if mlbufLen != 0 {
        mlbuf[mlbufLen] := '\n';
        mlbufLen := mlbufLen + 1;
        assert mlbuf[..mlbufLen] == was + "\n";
      }
      var len := |line|;
      if len > MLPARSE_BUF_SIZE - mlbufLen { len := MLPARSE_BUF_SIZE - mlbufLen; }
      CopyIn(mlbufLen, line, len);
      mlbufLen := mlbufLen + len;
      assert line[..|line|] == line;
    }

    method SetResult(ret: int)
      requires Valid()
      modifies this`busy
      ensures Valid() && State() == SetRet(old(State()), ret)
    {
      if busy != [] { busy := [busy[0].(ret := ret)] + busy[1..]; }
    }

    // ml_parse. It leaves room in the buffer exactly when the line fits.
    method ParseLine(m: Modem, line: string, first: Verdict, again: Verdict, more: seq<Request>)
      requires Valid() && mlbufLen < MLPARSE_BUF_SIZE && |line| <= MLPARSE_BUF_SIZE
      modifies this, mlbuf
      ensures Valid() && mlbuf == old(mlbuf) && State() == MlParse(m, old(State()), line, first, again, more)
      ensures mlbufLen < MLPARSE_BUF_SIZE <==> Fits(m, old(State()), DoLine(line, first, again, more))
    {
      RoomKeptIff(m, State(), DoLine(line, first, again, more));
      if line == "" || line == "AT-Command Interpreter ready" {
        interpreterReady := true;
        SubmitEach(more);
        return;
      }
      if busy != [] && line == busy[0].text { return; }
      ParseAnswer(m, line, first, again, more);
    }

    // ml_parse on a line that is neither the modem's greeting nor an echo
    method ParseAnswer(m: Modem, line: string, first: Verdict, again: Verdict, more: seq<Request>)
      requires Valid() && mlbufLen < MLPARSE_BUF_SIZE && 0 < |line| <= MLPARSE_BUF_SIZE
      requires line != "AT-Command Interpreter ready" && (busy == [] || line != busy[0].text)
      modifies this, mlbuf
      ensures Valid() && mlbuf == old(mlbuf) && State() == MlParse(m, old(State()), line, first, again, more)
    {
      var keep;
      if Extended(m, line[0]) {
        keep := ParseExtended(m, line, first, more);
      } else {
        assert Classify(m, busy, line, first) == Classify(m, busy, line, NoEntry);
        keep := ParsePlain(m, line, more);
      }
      if keep { KeepLine(line, again); }
    }

    // the branch of ml_parse for lines that do not begin like an extended response
    method ParsePlain(m: Modem, line: string, more: seq<Request>) returns (keep: bool)
      requires Valid() && mlbufLen < MLPARSE_BUF_SIZE && line != "" && !Extended(m, line[0])
      requires line != "AT-Command Interpreter ready" && (busy == [] || line != busy[0].text)
      modifies this, mlbuf
      ensures Valid() && mlbuf == old(mlbuf) && (keep ==> mlbufLen < MLPARSE_BUF_SIZE)
      ensures var k := Classify(m, old(busy), line, NoEntry);
        (keep <==> k.Info?) && State() == BeforeKeep(old(State()), k, line, more)
    {
      if line == "RING" || (m.v0 && line[0] == '2') { return false; }
      if line == "ERROR" || (m.v0 && line[0] == '4') {
        SetResult(4);
        FinishLine(line, more);
        return false;
      }
      if StartsAt(line, 0, "OK") || (m.v0 && line[0] == '0') {
        SetResult(0);
        FinishLine(line, more);
        return false;
      }
      if line == "NO CARRIER" || (m.v0 && line[0] == '3') {
        FinishLine(line, more);
        return false;
      }
      if StartsAt(line, 0, "BUSY") || (m.v0 && line[0] == '7') {
        FinishLine(line, more);
        return false;
      }
      keep := true;
    }

    // the branch of ml_parse for extended responses
    method ParseExtended(m: Modem, line: string, first: Verdict, more: seq<Request>) returns (keep: bool)
      requires Valid() && mlbufLen < MLPARSE_BUF_SIZE && |line| <= MLPARSE_BUF_SIZE
      modifies this, mlbuf
      ensures Valid() && mlbuf == old(mlbuf) && (keep ==> mlbufLen < MLPARSE_BUF_SIZE)
      ensures var k := ClassifyExtended(m, old(busy), line, first);
        (keep <==> k.Info?) && State() == BeforeKeep(old(State()), k, line, more)
    {
      var colon := StrChr(line, ':');
      if colon == |line| { return false; }
      if StartsAt(line, 1, "CME ERROR") || StartsAt(line, 1, "CMS ERROR") {
        SetResult(Number(line[colon + 1..]));
        FinishLine(line, more);
        return false;
      }
      keep := ParseResponse(m, line, colon, first, more);
    }

    // an extended response that is no error code: unsolicited, or part of an answer
    method ParseResponse(m: Modem, line: string, colon: nat, first: Verdict, more: seq<Request>) returns (keep: bool)
      requires Valid() && |line| <= MLPARSE_BUF_SIZE && colon <= |line|
      modifies this, mlbuf
      ensures Valid() && mlbuf == old(mlbuf) && (mlbufLen == old(mlbufLen) || mlbufLen == 0 || !keep)
      ensures var e := old(State()); var foreign := e.busy == [] || !Answers(line, colon, e.busy[0].text);
        && (keep <==> !(foreign && first != NoEntry) && (e.busy == [] || ExtendedCmd(m, e.busy[0].text)))
        && State() == if foreign && first == Again then e.(mlbuf := line, mlunsolicited := true)
                      else if keep && e.busy != [] then Flush(e, more) else e
    {
      if busy == [] || !Answers(line, colon, busy[0].text) {
        if first == Again {
          StoreLine(line);
          mlunsolicited := true;
          return false;
        }
        if first != NoEntry { return false; }
      }
      if busy != [] {
        if !ExtendedCmd(m, busy[0].text) { return false; }
        FlushRecord(more);
      }
      keep := true;
    }

    method FlushRecord(more: seq<Request>)
      requires Valid() && busy != []
      modifies this`wakeupTimer, this`whenWrite, this`pending, this`next, this`calls, this`mlbufLen
      ensures Valid() && State() == Flush(old(State()), more) && (mlbufLen == old(mlbufLen) || mlbufLen == 0)
    {
      if mlbufLen != 0 {
        ghost var resp := mlbuf[..mlbufLen];
        if busy[0].cb != NoCb { CallBack(busy[0], resp, more); }
        mlbufLen := 0;
      }
    }

    // the end of ml_parse, reached by information responses
    method KeepLine(line: string, again: Verdict)
      requires Valid() && mlbufLen < MLPARSE_BUF_SIZE
      modifies this`mlbufLen, this`mlunsolicited, mlbuf
      ensures Valid() && State() == Keep(old(State()), line, again)
    {
      AppendLine(line);
      if mlunsolicited && again != Again {
        mlunsolicited := false;
        mlbufLen := 0;
      }
    }

    // the label final_cb of ml_parse
    method FinishLine(line: string, more: seq<Request>)
      requires Valid() && mlbufLen < MLPARSE_BUF_SIZE
      modifies this, mlbuf
      ensures Valid() && mlbuf == old(mlbuf) && State() == Finish(old(State()), line, more)
    {
      if busy != [] { AtcmdDone(line, more); }
    }

    // the line starts the buffer afresh
    method StoreLine(line: string)
      requires Valid() && |line| <= MLPARSE_BUF_SIZE
      modifies this`mlbufLen, mlbuf
      ensures Valid() && mlbuf[..mlbufLen] == line
    {
      CopyIn(0, line, |line|);
      mlbufLen := |line|;
      assert mlbuf[..0] == [] && line[..|line|] == line;
    }

    // wakeup_timeout, for the timer that is running, if any
    method Timeout()
      requires Valid()
      modifies this`wakeupTimer, this`busy, this`gone, this`whenWrite
      ensures Valid() && State() == WakeTimeout(old(State()))
    {
      if wakeupTimer {
        wakeupTimer := false;
        if busy != [] {
          var cmd := busy[0];
          if cmd.text != "" && cmd.text[0] == ' ' { Leave(); }
        }
      }
    }

    // cancel_atcmd
    method CancelAtcmd(r: Request, more: seq<Request>)
      requires Valid()
      modifies this, mlbuf
      ensures Valid() && mlbuf == old(mlbuf) && State() == Cancel(old(State()), r, more)
    {
      if busy == [] {
        AtcmdSubmit(r);
        return;
      }
      if mlbufLen != 0 { mlbufLen := 0; }
      var cmd := Cmd(next, r.text, 0, UNANSWERED, r.cb);
      next := next + 1;
      pending := [cmd] + pending;
      AtcmdDone("OK", more);
    }
  }
}
