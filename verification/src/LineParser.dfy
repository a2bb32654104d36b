/** The byte-level parser of modem output: CR LF framed lines and "> " prompts. */
module LineParser {

  const LLPARSE_BUF_SIZE: nat := 1024

  datatype State = Idle | IdleCR | IdleLF | Result | ResultCR | ResultLF | Prompt | PromptSpc | Error

  // What the parser holds between two bytes: where it is, and the line collected so far.
  datatype Line = Line(state: State, text: string)

  // What a run of bytes makes the parser do: lines and prompts reported, or an overflow.
  datatype Event = LineSeen(text: string) | PromptSeen

  datatype Outcome = Outcome(line: Line, events: seq<Event>, ok: bool)

  datatype Flags = Flags(extended: bool, lfcr: bool)

  // llparse_append: a full buffer refuses the byte
  function Append(text: string, byte: char): (string, bool) {
    if |text| < LLPARSE_BUF_SIZE then (text + [byte], true) else (text, false)
  }

  // llparse_byte: the next state, and whether the byte could be stored
  function Byte(flags: Flags, l: Line, byte: char): (Line, bool) {
    match l.state
    case Idle | PromptSpc =>
      if flags.extended && byte == '\r' then (Line(IdleCR, l.text), true)
      else if flags.extended && byte == '>' then (Line(Prompt, l.text), true)
      else var (t, ok) := Append(l.text, byte); (Line(Result, t), ok)
    case IdleCR =>
      (Line(if byte == '\n' then IdleLF else Error, l.text), true)
    case IdleLF =>
      if byte == '\r' then (Line(ResultCR, l.text), true)
      else if byte == '>' then (Line(Prompt, l.text), true)
      else var (t, ok) := Append(l.text, byte); (Line(Result, t), ok)
    case Result =>
      if byte == '\r' then (Line(ResultCR, l.text), true)
      else if flags.lfcr && byte == '\n' then (Line(ResultLF, l.text), true)
      else var (t, ok) := Append(l.text, byte); (Line(Result, t), ok)
    case ResultCR =>
      (if byte == '\n' then Line(Idle, "") else l, true)
    case ResultLF =>
      (if byte == '\r' then Line(Idle, "") else l, true)
    case Prompt =>
      if byte == ' ' then (Line(PromptSpc, l.text), true)
      else
        var (t, _) := Append(l.text, '>');
        var (u, ok) := Append(t, byte);
        (Line(Result, u), ok)
    case Error => (l, true)
  }

  function Reported(l: Line): seq<Event> {
    if l.state == ResultCR then [LineSeen(l.text)]
    else if l.state == PromptSpc then [PromptSeen]
    else []
  }

  // llparse_string
  function Feed(flags: Flags, l: Line, bytes: string): Outcome
    decreases |bytes|
  {
    if bytes == [] then Outcome(l, [], true)
    else
      var (l1, ok) := Byte(flags, l, bytes[0]);
      if !ok then Outcome(l1, [], false)
      else
        var rest := Feed(flags, l1, bytes[1..]);
        Outcome(rest.line, Reported(l1) + rest.events, rest.ok)
  }

  // ---------------------------------------------------------------- reads cut anywhere

  /** Cutting the input in two changes nothing, unless the first part overflows the buffer. */
  lemma {:induction false} FeedSplit(flags: Flags, l: Line, a: string, b: string)
    requires Feed(flags, l, a).ok
    ensures var x := Feed(flags, l, a); var y := Feed(flags, x.line, b);
      Feed(flags, l, a + b) == Outcome(y.line, x.events + y.events, y.ok)
    decreases |a|
  {
    if a == [] {
      assert a + b == b;
    } else {
      assert (a + b)[0] == a[0] && (a + b)[1..] == a[1..] + b;
      var (l1, ok) := Byte(flags, l, a[0]);
      FeedSplit(flags, l1, a[1..], b);
    }
  }

  function Concat(chunks: seq<string>): string {
    if chunks == [] then [] else chunks[0] + Concat(chunks[1..])
  }

  // successive reads, each handed to llparse_string
  function FeedAll(flags: Flags, l: Line, chunks: seq<string>): Outcome
    decreases |chunks|
  {
    if chunks == [] then Outcome(l, [], true)
    else
      var x := Feed(flags, l, chunks[0]);
      var y := FeedAll(flags, x.line, chunks[1..]);
      Outcome(y.line, x.events + y.events, x.ok && y.ok)
  }

  lemma {:induction false} FeedAllConcat(flags: Flags, l: Line, chunks: seq<string>)
    requires Feed(flags, l, Concat(chunks)).ok
    ensures FeedAll(flags, l, chunks) == Feed(flags, l, Concat(chunks))
    decreases |chunks|
  {
    if chunks != [] {
      PrefixOk(flags, l, chunks[0], Concat(chunks[1..]));
      FeedSplit(flags, l, chunks[0], Concat(chunks[1..]));
      FeedAllConcat(flags, Feed(flags, l, chunks[0]).line, chunks[1..]);
    }
  }

  lemma {:induction false} PrefixOk(flags: Flags, l: Line, a: string, b: string)
    requires Feed(flags, l, a + b).ok
    ensures Feed(flags, l, a).ok
    decreases |a|
  {
    if a != [] {
      assert (a + b)[0] == a[0] && (a + b)[1..] == a[1..] + b;
      PrefixOk(flags, Byte(flags, l, a[0]).0, a[1..], b);
    }
  }

  // ---------------------------------------------------------------- framing and its inverse

  // A line the modem may send: no CR, room in the buffer, not to be taken for a prompt.
  predicate Sendable(text: string) {
    '\r' !in text && |text| < LLPARSE_BUF_SIZE && text != ">" && !("> " <= text)
  }

  function Frame(text: string): string { "\r\n" + text + "\r\n" }

  function FrameAll(lines: seq<string>): string {
    if lines == [] then [] else Frame(lines[0]) + FrameAll(lines[1..])
  }

  function Seen(lines: seq<string>): seq<Event> {
    seq(|lines|, i requires 0 <= i < |lines| => LineSeen(lines[i]))
  }

  const EXTENDED := Flags(true, false)

  // collecting the rest of a line
  lemma {:induction false} CollectRest(t: string, rest: string)
    requires '\r' !in rest && |t| + |rest| <= LLPARSE_BUF_SIZE
    ensures Feed(EXTENDED, Line(Result, t), rest) == Outcome(Line(Result, t + rest), [], true)
    decreases |rest|
  {
    if rest == [] {
      assert t + rest == t;
    } else {
      CollectRest(t + [rest[0]], rest[1..]);
      FeedCons(EXTENDED, Line(Result, t), rest);
      assert Byte(EXTENDED, Line(Result, t), rest[0]) == (Line(Result, t + [rest[0]]), true);
      assert t + [rest[0]] + rest[1..] == t + rest;
    }
  }

  // a whole line after CR LF, up to but without its closing CR
  lemma CollectLine(text: string)
    requires Sendable(text) && text != ""
    ensures Feed(EXTENDED, Line(IdleLF, ""), text) == Outcome(Line(Result, text), [], true)
  {
    if text[0] != '>' {
      CollectRest([text[0]], text[1..]);
      assert [text[0]] + text[1..] == text;
      assert Byte(EXTENDED, Line(IdleLF, ""), text[0]) == (Line(Result, [text[0]]), true) by {
        assert "" + [text[0]] == [text[0]];
      }
      FeedCons(EXTENDED, Line(IdleLF, ""), text);
    } else {
      assert text[1] == ' ' ==> "> " <= text;
      var two := [text[0], text[1]];
      CollectRest(two, text[2..]);
      assert text[1..][1..] == text[2..] && two + text[2..] == text;
      FalsePrompt(text[1]);
      FeedCons(EXTENDED, Line(Prompt, ""), text[1..]);
      FeedCons(EXTENDED, Line(IdleLF, ""), text);
    }
  }

  lemma FeedCons(flags: Flags, l: Line, bytes: string)
    requires bytes != "" && Byte(flags, l, bytes[0]).1 && Reported(Byte(flags, l, bytes[0]).0) == []
    ensures Feed(flags, l, bytes) == Feed(flags, Byte(flags, l, bytes[0]).0, bytes[1..])
  {
    var rest := Feed(flags, Byte(flags, l, bytes[0]).0, bytes[1..]);
    assert [] + rest.events == rest.events;
  }

  // a '>' that does not start a prompt is put back in front of the byte after it
  lemma FalsePrompt(byte: char)
    requires byte != ' '
    ensures Byte(EXTENDED, Line(Prompt, ""), byte) == (Line(Result, ['>', byte]), true)
  {
    assert "" + ['>'] == ['>'] && ['>'] + [byte] == ['>', byte];
  }

  lemma OneFrame(text: string)
    requires Sendable(text)
    ensures Feed(EXTENDED, Line(Idle, ""), Frame(text)) == Outcome(Line(Idle, ""), [LineSeen(text)], true)
  {
    var idle := Line(Idle, "");
    assert Feed(EXTENDED, idle, "\r\n") == Outcome(Line(IdleLF, ""), [], true) by {
      assert "\r\n"[1..] == "\n" && "\n"[1..] == "";
    }
    var end := Feed(EXTENDED, Line(if text == "" then IdleLF else Result, text), "\r\n");
    assert end == Outcome(idle, [LineSeen(text)], true) by {
      assert "\r\n"[1..] == "\n" && "\n"[1..] == "";
    }
    if text != "" { CollectLine(text); }
    FeedSplit(EXTENDED, Line(IdleLF, ""), text, "\r\n");
    FeedSplit(EXTENDED, idle, "\r\n", text + "\r\n");
    assert "\r\n" + (text + "\r\n") == Frame(text);
  }

  /** The parser inverts the framing: each framed line is reported exactly once, in order and
      unchanged, however the bytes are cut into reads, and the parser ends idle. */
  lemma {:induction false} FramingInverse(lines: seq<string>)
    requires forall t :: t in lines ==> Sendable(t)
    ensures Feed(EXTENDED, Line(Idle, ""), FrameAll(lines)) == Outcome(Line(Idle, ""), Seen(lines), true)
  {
    if lines != [] {
      OneFrame(lines[0]);
      FramingInverse(lines[1..]);
      FeedSplit(EXTENDED, Line(Idle, ""), Frame(lines[0]), FrameAll(lines[1..]));
      assert [LineSeen(lines[0])] + Seen(lines[1..]) == Seen(lines);
    }
  }

  lemma ChunkedFraming(lines: seq<string>, chunks: seq<string>)
    requires forall t :: t in lines ==> Sendable(t)
    requires Concat(chunks) == FrameAll(lines)
    ensures FeedAll(EXTENDED, Line(Idle, ""), chunks) == Outcome(Line(Idle, ""), Seen(lines), true)
  {
    FramingInverse(lines);
    FeedAllConcat(EXTENDED, Line(Idle, ""), chunks);
  }

  // ---------------------------------------------------------------- the parser itself

  const NUL: char := '\0'

  // struct llparser: `events` is what its two callbacks have been told
  class Parser {
    var state: State
    var flags: Flags
    var buf: array<char>
    var cur: nat
    var events: seq<Event>

    ghost predicate Valid()
      reads this, buf
    {
      && buf.Length == LLPARSE_BUF_SIZE && cur <= buf.Length
      && forall i :: cur <= i < buf.Length ==> buf[i] == NUL
    }

    ghost function Held(): Line
      reads this, buf
      requires Valid()
    {
      Line(state, buf[..cur])
    }

    constructor (flags: Flags)
      ensures Valid() && fresh(buf) && Held() == Line(Idle, "") && events == [] && this.flags == flags
    {
      state, this.flags, cur, events := Idle, flags, 0, [];
      buf := new char[LLPARSE_BUF_SIZE](_ => NUL);
    }

    // llparse_append
    method Store(byte: char) returns (ret: int)
      requires Valid()
      modifies this`cur, buf
      ensures Valid() && buf[..cur] == Append(old(buf[..cur]), byte).0
      ensures ret >= 0 <==> Append(old(buf[..cur]), byte).1
    {
      if cur < buf.Length {
        buf[cur] := byte;
        cur := cur + 1;
        ret := 0;
        assert buf[..cur] == old(buf[..cur]) + [byte];
      } else {
        ret := -27;
      }
    }

    // llparse_endline
    method EndLine()
      requires Valid()
      modifies this`cur, this`state, buf
      ensures Valid() && Held() == Line(Idle, "")
    {
      cur := 0;
      state := Idle;
      forall i | 0 <= i < buf.Length { buf[i] := NUL; }
    }

    // llparse_byte
    method ParseByte(byte: char) returns (ret: int)
      requires Valid()
      modifies this`cur, this`state, buf
      ensures Valid() && Held() == Byte(flags, old(Held()), byte).0
      ensures ret >= 0 <==> Byte(flags, old(Held()), byte).1
    {
      ret := 0;
      match state {
        case Idle | PromptSpc =>
          if flags.extended && byte == '\r' {
            state := IdleCR;
          } else if flags.extended && byte == '>' {
            state := Prompt;
          } else {
            state := Result;
            ret := Store(byte);
          }
        case IdleCR =>
          state := if byte == '\n' then IdleLF else Error;
        case IdleLF =>
          if byte == '\r' {
            state := ResultCR;
          } else if byte == '>' {
            state := Prompt;
          } else {
            state := Result;
            ret := Store(byte);
          }
        case Result =>
          if byte == '\r' {
            state := ResultCR;
          } else if flags.lfcr && byte == '\n' {
            state := ResultLF;
          } else {
            ret := Store(byte);
          }
        case ResultCR =>
          if byte == '\n' { EndLine(); }
        case ResultLF =>
          if byte == '\r' { EndLine(); }
        case Prompt =>
          if byte == ' ' {
            state := PromptSpc;
          } else {
            var _ := Store('>');
            ret := Store(byte);
            state := Result;
          }
        case Error =>
      }
    }

    // the body of the loop of llparse_string
    method ParseAndReport(byte: char) returns (rc: int)
      requires Valid()
      modifies this, buf
      ensures Valid() && buf == old(buf) && flags == old(flags)
      ensures var (l, ok) := Byte(flags, old(Held()), byte);
        Held() == l && (rc >= 0 <==> ok)&& events == old(events) + if ok then Reported(l) else []
    {
      rc := ParseByte(byte);
      if rc < 0 { return; }
      if state == ResultCR {
        events := events + [LineSeen(buf[..cur])];
      }
      if state == PromptSpc {
        events := events + [PromptSeen];
      }
    }

    // llparse_string
    method ParseString(bytes: string) returns (ret: int)
      requires Valid()
      modifies this, buf
      ensures Valid() && buf == old(buf) && flags == old(flags)
      ensures var o := Feed(old(flags), old(Held()), bytes);
        Held() == o.line && events == old(events) + o.events && (ret >= 0 <==> o.ok)
    {
      ret := 0;
      var i := 0;
      ghost var l0, e0 := Held(), events;
      ghost var whole := Feed(flags, l0, bytes);
      RestEnds(flags, l0, bytes, e0);
      while i < |bytes|
        invariant 0 <= i <= |bytes| && Valid() && buf == old(buf) && flags == old(flags) && ret == 0
        invariant Rest(flags, Held(), bytes, i, events, e0, whole)
      {
        ghost var l, e := Held(), events;
        FeedStep(flags, l, bytes, i, e, e0, whole);
        var rc := ParseAndReport(bytes[i]);
        if rc < 0 { return rc; }
        i := i + 1;
      }
      RestOver(flags, Held(), bytes, events, e0, whole);
    }
  }

  // after i bytes: feeding the others completes the whole outcome
  ghost predicate Rest(flags: Flags, l: Line, bytes: string, i: nat, events: seq<Event>,
        before: seq<Event>, whole: Outcome)
    requires i <= |bytes|
  {
    var o := Feed(flags, l, bytes[i..]);
    o.line == whole.line && o.ok == whole.ok && events + o.events == before + whole.events
  }

  lemma RestEnds(flags: Flags, l: Line, bytes: string, events: seq<Event>)
    ensures Rest(flags, l, bytes, 0, events, events, Feed(flags, l, bytes))
  {
    assert bytes[0..] == bytes;
  }

  lemma RestOver(flags: Flags, l: Line, bytes: string, events: seq<Event>, before: seq<Event>, whole: Outcome)
    requires Rest(flags, l, bytes, |bytes|, events, before, whole)
    ensures whole.line == l && whole.ok && events == before + whole.events
  {
  }

  lemma FeedStep(flags: Flags, l: Line, bytes: string, i: nat, events: seq<Event>, before: seq<Event>, whole: Outcome)
    requires i < |bytes| && Rest(flags, l, bytes, i, events, before, whole)
    ensures var (l1, ok) := Byte(flags, l, bytes[i]);
      if ok then Rest(flags, l1, bytes, i + 1, events + Reported(l1), before, whole)
      else whole.line == l1 && !whole.ok && events == before + whole.events
  {
    assert bytes[i..][0] == bytes[i] && bytes[i..][1..] == bytes[i + 1..];
    var (l1, ok) := Byte(flags, l, bytes[i]);
    if ok {
      var rest := Feed(flags, l1, bytes[i + 1..]);
      assert events + (Reported(l1) + rest.events) == events + Reported(l1) + rest.events;
    }
  }
}
