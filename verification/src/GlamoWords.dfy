/** Register commands for the graphics chip, and their encoding as 16-bit words. */
module GlamoWords {
  import opened Common

  // GLAMO_REG_TYPE
  type word = x: int | 0 <= x < 0x1_0000

  // bit 15: reg & (1 << 15), (1 << 15) | reg and reg & ~(1 << 15) on 16 bits
  const BURST: word := 0x8000

  predicate IsBurst(reg: word) { reg >= BURST }

  function SetBurst(reg: word): word { if IsBurst(reg) then reg else reg + BURST }

  function ClearBurst(reg: word): word { if IsBurst(reg) then reg - BURST else reg }

  // reg += 2
  function NextRegister(reg: word): word { (reg + 2) % 0x1_0000 }

  datatype Write = Write(reg: word, val: word)

  // a single register, or a run of registers two apart; `pad` fills up an odd run
  datatype Command = Single(reg: word, val: word) | Run(reg: word, vals: seq<word>, pad: word)

  // register numbers leave the burst bit free, and a count fits a word
  predicate Encodable(c: Command) {
    !IsBurst(c.reg) && (c.Run? ==> |c.vals| < 0x1_0000)
  }

  // registers count modulo 2^16
  function RunWrites(reg: word, vals: seq<word>): seq<Write>
    decreases |vals|
  {
    if vals == [] then [] else [Write(reg, vals[0])] + RunWrites(NextRegister(reg), vals[1..])
  }

  function Meaning(cs: seq<Command>): seq<Write> {
    if cs == [] then [] else MeaningOf(cs[0]) + Meaning(cs[1..])
  }

  function MeaningOf(c: Command): seq<Write> {
    match c
    case Single(reg, val) => [Write(reg, val)]
    case Run(reg, vals, _) => RunWrites(reg, vals)
  }

  // GLAMO_DMA_OUT, or GLAMO_DMA_BURST and the outputs after it
  function Encode(c: Command): seq<word>
    requires Encodable(c)
  {
    match c
    case Single(reg, val) => [reg, val]
    case Run(reg, vals, pad) => [SetBurst(reg), |vals|] + vals + if |vals| % 2 == 1 then [pad] else []
  }

  predicate EncodableAll(cs: seq<Command>) {
    forall c :: c in cs ==> Encodable(c)
  }

  function EncodeAll(cs: seq<Command>): seq<word>
    requires EncodableAll(cs)
  {
    if cs == [] then [] else Encode(cs[0]) + EncodeAll(cs[1..])
  }

  // ---------------------------------------------------------------- reading words back

  // the length of the command at the front
  function FrameLength(words: seq<word>): nat
    requires |words| >= 2
  {
    if !IsBurst(words[0]) then 2
    else
      var n: nat := words[1];
      2 + n + n % 2
  }

  // words that are made of whole commands
  predicate Framed(words: seq<word>)
    decreases |words|
  {
    words == [] || (|words| >= 2 && FrameLength(words) <= |words| && Framed(words[FrameLength(words)..]))
  }

  // the register writes for the command at the front
  function Front(words: seq<word>): seq<Write>
    requires |words| >= 2 && FrameLength(words) <= |words|
  {
    if !IsBurst(words[0]) then [Write(words[0], words[1])]
    else RunWrites(ClearBurst(words[0]), words[2..2 + words[1]])
  }

  function Interpret(words: seq<word>): seq<Write>
    requires Framed(words)
    decreases |words|
  {
    if words == [] then [] else Front(words) + Interpret(words[FrameLength(words)..])
  }

  lemma FrontConcat(a: seq<word>, b: seq<word>)
    requires |a| >= 2 && FrameLength(a) <= |a|
    ensures FrameLength(a + b) == FrameLength(a) <= |a + b| && Front(a + b) == Front(a)
    ensures (a + b)[FrameLength(a)..] == a[FrameLength(a)..] + b
  {
    if IsBurst(a[0]) {
      var n := a[1];
      assert (a + b)[2..2 + n] == a[2..2 + n];
    }
  }

  lemma Unfold(words: seq<word>, rest: seq<word>)
    requires |words| >= 2 && FrameLength(words) <= |words| && words[FrameLength(words)..] == rest && Framed(rest)
    ensures Framed(words) && Interpret(words) == Front(words) + Interpret(rest)
  {
  }

  lemma NoWords(b: seq<word>)
    requires Framed(b)
    ensures Framed([] + b) && Interpret([] + b) == Interpret([]) + Interpret(b)
  {
    assert [] + b == b;
  }

  /** Commands behind each other are carried out behind each other. */
  lemma {:induction false} InterpretConcat(a: seq<word>, b: seq<word>)
    requires Framed(a) && Framed(b)
    ensures Framed(a + b) && Interpret(a + b) == Interpret(a) + Interpret(b)
    decreases |a|
  {
    if a == [] {
      NoWords(b);
    } else {
      var rest := a[FrameLength(a)..];
      FrontConcat(a, b);
      InterpretConcat(rest, b);
      Prepend(a, a + b, rest, rest + b, Interpret(b));
    }
  }

  // the same command in front of two rests
  lemma Prepend(a: seq<word>, c: seq<word>, restA: seq<word>, restC: seq<word>, w: seq<Write>)
    requires |a| >= 2 && FrameLength(a) <= |a| && a[FrameLength(a)..] == restA && Framed(restA)
    requires |c| >= 2 && FrameLength(c) <= |c| && c[FrameLength(c)..] == restC && Framed(restC)
    requires Front(c) == Front(a) && Interpret(restC) == Interpret(restA) + w
    ensures Framed(c) && Interpret(c) == Interpret(a) + w
  {
    Unfold(a, restA);
    Unfold(c, restC);
    Regroup(Front(a), Interpret(restA), w);
  }

  // whole commands, in pairs of words, that make these writes
  predicate Makes(words: seq<word>, writes: seq<Write>) {
    |words| % 2 == 0 && Framed(words) && Interpret(words) == writes
  }

  lemma MakesBoth(a: seq<word>, wa: seq<Write>, b: seq<word>, wb: seq<Write>)
    requires Makes(a, wa) && Makes(b, wb)
    ensures Makes(a + b, wa + wb)
  {
    InterpretConcat(a, b);
    EvenSum(|a|, |b|);
  }

  lemma EvenSum(m: nat, n: nat)
    requires m % 2 == 0 && n % 2 == 0
    ensures (m + n) % 2 == 0
  {
  }

  lemma EncodeBack(c: Command)
    requires Encodable(c)
    ensures Makes(Encode(c), MeaningOf(c))
  {
    var e := Encode(c);
    if c.Run? { assert e[2..2 + |c.vals|] == c.vals; }
    assert FrameLength(e) == |e| && e[|e|..] == [];
    assert Front(e) == MeaningOf(c);
    Unfold(e, []);
  }

  /** The chip's view inverts the encoding: every command is carried out, runs register by
      register, and padding is skipped. */
  lemma {:induction false} EncodeAllBack(cs: seq<Command>)
    requires EncodableAll(cs)
    ensures Makes(EncodeAll(cs), Meaning(cs))
  {
    if cs != [] {
      assert Encodable(cs[0]) && EncodableAll(cs[1..]);
      EncodeBack(cs[0]);
      EncodeAllBack(cs[1..]);
      MakesBoth(Encode(cs[0]), MeaningOf(cs[0]), EncodeAll(cs[1..]), Meaning(cs[1..]));
    }
  }

  /** A run writes its i-th value to the i-th register from its first. */
  lemma {:induction false} RunAt(reg: word, vals: seq<word>, i: nat)
    requires i < |vals|
    ensures |RunWrites(reg, vals)| == |vals| && RunWrites(reg, vals)[i] == Write((reg + 2 * i) % 0x1_0000, vals[i])
    decreases |vals|
  {
    if i > 0 {
      RunAt(NextRegister(reg), vals[1..], i - 1);
      TwoOn(reg, i);
    } else if |vals| > 1 {
      RunAt(NextRegister(reg), vals[1..], 0);
    }
  }

  lemma TwoOn(reg: word, i: nat)
    requires i > 0
    ensures (NextRegister(reg) + 2 * (i - 1)) % 0x1_0000 == (reg + 2 * i) % 0x1_0000
  {
    if reg + 2 >= 0x1_0000 {
      assert NextRegister(reg) + 2 * (i - 1) + 0x1_0000 == reg + 2 * i;
    }
  }
}
