/** The daemon driven through whole runs. */
module GsmdRuns {
  import opened AtEngine
  import opened Gsmd

  // a run whose lines leave room in the answer buffer
  predicate FitsAll(m: Modem, e: Engine, steps: seq<Step>)
    decreases |steps|
  {
    steps == [] ||
    (&& Fits(m, e, steps[0]) && (steps[0].DoLine? ==> |steps[0].line| <= MLPARSE_BUF_SIZE)
     && FitsAll(m, Apply(m, e, steps[0]), steps[1..]))
  }

  // one event of the main loop
  method Take(d: Daemon, m: Modem, s: Step)
    requires d.Valid() && Room(d.State()) && Sound(d.State()) && Fits(m, d.State(), s)
    requires s.DoLine? ==> |s.line| <= MLPARSE_BUF_SIZE
    modifies d, d.mlbuf
    ensures d.Valid() && d.mlbuf == old(d.mlbuf) && d.State() == Apply(m, old(d.State()), s)
    ensures Room(d.State()) && Sound(d.State())
  {
    StepSound(m, d.State(), s);
    RoomKeptIff(m, d.State(), s);
    match s
    case DoSubmit(r) => d.AtcmdSubmit(r);
    case DoWrite => d.SelectWrite();
    case DoPrompt => d.AtcmdPrompt();
    case DoLine(line, first, again, more) => d.ParseLine(m, line, first, again, more);
    case DoTimeout => d.Timeout();
    case DoCancel(r, more) => d.CancelAtcmd(r, more);
  }

  /** What holds of every run holds of the daemon: it never loses a wake-up, it loses no command,
      and without cancellations it keeps the order of submission in its queues and on the wire. */
  method Drive(m: Modem, steps: seq<Step>) returns (d: Daemon)
    requires FitsAll(m, INITIAL, steps)
    ensures fresh(d) && d.Valid() && d.State() == Run(m, INITIAL, steps)
    ensures d.pending != [] && d.busy == [] ==> d.whenWrite || Sending(d.pending[0]) || Stuck(d.pending[0])
    ensures multiset(Ids(d.gone) + Ids(d.busy) + Ids(d.pending)) == multiset(UpTo(d.next))
    ensures (forall s :: s in steps ==> !s.DoCancel?) ==> Ids(d.gone) + Ids(d.busy) + Ids(d.pending) == UpTo(d.next)
    ensures (forall s :: s in steps ==> Textual(s)) ==> d.wire == Sent(d.gone + d.busy) + Begun(d.pending)
  {
    InitialState();
    d := new Daemon();
    ghost var rest := steps;
    var i := 0;
    while i < |steps|
      invariant 0 <= i <= |steps| && rest == steps[i..]
      invariant fresh(d) && fresh(d.mlbuf) && d.Valid() && Room(d.State()) && Sound(d.State())
      invariant FitsAll(m, d.State(), rest) && Run(m, d.State(), rest) == Run(m, INITIAL, steps)
    {
      assert rest[0] == steps[i];
      Take(d, m, steps[i]);
      rest := rest[1..];
      i := i + 1;
    }
    NothingLost(m, INITIAL, steps);
    if forall s :: s in steps ==> !s.DoCancel? { FirstInFirstOut(m, INITIAL, steps); }
    if forall s :: s in steps ==> Textual(s) { ModemReceives(m, INITIAL, steps); }
  }
}
