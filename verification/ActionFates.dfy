/** What becomes of every message over whole runs: it is dealt with once, or is still pending. */
module ActionFates {
  import opened Serialization
  import opened ActionMessages
  import opened ActionWorld
  import opened ActionRuns

  datatype Fate =
    /** Executed by the owner of the helper that executes one action at a time. */
    | EXECUTED
    /** Refused by that helper, because it was busy. */
    | REFUSED
    /** Its data was given to the owner of another helper or of the commander. */
    | GIVEN
    /** A reply without data, which the commander told its owner. */
    | TOLD
    | CLEARED

  predicate IsTaken(s: System, op: Op) {
    match op
    case Execute(i, _, _) => i < |s.world.pending| && s.world.pending[i].message.command == EXECUTE_ACTION
    case ExecuteSimple(i, _, _) => i < |s.world.pending| && s.world.pending[i].message.command == EXECUTE_ACTION
    case Reply(i) => i < |s.world.pending| && TakesReply(s.commander, s.world.pending[i].message)
    case ClearMessage(i) => i < |s.world.pending|
    case _ => false
  }

  function FateOf(s: System, op: Op): Fate
    requires IsTaken(s, op)
  {
    match op
    case Execute(_, _, _) => GIVEN
    case ExecuteSimple(_, _, _) => if s.progress.isExecuting then REFUSED else EXECUTED
    case Reply(i) => if s.world.pending[i].message.command == DATA_REPLY then GIVEN else TOLD
    case ClearMessage(_) => CLEARED
  }

  function StillPending(s: System, op: Op): seq<Mail> {
    if IsTaken(s, op) then Without(s.world.pending, op.i) else s.world.pending
  }

  /** What a call puts into the queues. */
  ghost function HandedOverBy(s: System, op: Op): multiset<Mail> {
    var before, after := StillPending(s, op), Step(s, op).world.pending;
    if |before| <= |after| then multiset(after[|before|..]) else multiset{}
  }

  ghost function MetBy(s: System, op: Op, fate: Fate): multiset<Mail> {
    if IsTaken(s, op) && FateOf(s, op) == fate then multiset{s.world.pending[op.i]} else multiset{}
  }

  ghost function HandedOver(s: System, ops: seq<Op>): multiset<Mail>
    decreases |ops|
  {
    if ops == [] then multiset{} else HandedOverBy(s, ops[0]) + HandedOver(Step(s, ops[0]), ops[1..])
  }

  /** The messages that met a fate in a run, with multiplicity. */
  ghost function Met(s: System, ops: seq<Op>, fate: Fate): multiset<Mail>
    decreases |ops|
  {
    if ops == [] then multiset{} else MetBy(s, ops[0], fate) + Met(Step(s, ops[0]), ops[1..], fate)
  }

  // ---------- one step ----------

  lemma {:induction false} ReportAllAppends(w: World, queue: QueueId, reports: seq<ActionWorld.Report>)
    ensures w.pending <= ReportAll(w, queue, reports).pending
    decreases |reports|
  {
    if reports != [] {
      ReportAllAppends(ReportData(w, queue, reports[0]), queue, reports[1..]);
    }
  }

  /** A call takes at most one message out of the queues and otherwise only appends. */
  lemma StepAppends(s: System, op: Op)
    ensures StillPending(s, op) <= Step(s, op).world.pending
  {
    if (op.Execute? || op.ExecuteSimple?) && IsTaken(s, op) {
      ReportAllAppends(Removed(s.world, op.i), op.queue, op.x.reports);
    }
  }

  lemma {:induction false} TakenOut(pending: seq<Mail>, i: nat)
    requires i < |pending|
    ensures multiset(pending) == multiset(Without(pending, i)) + multiset{pending[i]}
  {
    var a, b := pending[..i], pending[i + 1..];
    assert Without(pending, i) == a + b;
    assert pending == a + [pending[i]] + b;
  }

  ghost function TakenBy(s: System, op: Op): multiset<Mail> {
    if IsTaken(s, op) then multiset{s.world.pending[op.i]} else multiset{}
  }

  lemma StepBalances(s: System, op: Op)
    ensures multiset(s.world.pending) + HandedOverBy(s, op) == multiset(Step(s, op).world.pending) + TakenBy(s, op)
  {
    var before, after := StillPending(s, op), Step(s, op).world.pending;
    StepAppends(s, op);
    assert after == before + after[|before|..];
    if IsTaken(s, op) { TakenOut(s.world.pending, op.i); }
  }

  lemma TakenMeetsOneFate(s: System, op: Op)
    ensures TakenBy(s, op) == MetBy(s, op, EXECUTED) + MetBy(s, op, REFUSED) + MetBy(s, op, GIVEN)
                              + MetBy(s, op, TOLD) + MetBy(s, op, CLEARED)
  {
  }

  // ---------- whole runs ----------

  ghost function Dealt(s: System, ops: seq<Op>): multiset<Mail> {
    Met(s, ops, EXECUTED) + Met(s, ops, REFUSED) + Met(s, ops, GIVEN) + Met(s, ops, TOLD) + Met(s, ops, CLEARED)
  }

  lemma Interleave(a: multiset<Mail>, b: multiset<Mail>, c: multiset<Mail>, d: multiset<Mail>, e: multiset<Mail>,
                   a': multiset<Mail>, b': multiset<Mail>, c': multiset<Mail>, d': multiset<Mail>, e': multiset<Mail>)
    ensures (a + a') + (b + b') + (c + c') + (d + d') + (e + e') == (a + b + c + d + e) + (a' + b' + c' + d' + e')
  {
  }

  lemma DealtNext(s: System, ops: seq<Op>)
    requires ops != []
    ensures Dealt(s, ops) == TakenBy(s, ops[0]) + Dealt(Step(s, ops[0]), ops[1..])
  {
    var op, next, rest := ops[0], Step(s, ops[0]), ops[1..];
    TakenMeetsOneFate(s, op);
    Interleave(MetBy(s, op, EXECUTED), MetBy(s, op, REFUSED), MetBy(s, op, GIVEN), MetBy(s, op, TOLD),
               MetBy(s, op, CLEARED), Met(next, rest, EXECUTED), Met(next, rest, REFUSED), Met(next, rest, GIVEN),
               Met(next, rest, TOLD), Met(next, rest, CLEARED));
  }

  lemma Rearrange(p0: multiset<Mail>, h0: multiset<Mail>, p1: multiset<Mail>, t0: multiset<Mail>, h1: multiset<Mail>,
                  p2: multiset<Mail>, t1: multiset<Mail>)
    requires p0 + h0 == p1 + t0 && p1 + h1 == p2 + t1
    ensures p0 + (h0 + h1) == p2 + (t0 + t1)
  {
    assert p0 + (h0 + h1) == (p0 + h0) + h1;
    assert (p1 + t0) + h1 == (p1 + h1) + t0;
    assert (p2 + t1) + t0 == p2 + (t0 + t1);
  }

  /** Over any run of any calls with any outcomes, every message that was pending or is handed over is still
      pending or met exactly one fate exactly once: none is lost, none is dealt with twice. */
  lemma {:induction false} EveryMessageHasOneFate(s: System, ops: seq<Op>)
    ensures multiset(s.world.pending) + HandedOver(s, ops)
         == multiset(Run(s, ops).world.pending)
            + (Met(s, ops, EXECUTED) + Met(s, ops, REFUSED) + Met(s, ops, GIVEN) + Met(s, ops, TOLD)
               + Met(s, ops, CLEARED))
    decreases |ops|
  {
    if ops != [] {
      var next := Step(s, ops[0]);
      StepBalances(s, ops[0]);
      EveryMessageHasOneFate(next, ops[1..]);
      DealtNext(s, ops);
      Rearrange(multiset(s.world.pending), HandedOverBy(s, ops[0]), multiset(next.world.pending), TakenBy(s, ops[0]),
                HandedOver(next, ops[1..]), multiset(Run(s, ops).world.pending), Dealt(next, ops[1..]));
    }
  }

  // ---------- the logs ----------

  ghost function Mails(log: seq<Delivery>): multiset<Mail> {
    if log == [] then multiset{} else Mails(log[..|log| - 1]) + multiset{log[|log| - 1].mail}
  }

  lemma MailsNext(log: seq<Delivery>, d: Delivery)
    ensures Mails(log + [d]) == Mails(log) + multiset{d.mail}
  {
    assert (log + [d])[..|log|] == log;
  }

  ghost predicate Meets(s: System, op: Op, fate: Fate) {
    IsTaken(s, op) && FateOf(s, op) == fate
  }

  /** What the receiver of a message with a live slot is given. */
  function Handed(w: World, i: nat): Delivery
    requires i < |w.pending| && GetStoreId(w.pending[i].message) in w.slots
  {
    Delivery(w.pending[i], w.slots[GetStoreId(w.pending[i].message)])
  }

  lemma ExecutionsAfter(s: System, op: Op)
    requires Accounted(s.world, s.leaked)
    ensures Meets(s, op, EXECUTED) ==>
              GetStoreId(s.world.pending[op.i].message) in s.world.slots
              && Step(s, op).executions == s.executions + [Handed(s.world, op.i)]
    ensures !Meets(s, op, EXECUTED) ==> Step(s, op).executions == s.executions
  {
    if op.ExecuteSimple? && IsTaken(s, op) { CommandIsExecutedIffIdle(s, op); }
  }

  lemma DeliveriesAfter(s: System, op: Op)
    requires Accounted(s.world, s.leaked)
    ensures Meets(s, op, GIVEN) ==>
              GetStoreId(s.world.pending[op.i].message) in s.world.slots
              && Step(s, op).deliveries == s.deliveries + [Handed(s.world, op.i)]
    ensures !Meets(s, op, GIVEN) ==> Step(s, op).deliveries == s.deliveries
  {
    if Meets(s, op, GIVEN) { ReceiveAccounts(s.world, s.leaked, op.i); }
  }

  /** What was executed and what was given away is what the logs say, as long as no slot is unaccounted for. */
  lemma StepLogs(s: System, op: Op)
    requires Accounted(s.world, s.leaked)
    ensures Mails(Step(s, op).executions) == Mails(s.executions) + MetBy(s, op, EXECUTED)
    ensures Mails(Step(s, op).deliveries) == Mails(s.deliveries) + MetBy(s, op, GIVEN)
  {
    ExecutionsAfter(s, op);
    DeliveriesAfter(s, op);
    if Meets(s, op, EXECUTED) { MailsNext(s.executions, Handed(s.world, op.i)); }
    if Meets(s, op, GIVEN) { MailsNext(s.deliveries, Handed(s.world, op.i)); }
  }

  lemma Associate(x: multiset<Mail>, y: multiset<Mail>, z: multiset<Mail>)
    ensures (x + y) + z == x + (y + z)
  {
  }

  /** So over a run the logs hold each executed message and each message given away once. */
  lemma {:induction false} LogsHoldEachOnce(s: System, ops: seq<Op>)
    requires Accounted(s.world, s.leaked)
    ensures Mails(Run(s, ops).executions) == Mails(s.executions) + Met(s, ops, EXECUTED)
    ensures Mails(Run(s, ops).deliveries) == Mails(s.deliveries) + Met(s, ops, GIVEN)
    decreases |ops|
  {
    if ops != [] {
      var next := Step(s, ops[0]);
      StepLogs(s, ops[0]);
      StepKeepsAccount(s, ops[0]);
      LogsHoldEachOnce(next, ops[1..]);
      Associate(Mails(s.executions), MetBy(s, ops[0], EXECUTED), Met(next, ops[1..], EXECUTED));
      Associate(Mails(s.deliveries), MetBy(s, ops[0], GIVEN), Met(next, ops[1..], GIVEN));
    }
  }
}
