/** The simple form of a run: turn by turn, the steps of other threads that are possible, and then the
    writer's next step. The writer's nested loops are proved to do exactly this. */
module Scheduling {
  import opened ByteStrings
  import opened Writer
  import opened WriterLaws
  import opened Writev

  /** What the writer's next step meets: steps of other threads before it, the kernel's answer if it
      is a writev, and whether a periodic fsync is due. */
  datatype Turn = Turn(others: seq<Action>, answer: WritevReturn, due: bool)

  function Performed(o: Options, s: State, acts: seq<Action>): (r: seq<Action>)
    ensures Run(o, s, r).Some?
  {
    if acts == [] then RunOfNothing(o, s); []
    else
      var r := Performed(o, s, acts[..|acts| - 1]);
      var a := acts[|acts| - 1];
      if Enabled(Run(o, s, r).value, a) then RunSnoc(o, s, r, a); r + [a] else r
  }

  function AnswerAction(rest: seq<Bytes>, answer: WritevReturn): Action {
    match answer
    case Eintr => Interrupted
    case HardError => WritevFailed
    case Wrote(choice) => Action.Writev(Count(choice, |Concat(Slice(rest))|))
  }

  /** The writer's next step at each place of its loop. */
  function NextAction(pc: Pc, rest: seq<Bytes>, turn: Turn): Action
    requires !pc.Gone?
  {
    match pc
    case AtTop => Lock
    case Asleep => Wake
    case Idle(_) => IdleTest(turn.due)
    case Writing => AnswerAction(rest, turn.answer)
    case Storing => StoreOffset
    case Syncing => Fsync(turn.due)
    case StopTest => TestStop
    case LockedTest => TestQueue
    case Leaving(_) => FinalFsync
  }

  lemma NextEnabled(s: State, turn: Turn)
    requires !s.pc.Gone?
    ensures Enabled(s, NextAction(s.pc, s.log.rest, turn)) && FromWriter(NextAction(s.pc, s.log.rest, turn))
  {
    hide Concat, Slice, Count;
  }

  function TurnSteps(o: Options, s: State, turn: Turn): (r: seq<Action>)
    ensures Run(o, s, r).Some?
  {
    var others := Performed(o, s, turn.others);
    var m := Run(o, s, others).value;
    if m.pc.Gone? then others
    else
      NextEnabled(m, turn);
      RunSnoc(o, s, others, NextAction(m.pc, m.log.rest, turn));
      others + [NextAction(m.pc, m.log.rest, turn)]
  }

  function Schedule(o: Options, s: State, turns: seq<Turn>): (r: seq<Action>)
    ensures Run(o, s, r).Some?
  {
    if turns == [] then RunOfNothing(o, s); []
    else
      var r := Schedule(o, s, turns[..|turns| - 1]);
      var more := TurnSteps(o, Run(o, s, r).value, turns[|turns| - 1]);
      RunAppend(o, s, r, more);
      r + more
  }

  /** Sleeps of appender `id`, each ended by a test. */
  function Naps(o: Options, s: State, id: nat, between: seq<seq<Turn>>): seq<Action> {
    if between == [] then []
    else
      var r := Naps(o, s, id, between[..|between| - 1]);
      if Run(o, s, r).None? then r
      else r + Schedule(o, Run(o, s, r).value, between[|between| - 1]) + [BlockWake(id)]
  }

  lemma PerformedMore(o: Options, file: Bytes, base: seq<Action>, s: State, acts: seq<Action>, i: nat)
    requires Run(o, Start(file), base) == Some(s) && i < |acts|
    ensures var done := Performed(o, s, acts[..i]);
            && Run(o, Start(file), base + done).Some?
            && var m := Run(o, Start(file), base + done).value;
               base + Performed(o, s, acts[..i + 1])
                 == base + done + if Enabled(m, acts[i]) then [acts[i]] else []
  {
    hide Run, Enabled, Step;
    var done := Performed(o, s, acts[..i]);
    assert acts[..i + 1][..i] == acts[..i];
    RunAppend(o, Start(file), base, done);
    Assoc(base, done, [acts[i]]);
    assert base + done + [] == base + done;
  }

  /** One more turn. */
  lemma ScheduleMore(o: Options, file: Bytes, base: seq<Action>, start: State, turns: seq<Turn>, t: nat)
    requires Run(o, Start(file), base) == Some(start) && t < |turns|
    ensures var done := Schedule(o, start, turns[..t]);
            && Run(o, Start(file), base + done).Some?
            && var others := Performed(o, Run(o, Start(file), base + done).value, turns[t].others);
               && Run(o, Start(file), base + done + others).Some?
               && var m := Run(o, Start(file), base + done + others).value;
                  base + Schedule(o, start, turns[..t + 1])
                    == base + done + others
                       + if m.pc.Gone? then [] else [NextAction(m.pc, m.log.rest, turns[t])]
  {
    hide Run, Enabled, Step, Performed, NextAction;
    var done := Schedule(o, start, turns[..t]);
    assert turns[..t + 1][..t] == turns[..t];
    RunAppend(o, Start(file), base, done);
    var s := Run(o, start, done).value;
    var others := Performed(o, s, turns[t].others);
    RunAppend(o, Start(file), base + done, others);
    var m := Run(o, s, others).value;
    var last := if m.pc.Gone? then [] else [NextAction(m.pc, m.log.rest, turns[t])];
    assert others + [] == others;
    Assoc(base, done, others + last);
    Assoc(base + done, others, last);
  }

  /** One more sleep. */
  lemma NapsMore(o: Options, file: Bytes, base: seq<Action>, s: State, id: nat, between: seq<seq<Turn>>, i: nat)
    requires Run(o, Start(file), base) == Some(s) && i < |between|
    ensures var done := Naps(o, s, id, between[..i]);
            Run(o, Start(file), base + done).Some? ==>
              var m := Run(o, Start(file), base + done).value;
              base + Naps(o, s, id, between[..i + 1])
                == base + done + Schedule(o, m, between[i]) + [BlockWake(id)]
  {
    hide Run, Enabled, Step, Schedule;
    var done := Naps(o, s, id, between[..i]);
    assert between[..i + 1][..i] == between[..i];
    RunAppend(o, Start(file), base, done);
    if Run(o, s, done).Some? {
      var more := Schedule(o, Run(o, s, done).value, between[i]);
      Assoc(base, done + more, [BlockWake(id)]);
      Assoc(base, done, more);
    }
  }

  lemma NothingScheduled(o: Options, s: State)
    ensures Schedule(o, s, []) == [] && Performed(o, s, []) == [] && forall id :: Naps(o, s, id, []) == []
  {
  }
}
