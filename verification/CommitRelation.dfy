/** The commit transition relation, over any table. */
module CommitRelation {
  import opened Wrappers

  /** State and assurance names; a table may use others. */
  datatype Name =
    | New | Admitted | TransitVerified | DataFlushed | Durable | AtRestVerified | NamespaceLinked | Published
    | RecoveryRequired | Poisoned | Aborted | Named(text: string)

  datatype Event =
    | Recover | Abort | LinkNamespace
    | Admit | VerifyTransit | DataFlushSucceeded | JournalFlushSucceeded | VerifyAtRest | NamespaceDurable
    | DataFlushFailed | JournalFlushFailed | AtRestVerificationFailed
    | NamespaceLinkAmbiguous | NamespaceFlushFailed | Crash | Signal(text: string)

  datatype Profile = Fast | Balanced | Strict

  datatype Advance = Advance(next: Name, observation: Option<Name>)

  datatype Table = Table(
    terminal: set<Name>,
    required: map<Profile, Name>,
    poisoning: set<Event>,
    recovering: set<Event>,
    abortable: set<Name>,
    advances: map<(Name, Event), Advance>)

  datatype Refusal = StaleIncarnation | Terminal | InvalidTransition | MissingPredecessor

  datatype Machine = Machine(state: Name, recovery: Option<Name>, performed: seq<Name>)

  /** The refusal if any, the machine afterwards, and what was observed. */
  datatype Outcome = Outcome(refusal: Option<Refusal>, machine: Machine, observation: Option<Name>)

  function Refused(m: Machine, refusal: Refusal): Outcome {
    Outcome(Some(refusal), m, None)
  }

  function Moved(m: Machine, observation: Option<Name>): Outcome {
    Outcome(None, m, observation)
  }

  const START := Machine(New, None, [])

  /** One event: refused, or taken with its new state and record. */
  function Step(t: Table, profile: Profile, m: Machine, event: Event, current: bool): Outcome
    requires profile in t.required
  {
    if !current then Refused(m, StaleIncarnation)
    else if m.state in t.terminal then Refused(m, Terminal)
    else if event == Recover then
      if m.state != RecoveryRequired || m.recovery.None? then Refused(m, InvalidTransition)
      else Moved(m.(state := m.recovery.value, recovery := None), None)
    else if event in t.poisoning then Moved(m.(state := Poisoned), None)
    else if event in t.recovering then
      if m.state == RecoveryRequired then Refused(m, InvalidTransition)
      else Moved(m.(state := RecoveryRequired, recovery := Some(m.state)), None)
    else if event == Abort then
      if m.state !in t.abortable then Refused(m, InvalidTransition) else Moved(m.(state := Aborted), None)
    else if event == LinkNamespace then
      if m.state != t.required[profile] then Refused(m, InvalidTransition) else Moved(m.(state := NamespaceLinked), None)
    else if (m.state, event) !in t.advances then Refused(m, InvalidTransition)
    else
      var Advance(next, observation) := t.advances[(m.state, event)];
      if observation == Some(Published) && t.required[profile] !in m.performed then Refused(m, MissingPredecessor)
      else Moved(m.(state := next, performed := Recorded(m.performed, observation)), observation)
  }

  function Recorded(performed: seq<Name>, observation: Option<Name>): seq<Name> {
    if observation.Some? then performed + [observation.value] else performed
  }

  /** Refusing changes no part of the machine, and the history grows only by what was observed. */
  lemma RejectionChangesNothing(t: Table, profile: Profile, m: Machine, event: Event, current: bool)
    requires profile in t.required
    ensures var r := Step(t, profile, m, event, current);
            && (r.refusal.Some? ==> r.machine == m && r.observation.None?)
            && r.machine.performed == Recorded(m.performed, r.observation)
  {
  }

  function After(t: Table, profile: Profile, m: Machine, event: Event, current: bool): Machine
    requires profile in t.required
  {
    Step(t, profile, m, event, current).machine
  }

  datatype Input = Input(event: Event, current: bool)

  function Run(t: Table, profile: Profile, m: Machine, inputs: seq<Input>): Machine
    requires profile in t.required
    decreases |inputs|
  {
    if inputs == [] then m
    else Run(t, profile, After(t, profile, m, inputs[0].event, inputs[0].current), inputs[1..])
  }

  // ----- what is asked of a table

  /** Publication ends a run, and no advance publishes without recording it. */
  ghost predicate Publishing(t: Table) {
    && Published in t.terminal
    && (forall key :: key in t.advances && t.advances[key].next == Published ==>
          t.advances[key].observation == Some(Published))
  }

  /** An assurance: a state only advances lead to, each recording it. */
  ghost predicate Assurance(t: Table, name: Name) {
    && name !in {New, NamespaceLinked, RecoveryRequired, Poisoned, Aborted}
    && (forall key :: key in t.advances && t.advances[key].next == name ==> t.advances[key].observation == Some(name))
  }

  ghost predicate Sound(t: Table, profile: Profile)
    requires profile in t.required
  {
    Publishing(t) && Poisoned in t.terminal && Aborted in t.terminal && Assurance(t, t.required[profile])
  }

  /** Advances lead to none of the states that events of their own lead to,
      publication leaves only from the linked state, and recovery is left only
      by recovering. */
  ghost predicate Channelled(t: Table) {
    forall key :: key in t.advances ==>
      && t.advances[key].next !in {NamespaceLinked, RecoveryRequired, Poisoned, Aborted} && key.0 != RecoveryRequired
      && (t.advances[key].observation == Some(Published) ==> key.0 == NamespaceLinked)
  }

  // ----- the invariant

  /** Standing in publication means having performed the required assurance,
      and no recovery leads back into publication. */
  ghost predicate Earned(t: Table, profile: Profile, m: Machine)
    requires profile in t.required
  {
    && (m.state == Published ==> t.required[profile] in m.performed)
    && m.recovery != Some(Published)
  }

  lemma StepEarns(t: Table, profile: Profile, m: Machine, event: Event, current: bool)
    requires profile in t.required && Publishing(t) && Earned(t, profile, m)
    ensures Earned(t, profile, After(t, profile, m, event, current))
    ensures m.performed <= After(t, profile, m, event, current).performed
  {
  }

  lemma {:induction false} RunEarns(t: Table, profile: Profile, m: Machine, inputs: seq<Input>)
    requires profile in t.required && Publishing(t) && Earned(t, profile, m)
    ensures Earned(t, profile, Run(t, profile, m, inputs))
    ensures m.performed <= Run(t, profile, m, inputs).performed
    decreases |inputs|
  {
    hide Earned, Step, Publishing;
    if inputs != [] {
      StepEarns(t, profile, m, inputs[0].event, inputs[0].current);
      RunEarns(t, profile, After(t, profile, m, inputs[0].event, inputs[0].current), inputs[1..]);
    }
  }

  /** Whatever the table's other entries, and whatever the events and recoveries
      in between, a published machine had performed the assurance its profile
      requires. */
  lemma PublishedPerformed(t: Table, profile: Profile, inputs: seq<Input>)
    requires profile in t.required && Publishing(t)
    ensures var m := Run(t, profile, START, inputs);
            m.state == Published ==> t.required[profile] in m.performed
  {
    RunEarns(t, profile, START, inputs);
  }

  /** Recording is what it rests on: one advance that publishes silently is
      enough to publish with nothing performed. */
  lemma SilentPublication(t: Table, profile: Profile, event: Event)
    requires profile in t.required && New !in t.terminal
    requires event !in t.poisoning + t.recovering && event !in {Recover, Abort, LinkNamespace}
    requires (New, event) in t.advances && t.advances[(New, event)] == Advance(Published, None)
    ensures Run(t, profile, START, [Input(event, true)]) == Machine(Published, None, [])
  {
    var m := After(t, profile, START, event, true);
    assert [Input(event, true)][1..] == [];
    assert Run(t, profile, m, []) == m;
  }

  /** An assurance is on the record wherever the machine stands in it, or would
      after recovering. */
  ghost predicate Backed(name: Name, m: Machine) {
    m.state == name || m.recovery == Some(name) ==> name in m.performed
  }

  lemma StepKeeps(t: Table, profile: Profile, name: Name, m: Machine, event: Event, current: bool)
    requires profile in t.required && Assurance(t, name) && Backed(name, m)
    ensures Backed(name, After(t, profile, m, event, current))
    ensures m.performed <= After(t, profile, m, event, current).performed
  {
  }

  /** Over every run, each assurance stood in or saved was performed. */
  lemma {:induction false} RunKeeps(t: Table, profile: Profile, name: Name, m: Machine, inputs: seq<Input>)
    requires profile in t.required && Assurance(t, name) && Backed(name, m)
    ensures Backed(name, Run(t, profile, m, inputs))
    decreases |inputs|
  {
    hide Backed, Step, Assurance;
    if inputs != [] {
      StepKeeps(t, profile, name, m, inputs[0].event, inputs[0].current);
      RunKeeps(t, profile, name, After(t, profile, m, inputs[0].event, inputs[0].current), inputs[1..]);
    }
  }

  // ----- terminals, rejections and recovery

  /** A terminal machine stays as it is over any further run. */
  lemma {:induction false} TerminalAbsorbs(t: Table, profile: Profile, m: Machine, inputs: seq<Input>)
    requires profile in t.required && m.state in t.terminal
    ensures Run(t, profile, m, inputs) == m
    decreases |inputs|
  {
    if inputs != [] { TerminalAbsorbs(t, profile, m, inputs[1..]); }
  }

  /** Events that open a recovery. */
  ghost predicate Opens(t: Table, event: Event) {
    event in t.recovering && event !in t.poisoning && event != Recover
  }

  /** A recovery followed at once by recovering gives back the state and the
      history; it gives back the whole machine exactly when no earlier
      recovery was still saved. */
  lemma RecoverRestores(t: Table, profile: Profile, m: Machine, event: Event)
    requires profile in t.required && Opens(t, event) && RecoveryRequired !in t.terminal
    requires m.state !in t.terminal && m.state != RecoveryRequired
    ensures var back := Run(t, profile, m, [Input(event, true), Input(Recover, true)]);
            && back.state == m.state && back.performed == m.performed
            && (back == m <==> m.recovery.None?)
  {
    var waiting := After(t, profile, m, event, true);
    assert [Input(event, true), Input(Recover, true)][1..] == [Input(Recover, true)];
    assert Run(t, profile, waiting, [Input(Recover, true)]) == After(t, profile, waiting, Recover, true);
  }

  /** Under a channelled table a saved state exists only inside a recovery or
      after the end, and the linked state is reached only past the required
      assurance. */
  ghost predicate Orderly(t: Table, profile: Profile, m: Machine)
    requires profile in t.required
  {
    && (m.recovery.Some? ==> m.state == RecoveryRequired || m.state in t.terminal)
    && (m.recovery.Some? ==> m.recovery.value != RecoveryRequired && m.recovery.value !in t.terminal)
    && (m.state == NamespaceLinked || m.recovery == Some(NamespaceLinked) ==> t.required[profile] in m.performed)
  }

  lemma SoundAssures(t: Table, profile: Profile)
    requires profile in t.required && Sound(t, profile)
    ensures Assurance(t, t.required[profile])
  {
  }

  lemma StepOrderly(t: Table, profile: Profile, m: Machine, event: Event, current: bool)
    requires profile in t.required && Sound(t, profile) && Channelled(t) && Backed(t.required[profile], m) && Orderly(t, profile, m)
    ensures Orderly(t, profile, After(t, profile, m, event, current))
  {
    StepKeeps(t, profile, t.required[profile], m, event, current);
  }

  lemma {:induction false} RunOrderly(t: Table, profile: Profile, m: Machine, inputs: seq<Input>)
    requires profile in t.required && Sound(t, profile) && Channelled(t) && Backed(t.required[profile], m) && Orderly(t, profile, m)
    ensures Orderly(t, profile, Run(t, profile, m, inputs))
    decreases |inputs|
  {
    SoundAssures(t, profile);
    hide Backed, Step, Sound, Channelled, Orderly, Assurance;
    if inputs != [] {
      StepOrderly(t, profile, m, inputs[0].event, inputs[0].current);
      StepKeeps(t, profile, t.required[profile], m, inputs[0].event, inputs[0].current);
      RunOrderly(t, profile, After(t, profile, m, inputs[0].event, inputs[0].current), inputs[1..]);
    }
  }

  /** Over every run under a channelled table: publication is never refused for
      a missing predecessor, and any recovery that is opened gives back the
      whole machine when it is recovered at once. */
  lemma ChannelledRuns(t: Table, profile: Profile, inputs: seq<Input>, event: Event, current: bool)
    requires profile in t.required && Sound(t, profile) && Channelled(t)
    ensures var m := Run(t, profile, START, inputs);
            && Step(t, profile, m, event, current).refusal != Some(MissingPredecessor)
            && (Opens(t, event) && RecoveryRequired !in t.terminal && m.state !in t.terminal
                && m.state != RecoveryRequired
                ==> Run(t, profile, m, [Input(event, true), Input(Recover, true)]) == m)
  {
    hide Run;
    RunOrderly(t, profile, START, inputs);
    var m := Run(t, profile, START, inputs);
    if Opens(t, event) && RecoveryRequired !in t.terminal && m.state !in t.terminal && m.state != RecoveryRequired {
      RecoverRestores(t, profile, m, event);
    }
  }

  /** Over every run under a channelled table, each of the special states is
      entered by its own cause and no other. */
  lemma EntriesHaveCauses(t: Table, profile: Profile, inputs: seq<Input>, event: Event)
    requires profile in t.required && Sound(t, profile) && Channelled(t)
    ensures var m := Run(t, profile, START, inputs);
            var n := After(t, profile, m, event, true).state;
            m.state !in t.terminal ==>
              && (n == Poisoned <==> event in t.poisoning && event != Recover)
              && (n == RecoveryRequired && m.state != RecoveryRequired
                  <==> Opens(t, event) && m.state != RecoveryRequired)
              && (n == Aborted <==> Plain(t, event) && event == Abort && m.state in t.abortable)
              && (n == NamespaceLinked && m.state != NamespaceLinked
                  <==> || (event == Recover && m.state == RecoveryRequired && m.recovery == Some(NamespaceLinked))
                       || (Plain(t, event) && event == LinkNamespace && m.state == t.required[profile]))
  {
    hide Run;
    RunOrderly(t, profile, START, inputs);
    var m := Run(t, profile, START, inputs);
    if m.state !in t.terminal { CauseOfStep(t, profile, m, event); }
  }

  /** Events that neither poison nor open a recovery. */
  predicate Plain(t: Table, event: Event) {
    event !in t.poisoning && event !in t.recovering
  }

  lemma CauseOfStep(t: Table, profile: Profile, m: Machine, event: Event)
    requires profile in t.required && Sound(t, profile) && Channelled(t) && Orderly(t, profile, m) && m.state !in t.terminal
    ensures var n := After(t, profile, m, event, true).state;
            && (n == Poisoned <==> event in t.poisoning && event != Recover)
            && (n == RecoveryRequired && m.state != RecoveryRequired
                <==> Opens(t, event) && m.state != RecoveryRequired)
            && (n == Aborted <==> Plain(t, event) && event == Abort && m.state in t.abortable)
            && (n == NamespaceLinked && m.state != NamespaceLinked
                <==> || (event == Recover && m.state == RecoveryRequired && m.recovery == Some(NamespaceLinked))
                     || (Plain(t, event) && event == LinkNamespace && m.state == t.required[profile]))
  {
  }

  /** Events that only a row of the table can answer. */
  predicate Advancing(t: Table, event: Event) {
    Plain(t, event) && event !in {Recover, Abort, LinkNamespace}
  }

  /** A row answers, but publication lacks the assurance its profile requires. */
  ghost predicate Unearned(t: Table, profile: Profile, m: Machine, event: Event)
    requires profile in t.required
  {
    && Advancing(t, event) && (m.state, event) in t.advances
    && t.advances[(m.state, event)].observation == Some(Published) && t.required[profile] !in m.performed
  }

  /** Nothing to recover to, a recovery already open, a state not to abort or
      link from, or no row. */
  ghost predicate Unanswered(t: Table, profile: Profile, m: Machine, event: Event)
    requires profile in t.required
  {
    || (event == Recover && !(m.state == RecoveryRequired && m.recovery.Some?))
    || (Opens(t, event) && m.state == RecoveryRequired)
    || (Plain(t, event) && event == Abort && m.state !in t.abortable)
    || (Plain(t, event) && event == LinkNamespace && m.state != t.required[profile])
    || (Advancing(t, event) && (m.state, event) !in t.advances)
  }

  /** Which refusal each case gets, for every table and machine. */
  lemma RefusalExact(t: Table, profile: Profile, m: Machine, event: Event, current: bool)
    requires profile in t.required
    ensures var refusal := Step(t, profile, m, event, current).refusal;
            && (refusal == Some(StaleIncarnation) <==> !current)
            && (refusal == Some(Terminal) <==> current && m.state in t.terminal)
            && (refusal == Some(MissingPredecessor)
                <==> current && m.state !in t.terminal && Unearned(t, profile, m, event))
            && (refusal == Some(InvalidTransition)
                <==> current && m.state !in t.terminal && Unanswered(t, profile, m, event))
  {
  }

  /** For every table and machine, a state that no event of its own leads to is
      entered exactly when a recovery returns to it, or a row that is not
      refused names it; the row's observation and nothing else is recorded. */
  lemma EntryExact(t: Table, profile: Profile, m: Machine, event: Event, name: Name)
    requires profile in t.required && m.state !in t.terminal && m.state != name
    requires name !in {Poisoned, RecoveryRequired, Aborted, NamespaceLinked}
    ensures var n := After(t, profile, m, event, true);
            && (n.state == name
                <==> || (event == Recover && m.state == RecoveryRequired && m.recovery == Some(name))
                     || (&& Advancing(t, event) && (m.state, event) in t.advances && !Unearned(t, profile, m, event)
                         && t.advances[(m.state, event)].next == name))
            && (n.state == name && event != Recover ==>
                  n == Machine(name, m.recovery, Recorded(m.performed, t.advances[(m.state, event)].observation)))
            && (n.state == name && event == Recover ==> n == Machine(name, None, m.performed))
  {
  }

  // ----- whole paths through a table

  /** Rows that lead on from one state to the next. */
  ghost predicate Path(t: Table, state: Name, events: seq<Event>)
    decreases |events|
  {
    events == [] ||
    (&& state !in t.terminal && Advancing(t, events[0]) && (state, events[0]) in t.advances
     && t.advances[(state, events[0])].observation != Some(Published)
     && Path(t, t.advances[(state, events[0])].next, events[1..]))
  }

  /** Where a path ends, and what it records, from the rows alone. */
  ghost function PathEnd(t: Table, state: Name, events: seq<Event>): Name
    requires Path(t, state, events)
    decreases |events|
  {
    if events == [] then state else PathEnd(t, t.advances[(state, events[0])].next, events[1..])
  }

  ghost function PathRecord(t: Table, state: Name, events: seq<Event>): seq<Name>
    requires Path(t, state, events)
    decreases |events|
  {
    if events == [] then [] else
    var row := t.advances[(state, events[0])];
    Recorded([], row.observation) + PathRecord(t, row.next, events[1..])
  }

  lemma PathThrough(t: Table, state: Name, event: Event, rest: seq<Event>)
    requires state !in t.terminal && Advancing(t, event) && (state, event) in t.advances
    requires t.advances[(state, event)].observation != Some(Published) && Path(t, t.advances[(state, event)].next, rest)
    ensures var row := t.advances[(state, event)];
            && Path(t, state, [event] + rest)
            && PathEnd(t, state, [event] + rest) == PathEnd(t, row.next, rest)
            && PathRecord(t, state, [event] + rest) == Recorded([], row.observation) + PathRecord(t, row.next, rest)
  {
    assert ([event] + rest)[1..] == rest;
  }

  function Inputs(events: seq<Event>): (r: seq<Input>)
    ensures |r| == |events|
  {
    seq(|events|, i requires 0 <= i < |events| => Input(events[i], true))
  }

  /** A machine sent along a path ends where the rows lead, with what they record. */
  lemma {:induction false} PathRuns(t: Table, profile: Profile, m: Machine, events: seq<Event>)
    requires profile in t.required && Path(t, m.state, events)
    ensures Run(t, profile, m, Inputs(events))
         == Machine(PathEnd(t, m.state, events), m.recovery, m.performed + PathRecord(t, m.state, events))
    decreases |events|
  {
    if events == [] {
      assert Inputs(events) == [] && m.performed + [] == m.performed;
    } else {
      var row := t.advances[(m.state, events[0])];
      var n := After(t, profile, m, events[0], true);
      assert n == Machine(row.next, m.recovery, Recorded(m.performed, row.observation));
      assert Recorded(m.performed, row.observation) == m.performed + Recorded([], row.observation);
      PathRuns(t, profile, n, events[1..]);
      assert Inputs(events)[1..] == Inputs(events[1..]) && Inputs(events)[0] == Input(events[0], true);
      var first, rest := Recorded([], row.observation), PathRecord(t, row.next, events[1..]);
      assert m.performed + first + rest == m.performed + (first + rest);
    }
  }

  lemma {:induction false} RunJoin(t: Table, profile: Profile, m: Machine, a: seq<Input>, b: seq<Input>)
    requires profile in t.required
    ensures Run(t, profile, m, a + b) == Run(t, profile, Run(t, profile, m, a), b)
    decreases |a|
  {
    hide Step;
    if a == [] {
      assert a + b == b;
    } else {
      RunJoin(t, profile, After(t, profile, m, a[0].event, a[0].current), a[1..], b);
      assert (a + b)[1..] == a[1..] + b;
    }
  }

  // ----- the committed table

  function CommittedAdvances(): map<(Name, Event), Advance> {
    map[
      (New, Admit) := Advance(Admitted, Some(Admitted)),
      (Admitted, VerifyTransit) := Advance(TransitVerified, Some(TransitVerified)),
      (TransitVerified, DataFlushSucceeded) := Advance(DataFlushed, None),
      (DataFlushed, JournalFlushSucceeded) := Advance(Durable, Some(Durable)),
      (Durable, VerifyAtRest) := Advance(AtRestVerified, Some(AtRestVerified)),
      (NamespaceLinked, NamespaceDurable) := Advance(Published, Some(Published))]
  }

  function Committed(): Table {
    Table(
      {Published, Poisoned, Aborted},
      map[Fast := TransitVerified, Balanced := Durable, Strict := AtRestVerified],
      {DataFlushFailed, JournalFlushFailed, AtRestVerificationFailed},
      {NamespaceLinkAmbiguous, NamespaceFlushFailed, Crash},
      {New, Admitted, TransitVerified, DataFlushed, Durable, AtRestVerified},
      CommittedAdvances())
  }

  /** A committed advance records the state it leads to, but for the data flush. */
  lemma CommittedRecord(key: (Name, Event))
    requires key in CommittedAdvances()
    ensures var a := CommittedAdvances()[key];
            && (a.next == DataFlushed || a.observation == Some(a.next))
            && a.next !in {NamespaceLinked, RecoveryRequired, Poisoned, Aborted} && key.0 != RecoveryRequired
            && (a.observation == Some(Published) ==> key.0 == NamespaceLinked)
  {
  }

  /** The committed table meets every condition above, for every profile. */
  lemma CommittedIsSound(profile: Profile)
    ensures profile in Committed().required && Sound(Committed(), profile) && Channelled(Committed())
    ensures RecoveryRequired !in Committed().terminal
  {
    hide CommittedAdvances;
    var t := Committed();
    forall key | key in t.advances
      ensures var a := t.advances[key];
              && (a.next == DataFlushed || a.observation == Some(a.next))
              && a.next !in {NamespaceLinked, RecoveryRequired, Poisoned, Aborted} && key.0 != RecoveryRequired
              && (a.observation == Some(Published) ==> key.0 == NamespaceLinked)
    {
      CommittedRecord(key);
    }
  }

  // ----- what the committed table comes to

  /** The assurances up to the one a profile requires. */
  function Assured(profile: Profile): seq<Name> {
    match profile
    case Fast => [Admitted, TransitVerified]
    case Balanced => [Admitted, TransitVerified, Durable]
    case Strict => [Admitted, TransitVerified, Durable, AtRestVerified]
  }

  /** The events that lead there. */
  function Own(profile: Profile): seq<Event> {
    match profile
    case Fast => [Admit, VerifyTransit]
    case Balanced => [Admit, VerifyTransit, DataFlushSucceeded, JournalFlushSucceeded]
    case Strict => [Admit, VerifyTransit, DataFlushSucceeded, JournalFlushSucceeded, VerifyAtRest]
  }

  /** Standing in a state of the committed table, what has been performed. */
  function History(profile: Profile, state: Name): Option<seq<Name>> {
    match state
    case New => Some([])
    case Admitted => Some([Admitted])
    case TransitVerified => Some([Admitted, TransitVerified])
    case DataFlushed => Some([Admitted, TransitVerified])
    case Durable => Some([Admitted, TransitVerified, Durable])
    case AtRestVerified => Some([Admitted, TransitVerified, Durable, AtRestVerified])
    case NamespaceLinked => Some(Assured(profile))
    case Published => Some(Assured(profile) + [Published])
    case _ => None
  }

  /** The history follows from the state, or from the state to recover to. */
  ghost predicate Accounted(profile: Profile, m: Machine) {
    || m.state in {Poisoned, Aborted}
    || (m.state == RecoveryRequired && m.recovery.Some? && Some(m.performed) == History(profile, m.recovery.value))
    || Some(m.performed) == History(profile, m.state)
  }

  lemma RowAccounts(profile: Profile, key: (Name, Event))
    requires key in CommittedAdvances()
    ensures var row := CommittedAdvances()[key];
            && History(profile, key.0).Some?
            && History(profile, row.next) == Some(Recorded(History(profile, key.0).value, row.observation))
            && row.next !in {RecoveryRequired, Poisoned, Aborted}
  {
    assert [] + [Admitted] == [Admitted] && [Admitted] + [TransitVerified] == [Admitted, TransitVerified];
    assert [Admitted, TransitVerified] + [Durable] == [Admitted, TransitVerified, Durable];
    assert [Admitted, TransitVerified, Durable] + [AtRestVerified] == [Admitted, TransitVerified, Durable, AtRestVerified];
  }

  lemma CommittedFacts(profile: Profile)
    ensures profile in Committed().required && History(profile, Committed().required[profile]) == Some(Assured(profile))
    ensures Committed().terminal == {Published, Poisoned, Aborted} && Committed().advances == CommittedAdvances()
    ensures History(profile, RecoveryRequired).None? && History(profile, NamespaceLinked) == Some(Assured(profile))
  {
    hide CommittedAdvances;
  }

  lemma StepAccounts(profile: Profile, m: Machine, event: Event, current: bool)
    requires Accounted(profile, m)
    ensures profile in Committed().required && Accounted(profile, After(Committed(), profile, m, event, current))
  {
    hide CommittedAdvances, Committed, Assured, History, Recorded;
    CommittedFacts(profile);
    if (m.state, event) in Committed().advances { RowAccounts(profile, (m.state, event)); }
  }

  lemma {:induction false} RunAccounts(profile: Profile, m: Machine, inputs: seq<Input>)
    requires Accounted(profile, m)
    ensures profile in Committed().required && Accounted(profile, Run(Committed(), profile, m, inputs))
    decreases |inputs|
  {
    hide Accounted, Step, Committed;
    StepAccounts(profile, m, Admit, true);
    if inputs != [] {
      StepAccounts(profile, m, inputs[0].event, inputs[0].current);
      RunAccounts(profile, After(Committed(), profile, m, inputs[0].event, inputs[0].current), inputs[1..]);
    }
  }

  /** Over every run of the committed table, published means performed: exactly
      the assurances up to the required one, once each and in order. */
  lemma PublishedHistory(profile: Profile, inputs: seq<Input>)
    ensures profile in Committed().required
    ensures var m := Run(Committed(), profile, START, inputs);
            m.state == Published ==> m.performed == Assured(profile) + [Published]
  {
    hide Step, Committed;
    RunAccounts(profile, START, inputs);
  }

  /** The rows of these events lead from one state to another, recording this. */
  ghost predicate Leads(from: Name, events: seq<Event>, to: Name, record: seq<Name>) {
    && Path(Committed(), from, events) && PathEnd(Committed(), from, events) == to
    && PathRecord(Committed(), from, events) == record
  }

  lemma LeadsThrough(from: Name, event: Event, next: Name, observation: Option<Name>, rest: seq<Event>, to: Name, record: seq<Name>)
    requires (from, event) in CommittedAdvances() && CommittedAdvances()[(from, event)] == Advance(next, observation)
    requires observation != Some(Published) && Leads(next, rest, to, record)
    ensures Leads(from, [event] + rest, to, (if observation.Some? then [observation.value] else []) + record)
  {
    Rows();
    hide Path, PathEnd, PathRecord;
    PathThrough(Committed(), from, event, rest);
    assert observation.Some? ==> [] + [observation.value] == [observation.value];
  }

  lemma LeadsToTransit(rest: seq<Event>, to: Name, record: seq<Name>)
    requires Leads(TransitVerified, rest, to, record)
    ensures Leads(New, [Admit, VerifyTransit] + rest, to, [Admitted, TransitVerified] + record)
  {
    Rows();
    hide Leads, CommittedAdvances, Committed;
    LeadsThrough(Admitted, VerifyTransit, TransitVerified, Some(TransitVerified), rest, to, record);
    LeadsThrough(New, Admit, Admitted, Some(Admitted), [VerifyTransit] + rest, to, [TransitVerified] + record);
    assert [Admit] + ([VerifyTransit] + rest) == [Admit, VerifyTransit] + rest;
    assert [Admitted] + ([TransitVerified] + record) == [Admitted, TransitVerified] + record;
  }

  lemma LeadsToDurable(rest: seq<Event>, to: Name, record: seq<Name>)
    requires Leads(Durable, rest, to, record)
    ensures Leads(TransitVerified, [DataFlushSucceeded, JournalFlushSucceeded] + rest, to, [Durable] + record)
  {
    Rows();
    hide Leads, CommittedAdvances, Committed;
    LeadsThrough(DataFlushed, JournalFlushSucceeded, Durable, Some(Durable), rest, to, record);
    LeadsThrough(TransitVerified, DataFlushSucceeded, DataFlushed, None, [JournalFlushSucceeded] + rest, to, [Durable] + record);
    assert [DataFlushSucceeded] + ([JournalFlushSucceeded] + rest) == [DataFlushSucceeded, JournalFlushSucceeded] + rest;
    assert [] + ([Durable] + record) == [Durable] + record;
  }

  /** The rows of a profile's own events lead to its required assurance. */
  lemma OwnPath(profile: Profile)
    ensures profile in Committed().required
    ensures Leads(New, Own(profile), Committed().required[profile], Assured(profile))
  {
    var to := Committed().required[profile];
    NoPath(Committed(), to);
    assert Leads(to, [], to, []);
    var rest: seq<Event>, record: seq<Name> := [], [];
    if profile == Strict {
      Rows();
      LeadsThrough(Durable, VerifyAtRest, AtRestVerified, Some(AtRestVerified), [], to, []);
      rest, record := [VerifyAtRest], [AtRestVerified];
    }
    hide Leads, CommittedAdvances, Committed;
    if profile != Fast {
      LeadsToDurable(rest, to, record);
      rest, record := [DataFlushSucceeded, JournalFlushSucceeded] + rest, [Durable] + record;
    }
    LeadsToTransit(rest, to, record);
    assert Own(profile) == [Admit, VerifyTransit] + rest;
    assert Assured(profile) == [Admitted, TransitVerified] + record;
  }

  lemma NoPath(t: Table, state: Name)
    ensures Path(t, state, []) && PathEnd(t, state, []) == state && PathRecord(t, state, []) == []
  {
  }

  lemma Rows()
    ensures var a := CommittedAdvances();
            && (New, Admit) in a && a[(New, Admit)] == Advance(Admitted, Some(Admitted))
            && (Admitted, VerifyTransit) in a && a[(Admitted, VerifyTransit)] == Advance(TransitVerified, Some(TransitVerified))
            && (TransitVerified, DataFlushSucceeded) in a && a[(TransitVerified, DataFlushSucceeded)] == Advance(DataFlushed, None)
            && (DataFlushed, JournalFlushSucceeded) in a && a[(DataFlushed, JournalFlushSucceeded)] == Advance(Durable, Some(Durable))
            && (Durable, VerifyAtRest) in a && a[(Durable, VerifyAtRest)] == Advance(AtRestVerified, Some(AtRestVerified))
            && (NamespaceLinked, NamespaceDurable) in a && a[(NamespaceLinked, NamespaceDurable)] == Advance(Published, Some(Published))
  {
  }

  /** And every profile's own sequence publishes. */
  lemma OwnPublishes(profile: Profile)
    ensures profile in Committed().required
    ensures Run(Committed(), profile, START, Inputs(Own(profile)) + [Input(LinkNamespace, true), Input(NamespaceDurable, true)])
         == Machine(Published, None, Assured(profile) + [Published])
  {
    hide Path, PathEnd, PathRecord, CommittedAdvances, Step, Run;
    OwnPath(profile);
    PathRuns(Committed(), profile, START, Own(profile));
    RunJoin(Committed(), profile, START, Inputs(Own(profile)), [Input(LinkNamespace, true), Input(NamespaceDurable, true)]);
    assert [] + Assured(profile) == Assured(profile);
    LinkThenPublish(profile);
  }

  lemma LinkThenPublish(profile: Profile)
    ensures profile in Committed().required
    ensures Run(Committed(), profile, Machine(Committed().required[profile], None, Assured(profile)),
                [Input(LinkNamespace, true), Input(NamespaceDurable, true)])
         == Machine(Published, None, Assured(profile) + [Published])
  {
    hide CommittedAdvances;
    Rows();
    var t, last := Committed(), [Input(LinkNamespace, true), Input(NamespaceDurable, true)];
    var m := Machine(t.required[profile], None, Assured(profile));
    var linked := After(t, profile, m, LinkNamespace, true);
    assert linked == m.(state := NamespaceLinked);
    assert t.required[profile] in m.performed;
    assert last[1..] == [Input(NamespaceDurable, true)];
    assert Run(t, profile, linked, last[1..]) == After(t, profile, linked, NamespaceDurable, true);
  }
}
