/**
 * peer/torrent_worker.py: the lifecycle of one torrent's worker. The barrier, logging and
 * timing are stripped; everything the outside world decides is an `Env`.
 */
module Workers {
  import opened Wrappers
  import opened ByteStrings
  import opened HexText
  import opened Torrents
  import opened PieceStore
  import opened PieceClients
  import AnnounceQuery
  import opened TrackerReply
  import opened WorkerTurns
  import D = DownloadTheorems

  /** An announce that was attempted. */
  datatype Announced = Announced(args: AnnounceQuery.ClientArgs, outcome: AnnounceOutcome)

  datatype WorkerResult = WorkerResult(
    startedSent: bool, completedSent: bool, stoppedSent: bool, cycles: nat, periodic: nat,
    bytesDownloaded: nat, finalLeft: int, complete: bool)

  // ---- What a run's announces look like ----------------------------------------

  predicate IsEvent(a: Announced, event: string) { a.args.event == Some(event) }

  /** `periodic_announces`: the accepted announces without an event. */
  function Periodic(trace: seq<Announced>): nat {
    if trace == [] then 0
    else
      var last := trace[|trace| - 1];
      Periodic(trace[..|trace| - 1]) + if last.args.event == None && last.outcome.Accepted? then 1 else 0
  }

  /** The arguments are valid, and downloaded and left account for the same `balance`. */
  predicate Accounted(infoHash: Bytes, balance: int, a: Announced) {
    a.args.infoHash == infoHash && AnnounceQuery.ArgsError(a.args) == None && a.args.downloaded + a.args.left == balance
  }

  /** Every announce is valid and accounted for, and `left` never rises. */
  predicate Truthful(infoHash: Bytes, balance: int, trace: seq<Announced>) {
    && (forall k :: 0 <= k < |trace| ==> Accounted(infoHash, balance, trace[k]))
    && (forall j, k :: 0 <= j < k < |trace| ==> trace[k].args.left <= trace[j].args.left)
  }

  /** `completed` is attempted at most once, with nothing left, by a worker that began incomplete. */
  predicate CompletedOnce(wasIncomplete: bool, trace: seq<Announced>) {
    && (forall k :: 0 <= k < |trace| && IsEvent(trace[k], "completed") ==> wasIncomplete && trace[k].args.left == 0)
    && (forall j, k :: 0 <= j < k < |trace| ==> !(IsEvent(trace[j], "completed") && IsEvent(trace[k], "completed")))
  }

  /** `started`, then periodic and `completed` announces; only the last may have failed. */
  predicate BeforeShutdown(trace: seq<Announced>) {
    && |trace| > 0 && IsEvent(trace[0], "started")
    && (forall k :: 1 <= k < |trace| ==> trace[k].args.event == None || IsEvent(trace[k], "completed"))
    && (forall k :: 0 <= k < |trace| - 1 ==> trace[k].outcome.Accepted?)
  }

  predicate CompletedAccepted(trace: seq<Announced>) {
    exists k :: 0 <= k < |trace| && IsEvent(trace[k], "completed") && trace[k].outcome.Accepted?
  }

  /** The whole lifecycle: nothing, a failed `started`, or a run that ends in one `stopped`. */
  predicate Lifecycle(trace: seq<Announced>) {
    || trace == []
    || (|trace| == 1 && IsEvent(trace[0], "started") && !trace[0].outcome.Accepted?)
    || (&& |trace| >= 2 && trace[0].outcome.Accepted?
        && BeforeShutdown(trace[..|trace| - 1])
        && IsEvent(trace[|trace| - 1], "stopped"))
  }

  /** No announce reported less than is left now. */
  predicate NoneBelow(left: int, trace: seq<Announced>) {
    forall k :: 0 <= k < |trace| ==> left <= trace[k].args.left
  }

  predicate AllAccepted(trace: seq<Announced>) { forall k :: 0 <= k < |trace| ==> trace[k].outcome.Accepted? }

  /** `completed`, if attempted, comes right before shutdown. */
  predicate CompletedIsLast(trace: seq<Announced>) {
    forall k :: 0 <= k < |trace| && IsEvent(trace[k], "completed") ==> k == |trace| - 1
  }

  /** With exit-on-complete nothing but `stopped` follows `completed`. */
  predicate CompletedBeforeStopped(trace: seq<Announced>) {
    forall k :: 0 <= k < |trace| && IsEvent(trace[k], "completed") ==> k == |trace| - 2
  }

  /** A turn is counted when it begins, a periodic announce when it has been accepted. */
  predicate TurnsAddUp(cycles: nat, periodic: nat) {
    if cycles == 0 then periodic == 0 else periodic == cycles || periodic == cycles - 1
  }

  /** What the result says agrees with the announces. */
  predicate Reported(
    trace: seq<Announced>, startedSent: bool, completedSent: bool, stoppedSent: bool, cycles: nat, periodic: nat)
  {
    && (startedSent <==> trace != [] && trace[0].outcome.Accepted?)
    && (completedSent <==> CompletedAccepted(trace))
    && (stoppedSent <==> |trace| >= 2 && trace[|trace| - 1].outcome.Accepted?)
    && periodic == Periodic(trace)
    && TurnsAddUp(cycles, periodic)
  }

  // ---- Extending a list of announces -------------------------------------------

  lemma StartedIsUnderway(wasIncomplete: bool, options: Options, trace: seq<Announced>)
    requires |trace| == 1 && IsEvent(trace[0], "started") && trace[0].outcome.Accepted?
    ensures Underway(wasIncomplete, options, trace, false, 0)
  {
    assert trace[..0] == [];
  }

  /** While everything was accepted, an announce that cannot be found was never attempted. */
  predicate NoneCompleted(trace: seq<Announced>) { forall k :: 0 <= k < |trace| ==> !IsEvent(trace[k], "completed") }

  lemma NotAttempted(trace: seq<Announced>)
    requires AllAccepted(trace) && !CompletedAccepted(trace)
    ensures NoneCompleted(trace) && CompletedIsLast(trace)
  {
  }

  lemma ExtendWithCompleted(trace: seq<Announced>, a: Announced)
    requires BeforeShutdown(trace) && AllAccepted(trace) && CompletedOnce(true, trace) && !CompletedAccepted(trace)
    requires IsEvent(a, "completed") && a.args.left == 0
    ensures var longer := trace + [a];
      && BeforeShutdown(longer) && CompletedOnce(true, longer) && CompletedIsLast(longer)
      && Periodic(longer) == Periodic(trace)
      && (a.outcome.Accepted? ==> AllAccepted(longer))
      && (CompletedAccepted(longer) <==> a.outcome.Accepted?)
  {
    NotAttempted(trace);
    var longer := trace + [a];
    assert longer[..|longer| - 1] == trace;
    assert longer[|trace|] == a;
  }

  lemma ExtendWithPeriodic(wasIncomplete: bool, trace: seq<Announced>, a: Announced)
    requires BeforeShutdown(trace) && AllAccepted(trace) && CompletedOnce(wasIncomplete, trace)
    requires a.args.event == None
    ensures var longer := trace + [a];
      && BeforeShutdown(longer) && CompletedOnce(wasIncomplete, longer)
      && Periodic(longer) == Periodic(trace) + (if a.outcome.Accepted? then 1 else 0)
      && (a.outcome.Accepted? ==> AllAccepted(longer))
      && (CompletedAccepted(longer) <==> CompletedAccepted(trace))
      && (!CompletedAccepted(trace) ==> CompletedIsLast(longer))
  {
    var longer := trace + [a];
    assert longer[..|longer| - 1] == trace;
    assert forall k :: 0 <= k < |trace| ==> longer[k] == trace[k];
    if !CompletedAccepted(trace) { NotAttempted(trace); }
    if CompletedAccepted(trace) {
      var k :| 0 <= k < |trace| && IsEvent(trace[k], "completed") && trace[k].outcome.Accepted?;
      assert longer[k] == trace[k];
    }
  }

  /** No announce without an event has nothing left. */
  predicate PeriodicIncomplete(trace: seq<Announced>) {
    forall k :: 0 <= k < |trace| && trace[k].args.event == None ==> trace[k].args.left > 0
  }

  /** With these options a worker never goes on announcing once it is complete. */
  predicate EndsWhenComplete(options: Options) { options.exitOnComplete || options.maxCycles == 1 }

  /** What the loop of `run` keeps: everything so far was accepted and is correctly counted. */
  ghost predicate Underway(
    wasIncomplete: bool, options: Options, trace: seq<Announced>, completedSent: bool, periodic: nat)
  {
    && BeforeShutdown(trace) && AllAccepted(trace) && CompletedOnce(wasIncomplete, trace)
    && (completedSent <==> CompletedAccepted(trace)) && periodic == Periodic(trace)
    && (EndsWhenComplete(options) ==> PeriodicIncomplete(trace))
  }

  /** What holds once the loop has been left; its last announce may have failed. */
  ghost predicate Left(
    wasIncomplete: bool, options: Options, trace: seq<Announced>, completedSent: bool, periodic: nat)
  {
    && BeforeShutdown(trace) && trace[0].outcome.Accepted? && CompletedOnce(wasIncomplete, trace)
    && (completedSent <==> CompletedAccepted(trace)) && periodic == Periodic(trace)
    && (options.exitOnComplete ==> CompletedIsLast(trace))
    && (EndsWhenComplete(options) ==> PeriodicIncomplete(trace))
  }

  lemma UnderwayMayLeave(
      wasIncomplete: bool, options: Options, trace: seq<Announced>, completedSent: bool, periodic: nat)
    requires Underway(wasIncomplete, options, trace, completedSent, periodic)
    requires options.exitOnComplete ==> !completedSent
    ensures Left(wasIncomplete, options, trace, completedSent, periodic)
  {
    if !completedSent { NotAttempted(trace); }
  }

  lemma CompletedStep(options: Options, trace: seq<Announced>, a: Announced, periodic: nat)
    requires Underway(true, options, trace, false, periodic) && IsEvent(a, "completed") && a.args.left == 0
    ensures Left(true, options, trace + [a], a.outcome.Accepted?, periodic)
    ensures a.outcome.Accepted? ==> Underway(true, options, trace + [a], true, periodic)
  {
    hide CompletedAccepted, CompletedOnce, CompletedIsLast, Periodic;
    ExtendWithCompleted(trace, a);
    assert (trace + [a])[0] == trace[0];
  }

  lemma PeriodicStep(
      wasIncomplete: bool, options: Options, trace: seq<Announced>, a: Announced, completedSent: bool, periodic: nat)
    requires Underway(wasIncomplete, options, trace, completedSent, periodic) && a.args.event == None
    requires options.exitOnComplete ==> !completedSent
    requires EndsWhenComplete(options) ==> a.args.left > 0
    ensures Left(wasIncomplete, options, trace + [a], completedSent, periodic + if a.outcome.Accepted? then 1 else 0)
    ensures a.outcome.Accepted? ==> Underway(wasIncomplete, options, trace + [a], completedSent, periodic + 1)
  {
    hide CompletedAccepted, CompletedOnce, CompletedIsLast, Periodic;
    ExtendWithPeriodic(wasIncomplete, trace, a);
    assert (trace + [a])[0] == trace[0];
  }

  lemma StoppedStep(
      wasIncomplete: bool, options: Options, trace: seq<Announced>, a: Announced,
      completedSent: bool, cycles: nat, periodic: nat)
    requires Left(wasIncomplete, options, trace, completedSent, periodic) && TurnsAddUp(cycles, periodic)
    requires IsEvent(a, "stopped")
    ensures var longer := trace + [a];
      && |longer| >= 2
      && Lifecycle(longer) && CompletedOnce(wasIncomplete, longer)
      && Reported(longer, true, completedSent, a.outcome.Accepted?, cycles, periodic)
      && (options.exitOnComplete ==> CompletedBeforeStopped(longer))
      && (EndsWhenComplete(options) ==> PeriodicIncomplete(longer))
  {
    var longer := trace + [a];
    assert longer[..|longer| - 1] == trace;
    assert forall k :: 0 <= k < |trace| ==> longer[k] == trace[k];
    if CompletedAccepted(trace) {
      var k :| 0 <= k < |trace| && IsEvent(trace[k], "completed") && trace[k].outcome.Accepted?;
      assert longer[k] == trace[k];
    }
  }

  // ---- Going on after completion -----------------------------------------------

  /** Nobody to download from, and nobody stops the worker in its first turn. */
  predicate Undisturbed(env: Env) {
    && env.setUp && env.announces(0).Accepted? && env.announces(0).response.peers == []
    && !env.stopSet(0) && !env.stopWhileWaiting(1)
  }

  /** The second announce is periodic and reports that nothing is left. */
  predicate AnnouncesWhenComplete(trace: seq<Announced>) {
    |trace| >= 2 && trace[1].args.event == None && trace[1].args.left == 0
  }

  lemma UndisturbedEnvironment() returns (env: Env)
    ensures Undisturbed(env)
  {
    env := Env(true, n => false, n => false, n => Responsive([]), n => 0,
               n => Accepted(TrackerResponse(1, 1, 0, [])));
  }

  // ---- What a turn announces ---------------------------------------------------

  /** Each announce reports the uploads of its moment and ends as the outside world has it. */
  predicate Reflects(env: Env, trace: seq<Announced>) {
    forall k :: 0 <= k < |trace| ==> trace[k].outcome == env.announces(k) && trace[k].args.uploaded == env.uploaded(k)
  }

  /** The events of the announces from the n-th on. */
  function EventsFrom(trace: seq<Announced>, n: nat): (events: seq<Option<string>>)
    requires n <= |trace|
    ensures |events| == |trace| - n
    ensures forall k :: 0 <= k < |events| ==> events[k] == trace[n + k].args.event
  {
    seq(|trace| - n, k requires 0 <= k < |trace| - n => trace[n + k].args.event)
  }

  /** `completed` when a turn is the first to find the store complete, and a periodic announce if the worker goes on. */
  function TurnEvents(options: Options, env: Env, c: nat, first: bool, done: bool, sent: bool): seq<Option<string>> {
    (if first then [Some("completed")] else [])
    + (if (first && !sent) || (done && options.exitOnComplete) || c >= options.maxCycles || env.stopWhileWaiting(c)
       then [] else [None])
  }

  /** The announces that turn c adds, and the response it leaves, once its downloads are over. */
  predicate Announces(
    options: Options, env: Env, c: nat, raised: bool, done: bool, wasIncomplete: bool, completed: bool,
    earlier: seq<Announced>, trace: seq<Announced>, next: Option<TrackerResponse>, completedSent: bool)
  {
    var first, sent := done && wasIncomplete && !completed, env.announces(|earlier|).Accepted?;
    && |earlier| <= |trace| && trace[..|earlier|] == earlier
    && EventsFrom(trace, |earlier|) == (if raised then [] else TurnEvents(options, env, c, first, done, sent))
    && completedSent == (completed || (!raised && first && sent))
    && next == if |trace| > |earlier| && trace[|trace| - 1].args.event == None && trace[|trace| - 1].outcome.Accepted?
               then Some(trace[|trace| - 1].outcome.response) else None
  }

  /** A turn that raises announces nothing. */
  lemma RaisedTurn(
      options: Options, env: Env, c: nat, done: bool, wasIncomplete: bool, completed: bool, trace: seq<Announced>)
    ensures Announces(options, env, c, true, done, wasIncomplete, completed, trace, trace, None, completed)
  {
    assert EventsFrom(trace, |trace|) == [];
  }

  /** A turn announces completion if it is the first to find the store complete, and then goes on or not. */
  lemma AnnouncedTurn(
      options: Options, env: Env, c: nat, done: bool, wasIncomplete: bool, completed: bool,
      earlier: seq<Announced>, trace: seq<Announced>, goes: bool)
    requires var first := done && wasIncomplete && !completed;
      && |trace| == |earlier| + (if first then 1 else 0) + (if goes then 1 else 0)
      && trace[..|earlier|] == earlier
      && (first ==> IsEvent(trace[|earlier|], "completed"))
      && (goes ==> trace[|trace| - 1].args.event == None)
      && (goes <==>
            !((first && !env.announces(|earlier|).Accepted?) || (done && options.exitOnComplete)
              || c >= options.maxCycles || env.stopWhileWaiting(c)))
    ensures Announces(
      options, env, c, false, done, wasIncomplete, completed, earlier, trace,
      if goes && trace[|trace| - 1].outcome.Accepted? then Some(trace[|trace| - 1].outcome.response) else None,
      completed || (done && wasIncomplete && !completed && env.announces(|earlier|).Accepted?))
  {
    var first, sent := done && wasIncomplete && !completed, env.announces(|earlier|).Accepted?;
    assert EventsFrom(trace, |earlier|) == TurnEvents(options, env, c, first, done, sent);
  }

  /** Every turn that first finds the store complete is followed by `completed`, as the announce of that number. */
  ghost predicate CompletionsAnnounced(
    cl: Client, s: Session, env: Env, options: Options, trace: seq<Announced>, cycles: nat)
    requires Ready(cl, s)
  {
    forall c: nat :: c <= cycles && CompletesIn(cl, s, env, options, c) ==>
      c < |trace| && IsEvent(trace[c], "completed")
  }

  /** Why the loop of `run` ended. */
  predicate HasReason(
    cl: Client, s: Session, env: Env, options: Options, session: Session, trace: seq<Announced>, cycles: nat)
    requires Ready(cl, s)
  {
    || cycles >= options.maxCycles || env.stopSet(cycles)
    || (trace != [] && !trace[|trace| - 1].outcome.Accepted?)
    || (cycles > 0 && (env.stopWhileWaiting(cycles) || env.contacts(cycles).PingRaised? || TurnRaises(cl, s, env, cycles)))
    || (Complete(session) && options.exitOnComplete)
  }

  /** Before turn c + 1: the session is the one that c turns lead to, and nothing has ended the loop. */
  ghost predicate Going(
    cl: Client, s: Session, env: Env, options: Options, session: Session, trace: seq<Announced>, c: nat,
    listed: bool, completedSent: bool)
    requires Ready(cl, s)
  {
    && session == SessionAfter(cl, s, env, c) && WentOn(cl, s, env, c)
    && (!Complete(session) ==> |trace| == c + 1 && !completedSent && listed == Lists(env.announces(c)))
    && CompletionsAnnounced(cl, s, env, options, trace, c)
  }

  /** What the whole loop did to the store, turn by turn, and when it ended. */
  ghost predicate Ran(
    cl: Client, s: Session, env: Env, options: Options, session: Session, trace: seq<Announced>, cycles: nat)
    requires Ready(cl, s)
  {
    && session == SessionAfter(cl, s, env, cycles)
    && TookTurns(cl, s, env, options, cycles)
    && (forall c: nat :: CompletesIn(cl, s, env, options, c) ==>
          Complete(session) && c < |trace| && IsEvent(trace[c], "completed"))
    && (forall j :: 0 <= j < cycles ==> !env.stopSet(j))
    && (forall j :: 1 <= j < cycles ==> !env.stopWhileWaiting(j))
  }

  lemma NothingRan(cl: Client, s: Session, env: Env, options: Options, trace: seq<Announced>)
    requires Ready(cl, s) && (!env.setUp || !env.announces(0).Accepted?)
    ensures Ran(cl, s, env, options, s, trace, 0)
  {
    hide Ready, TurnRaises, Complete, AfterTurn;
    TurnsTaken(cl, s, env, options, 0);
    forall c: nat ensures !CompletesIn(cl, s, env, options, c) { }
  }

  lemma GoingStarts(cl: Client, s: Session, env: Env, options: Options, trace: seq<Announced>, listed: bool)
    requires Ready(cl, s) && env.setUp && env.announces(0).Accepted? && |trace| == 1
    requires listed == Lists(env.announces(0))
    ensures Going(cl, s, env, options, s, trace, 0, listed, false)
  {
    hide Ready, TurnRaises, Complete, AfterTurn, Reaches;
    ReachesFromOne(cl, s, env, options);
  }

  /** What the announces of a turn say about it. */
  lemma TurnShape(
      options: Options, env: Env, c: nat, raised: bool, done: bool, wasIncomplete: bool, completed: bool,
      earlier: seq<Announced>, trace: seq<Announced>, next: Option<TrackerResponse>, completedSent: bool)
    requires Announces(options, env, c, raised, done, wasIncomplete, completed, earlier, trace, next, completedSent)
    requires Reflects(env, trace)
    ensures var first := done && wasIncomplete && !completed;
      && (raised ==> trace == earlier && next == None)
      && (!raised && first ==> |trace| > |earlier| && IsEvent(trace[|earlier|], "completed"))
      && (next.Some? ==>
            && !raised && !env.stopWhileWaiting(c) && c < options.maxCycles
            && |trace| == |earlier| + (if first then 2 else 1)
            && env.announces(|trace| - 1) == Accepted(next.value))
      && (next.None? && !raised ==>
            || c >= options.maxCycles || env.stopWhileWaiting(c) || (done && options.exitOnComplete)
            || (|trace| > |earlier| && !trace[|trace| - 1].outcome.Accepted? && !env.announces(|trace| - 1).Accepted?))
      && (!first ==> |trace| <= |earlier| + 1 && completedSent == completed)
  {
    var first, sent := done && wasIncomplete && !completed, env.announces(|earlier|).Accepted?;
    var events := EventsFrom(trace, |earlier|);
    if |trace| > |earlier| {
      assert events[|events| - 1] == trace[|trace| - 1].args.event;
      assert events[0] == trace[|earlier|].args.event;
    } else {
      assert trace == earlier;
    }
  }

  /** A turn's session does not depend on who is listed once the store is complete. */
  lemma SameTurn(cl: Client, s: Session, env: Env, before: Session, c: nat, listed: bool)
    requires Ready(cl, s) && c > 0 && before == SessionAfter(cl, s, env, c - 1)
    requires !Complete(before) ==> listed == Lists(env.announces(c - 1))
    ensures AfterTurn(cl, before, listed, env.contacts(c)) == SessionAfter(cl, s, env, c)
    ensures Complete(before) ==> Complete(SessionAfter(cl, s, env, c))
    ensures !Complete(before) ==> (TurnRaises(cl, s, env, c) <==> listed && ContactRaises(cl, before, env.contacts(c)))
    ensures Complete(before) && ContactRaises(cl, before, env.contacts(c)) ==> env.contacts(c).PingRaised?
  {
    hide Ready, Complete, AfterTurn, ContactRaises;
    if Complete(before) {
      TurnGrows(cl, before, listed, env.contacts(c));
      TurnGrows(cl, before, Lists(env.announces(c - 1)), env.contacts(c));
      CompleteStays(cl, before, env.contacts(c));
    }
  }

  /** One turn: the next one can be taken, or there is a reason why it is the last. */
  lemma TurnAdvances(
      cl: Client, s: Session, env: Env, options: Options, before: Session, after: Session, c: nat, listed: bool,
      wasIncomplete: bool, completed: bool, earlier: seq<Announced>, trace: seq<Announced>,
      next: Option<TrackerResponse>, completedSent: bool)
    requires Ready(cl, s) && Ready(cl, before) && 1 <= c <= options.maxCycles && !env.stopSet(c - 1)
    requires Going(cl, s, env, options, before, earlier, c - 1, listed, completed)
    requires after == AfterTurn(cl, before, listed, env.contacts(c))
    requires !Complete(before) ==> wasIncomplete
    requires Announces(options, env, c, listed && ContactRaises(cl, before, env.contacts(c)), Complete(after),
                       wasIncomplete, completed, earlier, trace, next, completedSent)
    requires Reflects(env, trace)
    ensures after == SessionAfter(cl, s, env, c)
    ensures CompletionsAnnounced(cl, s, env, options, trace, c)
    ensures next.Some? ==> Going(cl, s, env, options, after, trace, c, next.value.peers != [], completedSent)
    ensures next.None? ==> IsLast(cl, s, env, options, c) && HasReason(cl, s, env, options, after, trace, c)
  {
    hide Ready, TurnRaises, Complete, AfterTurn, ContactRaises, CompletionsAnnounced, SessionAfter, Announces, Reflects,
      Reaches, WentOn, IsLast, HasReason;
    var raised := listed && ContactRaises(cl, before, env.contacts(c));
    SameTurn(cl, s, env, before, c, listed);
    OneMoreCompletion(cl, s, env, options, earlier, trace, c, raised, wasIncomplete, completed, next, completedSent);
    TurnShape(options, env, c, raised, Complete(after), wasIncomplete, completed, earlier, trace, next, completedSent);
    if next.Some? {
      OneMoreTurn(cl, s, env, c);
    } else {
      NoMoreTurns(cl, s, env, options, after, earlier, trace, c, raised);
    }
  }

  /** Nothing ends the loop in turn c. */
  lemma OneMoreTurn(cl: Client, s: Session, env: Env, c: nat)
    requires Ready(cl, s) && c > 0 && WentOn(cl, s, env, c - 1) && !env.stopSet(c - 1) && !env.stopWhileWaiting(c)
    requires !Complete(SessionAfter(cl, s, env, c)) ==> env.announces(c).Accepted? && !TurnRaises(cl, s, env, c)
    ensures WentOn(cl, s, env, c)
  {
    hide Ready, TurnRaises, Complete, SessionAfter;
  }

  /** Something ends the loop in turn c. */
  lemma NoMoreTurns(
      cl: Client, s: Session, env: Env, options: Options, after: Session, earlier: seq<Announced>,
      trace: seq<Announced>, c: nat, raised: bool)
    requires Ready(cl, s) && c > 0 && after == SessionAfter(cl, s, env, c)
    requires raised ==> TurnRaises(cl, s, env, c) || (Complete(after) && env.contacts(c).PingRaised?)
    requires !raised ==>
      || c >= options.maxCycles || env.stopWhileWaiting(c) || (Complete(after) && options.exitOnComplete)
      || (|trace| > |earlier| && !trace[|trace| - 1].outcome.Accepted? && !env.announces(|trace| - 1).Accepted?)
    requires !Complete(after) ==> |earlier| == c && |trace| <= |earlier| + 1
    ensures IsLast(cl, s, env, options, c) && HasReason(cl, s, env, options, after, trace, c)
  {
    hide Ready, TurnRaises, Complete, SessionAfter;
  }

  lemma OneMoreCompletion(
      cl: Client, s: Session, env: Env, options: Options, earlier: seq<Announced>, trace: seq<Announced>, c: nat,
      raised: bool, wasIncomplete: bool, completed: bool, next: Option<TrackerResponse>, completedSent: bool)
    requires Ready(cl, s) && c > 0 && CompletionsAnnounced(cl, s, env, options, earlier, c - 1)
    requires Announces(options, env, c, raised, Complete(SessionAfter(cl, s, env, c)), wasIncomplete, completed,
                       earlier, trace, next, completedSent)
    requires Reflects(env, trace)
    requires !Complete(SessionAfter(cl, s, env, c - 1)) ==>
      wasIncomplete && !completed && |earlier| == c && raised == TurnRaises(cl, s, env, c)
    ensures CompletionsAnnounced(cl, s, env, options, trace, c)
  {
    hide Ready, TurnRaises, Complete, SessionAfter, Reaches, TurnEvents, EventsFrom;
    var done := Complete(SessionAfter(cl, s, env, c));
    TurnShape(options, env, c, raised, done, wasIncomplete, completed, earlier, trace, next, completedSent);
    ReachedIsIncomplete(cl, s, env, options, c);
    forall d: nat | d <= c && CompletesIn(cl, s, env, options, d)
      ensures d < |trace| && IsEvent(trace[d], "completed")
    {
      if d < c { assert trace[d] == trace[..|earlier|][d]; }
    }
  }

  /** The loop is over after these turns. */
  lemma LoopRan(
      cl: Client, s: Session, env: Env, options: Options, session: Session, trace: seq<Announced>, cycles: nat)
    requires Ready(cl, s) && cycles <= options.maxCycles && session == SessionAfter(cl, s, env, cycles)
    requires IsLast(cl, s, env, options, cycles) && CompletionsAnnounced(cl, s, env, options, trace, cycles)
    requires cycles > 0 ==> WentOn(cl, s, env, cycles - 1) && !env.stopSet(cycles - 1)
    ensures Ran(cl, s, env, options, session, trace, cycles)
  {
    hide Ready, TurnRaises, Complete, SessionAfter, Reaches, IsLast;
    TurnsTaken(cl, s, env, options, cycles);
    forall c: nat | CompletesIn(cl, s, env, options, c)
      ensures c <= cycles && Complete(session)
    {
      SessionStays(cl, s, env, c, cycles);
    }
  }

  lemma StillRan(
      cl: Client, s: Session, env: Env, options: Options, session: Session, trace: seq<Announced>, a: Announced,
      cycles: nat)
    requires Ready(cl, s) && Ran(cl, s, env, options, session, trace, cycles)
    ensures Ran(cl, s, env, options, session, trace + [a], cycles)
  {
    hide Ready, Complete, SessionAfter, CompletesIn, TookTurns;
  }

  // ---- The worker --------------------------------------------------------------

  class TorrentWorker {
    const infoHash: Digest
    const client: PieceClient
    const options: Options
    const env: Env
    ghost const balance: int
    var trace: seq<Announced>

    ghost predicate Valid()
      reads this, client, client.manager
    {
      && client.Valid() && options.maxCycles > 0
      && client.downloaded >= 0
      && D.Balance(client.client, client.State()) == balance
      && Truthful(infoHash, balance, trace) && Reflects(env, trace)
      && NoneBelow(CurrentLeft(), trace)
    }

    ghost function CurrentLeft(): int
      reads client, client.manager
    {
      LeftBytes(client.client.config.torrent, client.manager.bitfield)
    }

    /** The bitfield agrees with the disk, as it does after the worker's set-up. */
    ghost predicate ExactStore()
      reads client, client.manager
    {
      Exact(client.client.config, client.manager.State())
    }

    constructor (infoHash: Digest, client: PieceClient, options: Options, env: Env)
      requires client.Valid() && client.downloaded >= 0 && options.maxCycles > 0
      ensures Valid() && fresh(this) && trace == []
      ensures this.infoHash == infoHash && this.client == client && this.options == options && this.env == env
    {
      this.infoHash := infoHash;
      this.client := client;
      this.options := options;
      this.env := env;
      this.balance := D.Balance(client.client, client.State());
      this.trace := [];
    }

    lemma BalanceIsKept()
      requires Valid()
      ensures client.downloaded + CurrentLeft() == balance && Truthful(infoHash, balance, trace)
    {
      hide LeftBytes, Truthful, NoneBelow;
    }

    /** `manager.left` and `manager.is_complete()`. */
    method LeftAndComplete() returns (left: int, complete: bool)
      requires Valid()
      ensures left == CurrentLeft() >= 0 && (complete <==> left == 0)
      ensures complete <==> AllSet(client.manager.bitfield)
    {
      left := client.manager.Left();
      complete := AllSet(client.manager.bitfield);
    }

    /** `announce(event)` inside `run`. */
    method Announce(event: Option<string>) returns (outcome: AnnounceOutcome)
      requires Valid() && (event.Some? ==> AnnounceQuery.KnownEvent(event.value))
      modifies `trace
      ensures Valid() && client.State() == old(client.State())
      ensures ExactStore() == old(ExactStore())
      ensures |trace| > 0 && trace == old(trace) + [trace[|trace| - 1]]
      ensures var last := trace[|trace| - 1];
        last.args.event == event && last.outcome == outcome && last.args.left == CurrentLeft()
      ensures outcome == env.announces(|old(trace)|)
      ensures trace[|trace| - 1].args.uploaded == env.uploaded(|old(trace)|)
      ensures CurrentLeft() == old(CurrentLeft())
    {
      var left := client.manager.Left();
      outcome := env.announces(|trace|);
      var args := AnnounceQuery.ClientArgs(infoHash, env.uploaded(|trace|), client.downloaded, left, event);
      trace := trace + [Announced(args, outcome)];
    }

    /** The downloads of one turn; false if an exception ends it. */
    method Contact(contact: Contact) returns (ok: bool, bytes: nat)
      requires Valid()
      modifies client, client.manager
      ensures Valid() && trace == old(trace)
      ensures client.State() == AfterContact(client.client, old(client.State()), contact)
      ensures ok <==> !ContactRaises(client.client, old(client.State()), contact)
      ensures old(client.downloaded) + bytes == CountedAt(client.client, old(client.State()), contact)
      ensures old(client.downloaded) + bytes <= client.downloaded
      ensures old(ExactStore()) ==> ExactStore()
    {
      hide Truthful, Download, LeftBytes, WellFormed, D.Balance, Exact, AllSet, Over, D.Downloads, Raises, Reflects;
      bytes := 0;
      if contact.PingRaised? { return false, 0; }
      var remotes := contact.remotes;
      ghost var cl, s := client.client, client.State();
      NoDownloads(cl, s, remotes);
      for i := 0 to |remotes|
        invariant Valid() && trace == old(trace)
        invariant client.State() == D.Downloads(cl, s, remotes[..i])
        invariant i > 0 ==> !Raises(cl, s, remotes, i - 1)
        invariant forall k :: 0 <= k < i ==> !Over(cl, s, remotes, k)
        invariant client.downloaded == old(client.downloaded) + bytes
        invariant old(ExactStore()) ==> ExactStore()
      {
        OverBefore(cl, s, remotes, i);
        if AllSet(client.manager.bitfield) {
          StopIs(cl, s, remotes, i);
          return true, bytes;
        }
        DownloadMoves(client.client, client.State(), remotes[i]);
        OneMoreDownload(cl, s, remotes, i);
        var r := client.DownloadFromPeer(remotes[i]);
        if r.Err? {
          StopIs(cl, s, remotes, i + 1);
          return false, bytes;
        }
        bytes := bytes + r.value.bytesDownloaded;
      }
      OverAtEnd(cl, s, remotes);
      StopIs(cl, s, remotes, |remotes|);
      ok := true;
    }

    /**
     * The body of the `while` loop of `run`, once its turn has been counted; no next response
     * stands for its breaks and its exceptions.
     */
    method Turn(
        response: TrackerResponse, wasIncomplete: bool, cycles: nat, completed: bool, before: nat)
      returns (next: Option<TrackerResponse>, completedSent: bool, periodic: nat, bytes: nat)
      requires Valid() && Underway(wasIncomplete, options, trace, completed, before) && 0 < cycles <= options.maxCycles
      requires options.exitOnComplete ==> !completed
      modifies this, client, client.manager
      ensures Valid() && Left(wasIncomplete, options, trace, completedSent, periodic)
      // The store has moved by exactly this turn's downloads, and their results are counted.
      ensures client.State()
        == AfterTurn(client.client, old(client.State()), response.peers != [], env.contacts(cycles))
      ensures bytes
        == if response.peers == [] then 0
           else CountedAt(client.client, old(client.State()), env.contacts(cycles)) - old(client.downloaded)
      // The announces it adds, and the response it leaves for the next turn.
      ensures |old(trace)| <= |trace| && trace[..|old(trace)|] == old(trace)
      ensures Announces(
        options, env, cycles,
        response.peers != [] && ContactRaises(client.client, old(client.State()), env.contacts(cycles)),
        AllSet(client.manager.bitfield), wasIncomplete, completed, old(trace), trace, next, completedSent)
      ensures next.Some? ==>
        && Underway(wasIncomplete, options, trace, completedSent, periodic)
        && periodic == before + 1 && cycles < options.maxCycles && (options.exitOnComplete ==> !completedSent)
      ensures next.None? ==> periodic == before
      ensures old(client.downloaded) + bytes <= client.downloaded
      ensures old(ExactStore()) ==> ExactStore()
      ensures
        (&& response.peers == [] && old(AllSet(client.manager.bitfield)) && !wasIncomplete && !options.exitOnComplete
         && cycles < options.maxCycles && !env.stopWhileWaiting(cycles))
        ==>
          (|trace| > |old(trace)| && trace[|old(trace)|].args.event == None && trace[|old(trace)|].args.left == 0)
    {
      hide Valid, Underway, Left, AllSet, ExactStore, CurrentLeft, AfterContact, ContactRaises, CountedAt, Announces;
      UnderwayMayLeave(wasIncomplete, options, trace, completed, before);
      bytes := 0;
      if response.peers != [] {
        var ok, more := Contact(env.contacts(cycles));
        bytes := more;
        RaisedTurn(options, env, cycles, AllSet(client.manager.bitfield), wasIncomplete, completed, trace);
        if !ok { return None, completed, before, bytes; }
      }
      next, completedSent, periodic := Conclude(wasIncomplete, cycles, completed, before);
    }

    /** The rest of a turn, once its downloads are over. */
    method Conclude(wasIncomplete: bool, cycles: nat, completed: bool, before: nat)
      returns (next: Option<TrackerResponse>, completedSent: bool, periodic: nat)
      requires Valid() && Underway(wasIncomplete, options, trace, completed, before) && 0 < cycles <= options.maxCycles
      requires options.exitOnComplete ==> !completed
      modifies `trace
      ensures Valid() && Left(wasIncomplete, options, trace, completedSent, periodic)
      ensures client.State() == old(client.State())
      ensures |old(trace)| <= |trace| && trace[..|old(trace)|] == old(trace)
      ensures Announces(
        options, env, cycles, false, AllSet(client.manager.bitfield), wasIncomplete, completed,
        old(trace), trace, next, completedSent)
      ensures next.Some? ==>
        && Underway(wasIncomplete, options, trace, completedSent, periodic)
        && periodic == before + 1 && cycles < options.maxCycles && (options.exitOnComplete ==> !completedSent)
      ensures next.None? ==> periodic == before
      ensures ExactStore() == old(ExactStore())
      ensures
        (&& AllSet(client.manager.bitfield) && !wasIncomplete && !options.exitOnComplete
         && cycles < options.maxCycles && !env.stopWhileWaiting(cycles))
        ==>
          (|trace| > |old(trace)| && trace[|old(trace)|].args.event == None && trace[|old(trace)|].args.left == 0)
    {
      hide Valid, Underway, Left, AllSet, ExactStore, CurrentLeft, Announces, TurnEvents;
      next, completedSent, periodic := None, completed, before;
      UnderwayMayLeave(wasIncomplete, options, trace, completed, before);
      ghost var start := trace;
      var left, complete := LeftAndComplete();
      if complete {
        if wasIncomplete && !completedSent {
          var outcome := Announce(Some("completed"));
          CompletedStep(options, start, trace[|trace| - 1], periodic);
          if !outcome.Accepted? {
            AnnouncedTurn(options, env, cycles, complete, wasIncomplete, completed, start, trace, false);
            return;
          }
          completedSent := true;
        }
        if options.exitOnComplete {
          AnnouncedTurn(options, env, cycles, complete, wasIncomplete, completed, start, trace, false);
          return;
        }
      }
      if cycles >= options.maxCycles || env.stopWhileWaiting(cycles) {
        StillMayLeave(wasIncomplete, completedSent, periodic);
        AnnouncedTurn(options, env, cycles, complete, wasIncomplete, completed, start, trace, false);
        return;
      }
      ghost var earlier := trace;
      var outcome := Announce(None);
      PeriodicStep(wasIncomplete, options, earlier, trace[|trace| - 1], completedSent, periodic);
      AnnouncedTurn(options, env, cycles, complete, wasIncomplete, completed, start, trace, true);
      if !outcome.Accepted? { return; }
      next, periodic := Some(outcome.response), periodic + 1;
    }

    lemma StillMayLeave(wasIncomplete: bool, completedSent: bool, periodic: nat)
      requires Underway(wasIncomplete, options, trace, completedSent, periodic)
      requires options.exitOnComplete ==> !completedSent
      ensures Left(wasIncomplete, options, trace, completedSent, periodic)
    {
      UnderwayMayLeave(wasIncomplete, options, trace, completedSent, periodic);
    }

    /** The `while` loop of `run`. */
    method Turns(first: TrackerResponse, wasIncomplete: bool)
      returns (completedSent: bool, cycles: nat, periodic: nat, bytes: nat)
      requires Valid() && |trace| == 1 && IsEvent(trace[0], "started") && trace[0].outcome.Accepted?
      requires trace[0].outcome == env.announces(0) == Accepted(first)
      requires env.setUp && wasIncomplete == !AllSet(client.manager.bitfield)
      modifies this, client, client.manager
      ensures Valid() && Left(wasIncomplete, options, trace, completedSent, periodic)
      ensures cycles <= options.maxCycles && TurnsAddUp(cycles, periodic)
      ensures Ran(client.client, old(client.State()), env, options, client.State(), trace, cycles)
      ensures HasReason(client.client, old(client.State()), env, options, client.State(), trace, cycles)
      ensures bytes == CountedAfter(client.client, old(client.State()), env, cycles)
      ensures old(client.downloaded) + bytes <= client.downloaded
      ensures old(ExactStore()) ==> ExactStore()
      ensures Undisturbed(env) && !EndsWhenComplete(options) && !wasIncomplete ==> AnnouncesWhenComplete(trace)
    {
      hide Valid, Underway, Left, AllSet, ExactStore, IsEvent, Going, Announces, Ran, HasReason, WentOn, IsLast,
        CompletionsAnnounced, AfterTurn, ContactRaises, CountedAt, CountedAfter, Ready, SessionAfter;
      ghost var cl, s := client.client, client.State();
      var response := first;
      completedSent, cycles, periodic, bytes := false, 0, 0, 0;
      StartedIsUnderway(wasIncomplete, options, trace);
      UnderwayMayLeave(wasIncomplete, options, trace, false, 0);
      MaxCyclesIsPositive();
      ValidReady();
      GoingStarts(cl, s, env, options, trace, first.peers != []);
      NothingCounted(cl, s, env);
      ghost var ended := false;
      while !env.stopSet(cycles)
        invariant !ended
        invariant Valid() && Underway(wasIncomplete, options, trace, completedSent, periodic)
        invariant periodic == cycles < options.maxCycles
        invariant Ready(cl, s) && Ready(cl, client.State())
        invariant Going(cl, s, env, options, client.State(), trace, cycles, response.peers != [], completedSent)
        invariant old(client.downloaded) + bytes == client.downloaded
        invariant bytes == CountedAfter(cl, s, env, cycles)
        invariant old(ExactStore()) ==> ExactStore()
        invariant options.exitOnComplete ==> !completedSent
        invariant Left(wasIncomplete, options, trace, completedSent, periodic)
        invariant cycles == 0 ==>
          |trace| == 1 && response == first && client.manager.bitfield == old(client.manager.bitfield)
        invariant cycles > 0 && Undisturbed(env) && !EndsWhenComplete(options) && !wasIncomplete ==>
          AnnouncesWhenComplete(trace)
        decreases options.maxCycles - cycles
      {
        cycles := cycles + 1;
        ghost var earlier, before, listed, completed := trace, client.State(), response.peers != [], completedSent;
        GoingOn(cl, s, env, options, before, earlier, cycles - 1, listed, completed);
        CompleteFromStart(cl, s, env, cycles - 1);
        var next, sent, counted, more := Turn(response, wasIncomplete, cycles, completedSent, periodic);
        completedSent, periodic, bytes := sent, counted, bytes + more;
        StillAnnounced(earlier, trace);
        ValidReflects();
        CountedIn(cl, s, env, before, cycles, listed);
        TurnAdvances(cl, s, env, options, before, client.State(), cycles, listed, wasIncomplete, completed,
                     earlier, trace, next, completedSent);
        if next.None? {
          LoopRan(cl, s, env, options, client.State(), trace, cycles);
          ended := true;
          break;
        }
        GoesOnWithout(options, env, cycles, listed && ContactRaises(cl, before, env.contacts(cycles)),
                      AllSet(client.manager.bitfield), wasIncomplete, completed, earlier, trace, next, completedSent);
        response := next.value;
      }
      if !ended { StopEnds(cl, s, env, options, client.State(), trace, cycles, response.peers != [], completedSent); }
    }

    lemma ValidReady()
      requires Valid()
      ensures Ready(client.client, client.State())
    {
    }

    lemma ValidReflects()
      requires Valid()
      ensures Reflects(env, trace)
    {
    }

    lemma MaxCyclesIsPositive()
      requires Valid()
      ensures options.maxCycles > 0
    {
    }

    /** The loop of `run` and its shutdown; not orderly if the last announce raises what `run` does not expect. */
    method Serve(first: TrackerResponse, wasIncomplete: bool)
      returns (completedSent: bool, stoppedSent: bool, cycles: nat, periodic: nat, bytes: nat, orderly: bool)
      requires Valid() && |trace| == 1 && IsEvent(trace[0], "started")
      requires trace[0].outcome == env.announces(0) == Accepted(first)
      requires env.setUp && wasIncomplete == !AllSet(client.manager.bitfield)
      modifies this, client, client.manager
      ensures Valid() && |trace| >= 2
      ensures Ran(client.client, old(client.State()), env, options, client.State(), trace, cycles)
      ensures HasReason(
        client.client, old(client.State()), env, options, client.State(), trace[..|trace| - 1], cycles)
      ensures bytes == CountedAfter(client.client, old(client.State()), env, cycles)
      ensures Lifecycle(trace) && CompletedOnce(wasIncomplete, trace)
      ensures Reported(trace, true, completedSent, stoppedSent, cycles, periodic) && cycles <= options.maxCycles
      ensures options.exitOnComplete ==> CompletedBeforeStopped(trace)
      ensures EndsWhenComplete(options) ==> PeriodicIncomplete(trace)
      ensures Undisturbed(env) && !EndsWhenComplete(options) && !wasIncomplete ==> AnnouncesWhenComplete(trace)
      ensures orderly <==> !trace[|trace| - 1].outcome.OtherError?
      ensures old(client.downloaded) + bytes <= client.downloaded
      ensures old(ExactStore()) ==> ExactStore()
    {
      hide Valid, Left, AllSet, ExactStore, Lifecycle, CompletedOnce, Reported, CompletedBeforeStopped,
        PeriodicIncomplete, AnnouncesWhenComplete, Ran, HasReason, CountedAfter, Ready;
      ValidReady();
      completedSent, cycles, periodic, bytes := Turns(first, wasIncomplete);
      ghost var before := trace;
      var outcome := Announce(Some("stopped"));
      assert trace[..|trace| - 1] == before;
      StillRan(client.client, old(client.State()), env, options, client.State(), before, trace[|trace| - 1], cycles);
      StoppedStep(wasIncomplete, options, before, trace[|trace| - 1], completedSent, cycles, periodic);
      StillAnnounced(before, trace);
      stoppedSent, orderly := outcome.Accepted?, !outcome.OtherError?;
    }

    /** `run()`: the worker's announces in order, and its result, or none if shutdown itself raises. */
    method Run() returns (result: Option<WorkerResult>, ghost cycles: nat)
      requires Valid() && trace == [] && client.downloaded == 0
      modifies this, client, client.manager
      // `started` comes first; `stopped` is attempted exactly once, and last, if and only if
      // `started` succeeded; nothing but `stopped` follows a failed announce.
      ensures Lifecycle(trace)
      ensures trace == [] <==> !env.setUp
      ensures CompletedOnce(old(!AllSet(client.manager.bitfield)), trace)
      // Every announce is valid, and what is downloaded and left adds up to what was missing.
      ensures Truthful(infoHash, old(CurrentLeft()), trace)
      ensures client.downloaded + CurrentLeft() == old(CurrentLeft())
      ensures old(ExactStore()) ==> ExactStore()
      ensures result.None? <==> |trace| >= 2 && trace[|trace| - 1].outcome.OtherError?
      ensures result.Some? ==>
        var r := result.value;
        && Reported(trace, r.startedSent, r.completedSent, r.stoppedSent, r.cycles, r.periodic)
        && r.cycles == cycles
        && r.bytesDownloaded == CountedAfter(client.client, old(client.State()), env, cycles) <= client.downloaded
        && r.finalLeft == CurrentLeft() && (r.complete <==> CurrentLeft() == 0)
        && (r.complete <==> AllSet(client.manager.bitfield))
      // The store has moved by the downloads of the turns taken, from each turn's responsive peers
      // in order until it is complete or one of them raises. Each turn that can be taken is taken,
      // the first one that finds the store complete announces that, and the last one has a reason.
      ensures cycles <= options.maxCycles
      ensures Ran(client.client, old(client.State()), env, options, client.State(), trace, cycles)
      ensures Reflects(env, trace)
      ensures |trace| >= 2 ==>
        HasReason(client.client, old(client.State()), env, options, client.State(), trace[..|trace| - 1], cycles)
      ensures options.exitOnComplete ==> CompletedBeforeStopped(trace)
      // Periodic announces are sent only while incomplete if the worker exits on completion or
      // has one cycle; otherwise one that starts complete and is left alone goes on.
      ensures EndsWhenComplete(options) ==> PeriodicIncomplete(trace)
      ensures Undisturbed(env) && !EndsWhenComplete(options) && old(AllSet(client.manager.bitfield)) ==>
        AnnouncesWhenComplete(trace)
    {
      hide Valid, PeriodicIncomplete, AnnouncesWhenComplete, Truthful, Left, NoneBelow, CompletedOnce, Lifecycle,
        WellFormed, LeftBytes, CompletedBeforeStopped, Reported, AllSet, CurrentLeft, D.Balance, ExactStore, Ran,
        HasReason, CountedAfter, Reflects, Ready;
      BalanceIsKept();
      assert balance == old(CurrentLeft());
      var wasIncomplete := !AllSet(client.manager.bitfield);
      var startedSent, completedSent, stoppedSent := false, false, false;
      var taken: nat, periodic: nat, bytes: nat := 0, 0, 0;
      ghost var cl, s := client.client, client.State();
      cycles := 0;
      Nothing(wasIncomplete);
      ValidReady();
      NothingCounted(cl, s, env);
      if env.setUp {
        var outcome := Announce(Some("started"));
        assert trace == [trace[0]];
        OnlyStarted(wasIncomplete, trace[0]);
        if outcome.Accepted? {
          startedSent := true;
          var orderly;
          completedSent, stoppedSent, taken, periodic, bytes, orderly := Serve(outcome.response, wasIncomplete);
          cycles := taken;
          if !orderly { BalanceIsKept(); ValidReflects(); return None, cycles; }
        } else {
          NothingRan(cl, s, env, options, trace);
        }
      } else {
        NothingRan(cl, s, env, options, trace);
      }
      BalanceIsKept();
      ValidReflects();
      var left, complete := LeftAndComplete();
      result := Some(WorkerResult(startedSent, completedSent, stoppedSent, taken, periodic, bytes, left, complete));
    }
  }

  lemma Nothing(wasIncomplete: bool)
    ensures Lifecycle([]) && CompletedOnce(wasIncomplete, []) && CompletedBeforeStopped([])
    ensures Reported([], false, false, false, 0, 0) && PeriodicIncomplete([])
  {
  }

  lemma OnlyStarted(wasIncomplete: bool, a: Announced)
    requires IsEvent(a, "started")
    ensures !a.outcome.Accepted? ==> Lifecycle([a]) && Reported([a], false, false, false, 0, 0)
    ensures CompletedOnce(wasIncomplete, [a]) && CompletedBeforeStopped([a]) && PeriodicIncomplete([a])
  {
    assert [a][..0] == [];
  }

  lemma StillAnnounced(earlier: seq<Announced>, trace: seq<Announced>)
    requires |earlier| <= |trace| && trace[..|earlier|] == earlier
    ensures AnnouncesWhenComplete(earlier) ==> AnnouncesWhenComplete(trace)
  {
    if |earlier| >= 2 { assert trace[1] == trace[..|earlier|][1]; }
  }

  // ---- The downloads of one turn -----------------------------------------------

  lemma NoDownloads(cl: Client, s: Session, remotes: seq<Remote>)
    requires Ready(cl, s)
    ensures D.Downloads(cl, s, remotes[..0]) == s
  {
    assert remotes[..0] == [];
  }

  lemma OverBefore(cl: Client, s: Session, remotes: seq<Remote>, i: nat)
    requires Ready(cl, s) && i < |remotes| && (i > 0 ==> !Raises(cl, s, remotes, i - 1))
    ensures Over(cl, s, remotes, i) <==> Complete(D.Downloads(cl, s, remotes[..i]))
  {
    hide Raises, D.Downloads, Complete, Ready;
  }

  lemma OverAtEnd(cl: Client, s: Session, remotes: seq<Remote>)
    requires Ready(cl, s)
    ensures Over(cl, s, remotes, |remotes|)
  {
    hide Raises, D.Downloads, Complete, Ready;
  }

  lemma OneMoreDownload(cl: Client, s: Session, remotes: seq<Remote>, i: nat)
    requires Ready(cl, s) && i < |remotes|
    ensures var (after, r) := Download(cl, D.Downloads(cl, s, remotes[..i]), remotes[i]);
      && D.Downloads(cl, s, remotes[..i + 1]) == after
      && (Raises(cl, s, remotes, i) <==> r.Err?)
      && (r.Err? ==> Over(cl, s, remotes, i + 1))
  {
    hide Download, Ready, Complete;
    var longer := remotes[..i + 1];
    assert longer[..|longer| - 1] == remotes[..i] && longer[|longer| - 1] == remotes[i];
  }

  // ---- The bytes of one turn ---------------------------------------------------

  lemma NothingCounted(cl: Client, s: Session, env: Env)
    requires Ready(cl, s)
    ensures CountedAfter(cl, s, env, 0) == 0
  {
    hide Ready;
  }

  lemma CountedIn(cl: Client, s: Session, env: Env, before: Session, c: nat, listed: bool)
    requires Ready(cl, s) && Ready(cl, before) && c > 0 && before == SessionAfter(cl, s, env, c - 1)
    requires !Complete(before) ==> listed == Lists(env.announces(c - 1))
    ensures CountedAfter(cl, s, env, c)
      == (if listed then CountedAt(cl, before, env.contacts(c)) else before.downloaded) - s.downloaded
    ensures !(listed && ContactRaises(cl, before, env.contacts(c))) ==>
      CountedAfter(cl, s, env, c) == AfterTurn(cl, before, listed, env.contacts(c)).downloaded - s.downloaded
  {
    hide Ready, Complete, SessionAfter, Stop, LastRaises, D.Downloads;
    if Complete(before) { CompleteStays(cl, before, env.contacts(c)); }
  }

  lemma GoingOn(
      cl: Client, s: Session, env: Env, options: Options, session: Session, trace: seq<Announced>, c: nat,
      listed: bool, completed: bool)
    requires Ready(cl, s) && Going(cl, s, env, options, session, trace, c, listed, completed)
    ensures session == SessionAfter(cl, s, env, c) && WentOn(cl, s, env, c)
    ensures !Complete(session) ==> listed == Lists(env.announces(c))
  {
    hide Ready, Complete, SessionAfter, WentOn, CompletionsAnnounced;
  }

  lemma CompleteFromStart(cl: Client, s: Session, env: Env, c: nat)
    requires Ready(cl, s)
    ensures Complete(s) ==> Complete(SessionAfter(cl, s, env, c))
  {
    hide Ready, Complete, AfterTurn;
    if Complete(s) {
      assert SessionAfter(cl, s, env, 0) == s;
      SessionStays(cl, s, env, 0, c);
    }
  }

  lemma GoesOnWithout(
      options: Options, env: Env, c: nat, raised: bool, done: bool, wasIncomplete: bool, completed: bool,
      earlier: seq<Announced>, trace: seq<Announced>, next: Option<TrackerResponse>, completedSent: bool)
    requires Announces(options, env, c, raised, done, wasIncomplete, completed, earlier, trace, next, completedSent)
    requires Reflects(env, trace) && next.Some?
    ensures !raised
  {
    TurnShape(options, env, c, raised, done, wasIncomplete, completed, earlier, trace, next, completedSent);
  }

  /** The stop event is set at the head of the next turn. */
  lemma StopEnds(
      cl: Client, s: Session, env: Env, options: Options, session: Session, trace: seq<Announced>, c: nat,
      listed: bool, completed: bool)
    requires Ready(cl, s) && Going(cl, s, env, options, session, trace, c, listed, completed)
    requires env.stopSet(c) && c <= options.maxCycles
    ensures Ran(cl, s, env, options, session, trace, c) && HasReason(cl, s, env, options, session, trace, c)
  {
    hide Ready, Complete, SessionAfter, TurnRaises, CompletionsAnnounced, Ran;
    LoopRan(cl, s, env, options, session, trace, c);
  }

  lemma DownloadMoves(cl: Client, s: Session, remote: Remote)
    requires Ready(cl, s)
    ensures var (after, r) := Download(cl, s, remote);
      && Ready(cl, after) && D.Balance(cl, after) == D.Balance(cl, s)
      && after.downloaded >= s.downloaded
      && LeftBytes(cl.config.torrent, after.store.bits) <= LeftBytes(cl.config.torrent, s.store.bits)
      && (r.Ok? ==> r.value.bytesDownloaded == after.downloaded - s.downloaded)
      && (Exact(cl.config, s.store) ==> Exact(cl.config, after.store))
  {
    hide Download, LeftBytes, WellFormed, Exact;
    D.DownloadAccounts(cl, s, remote);
    D.DownloadKeepsStore(cl, s, remote);
  }
}
