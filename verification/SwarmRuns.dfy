/**
 * Many workers and one tracker, in any interleaving: requests may be lost or processed late,
 * replies may be lost, and a worker may give up waiting. Peers are not expired or removed.
 */
module SwarmRuns {
  import opened Wrappers
  import opened ByteStrings
  import AnnounceQuery
  import T = TrackerSpec
  import TrackerReply
  import W = Workers
  import WorkerTurns
  import Wire = TrackerWire

  /** A worker, as the tracker knows it. */
  datatype Member = Member(infoHash: Bytes, peerId: Bytes, ip: string, port: int)

  predicate ValidMember(m: Member, ipv4: T.Ipv4) {
    && |m.infoHash| == 20 && |m.peerId| == 20 && 1 <= m.port <= 65535
    && m.ip != "" && ipv4(m.ip).Some?
  }

  /** All members are valid, and no two share both info hash and peer id. */
  predicate ValidMembers(members: seq<Member>, ipv4: T.Ipv4) {
    && (forall w :: 0 <= w < |members| ==> ValidMember(members[w], ipv4))
    && (forall v, w :: 0 <= v < w < |members| ==> Id(members[v]) != Id(members[w]))
  }

  function Id(m: Member): (Bytes, Bytes) { (m.infoHash, m.peerId) }

  datatype Event = Started | Periodic | Completed | Stopped

  function EventText(e: Event): string {
    match e
    case Started => "started"
    case Periodic => ""
    case Completed => "completed"
    case Stopped => "stopped"
  }

  /** What became of a request: a refused one was answered with a failure. */
  datatype Status = InFlight | Lost | Granted | Refused

  datatype Request = Request(worker: nat, event: Event, uploaded: nat, downloaded: nat, left: nat, status: Status)

  /** Where a worker stands; while it waits, which of its requests it waits for. */
  datatype Phase =
    | Fresh | Starting(request: nat) | Running | Busy(request: nat) | Failing | Stopping(request: nat) | Ended

  datatype System = System(swarms: T.Swarms, phases: seq<Phase>, requests: seq<Request>)

  datatype Step =
    | Send(worker: nat, event: Event, uploaded: nat, downloaded: nat, left: nat)
    | Process(request: nat, now: real)
    | Lose(request: nat)
    | Hear(worker: nat)
    | GiveUp(worker: nat)

  function Start(members: seq<Member>): System {
    System(map[], seq(|members|, _ => Fresh), [])
  }

  // ---- The worker's side -------------------------------------------------------

  /** A worker's next phase when it sends an event as its k-th request, if it may. */
  function Sending(phase: Phase, event: Event, k: nat): Option<Phase> {
    match event
    case Started => if phase.Fresh? then Some(Starting(k)) else None
    case Periodic => if phase.Running? then Some(Busy(k)) else None
    case Completed => if phase.Running? then Some(Busy(k)) else None
    case Stopped => if phase.Running? || phase.Failing? then Some(Stopping(k)) else None
  }

  /** A waiting worker's next phase when its announce returns or raises. */
  function Hearing(phase: Phase, accepted: bool): Phase {
    match phase
    case Starting(_) => if accepted then Running else Ended
    case Busy(_) => if accepted then Running else Failing
    case Stopping(_) => Ended
    case _ => phase
  }

  predicate Waiting(phase: Phase) { phase.Starting? || phase.Busy? || phase.Stopping? }

  // ---- The tracker's side ------------------------------------------------------

  function Args(m: Member, r: Request, now: real): T.AnnounceArgs {
    T.AnnounceArgs(T.BytesId(m.infoHash), T.BytesId(m.peerId), m.ip, m.port,
                   r.uploaded, r.downloaded, r.left, Some(EventText(r.event)), now)
  }

  function Validated(m: Member, r: Request, now: real, ipv4: T.Ipv4): Result<T.Announcement, T.StateError> {
    T.Validate(Args(m, r, now), ipv4)
  }

  /** The swarms after a request, and whether it was granted. */
  function Processed(s: T.Swarms, m: Member, r: Request, now: real, ipv4: T.Ipv4): (T.Swarms, bool) {
    match Validated(m, r, now, ipv4)
    case Err(_) => (s, false)
    case Ok(a) => (T.AnnounceState(s, a).0, T.AnnounceState(s, a).1.None?)
  }

  /** One step of the whole; a step that is not possible does nothing. */
  function Next(members: seq<Member>, ipv4: T.Ipv4, sys: System, step: Step): System {
    match step
    case Send(w, event, uploaded, downloaded, left) =>
      if w >= |sys.phases| || Sending(sys.phases[w], event, |sys.requests|).None? then sys
      else sys.(
        phases := sys.phases[w := Sending(sys.phases[w], event, |sys.requests|).value],
        requests := sys.requests + [Request(w, event, uploaded, downloaded, left, InFlight)])
    case Process(k, now) =>
      if k >= |sys.requests| || sys.requests[k].status != InFlight || sys.requests[k].worker >= |members| || now < 0.0
      then sys
      else
        var r := sys.requests[k];
        var (after, granted) := Processed(sys.swarms, members[r.worker], r, now, ipv4);
        sys.(swarms := after, requests := sys.requests[k := r.(status := if granted then Granted else Refused)])
    case Lose(k) =>
      if k >= |sys.requests| || sys.requests[k].status != InFlight then sys
      else sys.(requests := sys.requests[k := sys.requests[k].(status := Lost)])
    case Hear(w) =>
      if w >= |sys.phases| || !Waiting(sys.phases[w]) || sys.phases[w].request >= |sys.requests|
         || sys.requests[sys.phases[w].request].status == InFlight
      then sys
      else
        var accepted := sys.requests[sys.phases[w].request].status == Granted;
        sys.(phases := sys.phases[w := Hearing(sys.phases[w], accepted)])
    case GiveUp(w) =>
      if w >= |sys.phases| || !Waiting(sys.phases[w]) then sys
      else sys.(phases := sys.phases[w := Hearing(sys.phases[w], false)])
  }

  function Run(members: seq<Member>, ipv4: T.Ipv4, steps: seq<Step>): System {
    if steps == [] then Start(members)
    else Next(members, ipv4, Run(members, ipv4, steps[..|steps| - 1]), steps[|steps| - 1])
  }

  // ---- What the tracker does with a member's request ---------------------------

  /** Which records exist, not what they say. */
  ghost predicate SameRecords(before: T.Swarms, after: T.Swarms, except: (Bytes, Bytes)) {
    forall h, p :: (h, p) != except ==> (T.Find(after, h, p).Some? <==> T.Find(before, h, p).Some?)
  }

  lemma ProcessedEffect(s: T.Swarms, m: Member, r: Request, now: real, ipv4: T.Ipv4)
    requires ValidMember(m, ipv4) && now >= 0.0
    ensures var (after, granted) := Processed(s, m, r, now, ipv4);
      var had := T.Find(s, m.infoHash, m.peerId).Some?;
      && SameRecords(s, after, Id(m))
      && (T.Find(after, m.infoHash, m.peerId).Some? <==> r.event != Stopped && (had || r.event == Started))
      && (granted <==> had || r.event == Started || r.event == Stopped)
  {
    hide T.Find, T.With, T.Without, T.Validate, ValidMember;
    MemberIsValid(m, r, now, ipv4);
    var a := Validated(m, r, now, ipv4).value;
    assert a.event == "stopped" <==> r.event == Stopped;
    assert a.event == "started" <==> r.event == Started;
    forall h, p
      ensures (h, p) != Id(m) ==> (T.Find(Processed(s, m, r, now, ipv4).0, h, p).Some? <==> T.Find(s, h, p).Some?)
    {
      T.WithFinds(s, m.infoHash, a.peer, h, p);
      T.WithoutFinds(s, m.infoHash, m.peerId, h, p);
    }
    T.WithFinds(s, m.infoHash, a.peer, m.infoHash, m.peerId);
    T.WithoutFinds(s, m.infoHash, m.peerId, m.infoHash, m.peerId);
  }

  lemma MemberIsValid(m: Member, r: Request, now: real, ipv4: T.Ipv4)
    requires ValidMember(m, ipv4) && now >= 0.0
    ensures var v := Validated(m, r, now, ipv4);
      && v.Ok? && v.value.infoHash == m.infoHash && v.value.peer.peerId == m.peerId
      && v.value.event == EventText(r.event)
  {
  }

  // ---- The invariant -----------------------------------------------------------

  /** The tracker has granted this event of this worker. */
  ghost predicate Has(requests: seq<Request>, w: nat, event: Event, status: Status) {
    exists k :: 0 <= k < |requests| && requests[k].worker == w && requests[k].event == event && requests[k].status == status
  }

  ghost predicate StartedGranted(requests: seq<Request>, w: nat) { Has(requests, w, Started, Granted) }

  ghost predicate StoppedGranted(requests: seq<Request>, w: nat) { Has(requests, w, Stopped, Granted) }

  /** The records are those of the workers that have started and not stopped. */
  ghost predicate HoldsLive(members: seq<Member>, sys: System) {
    && (forall w :: 0 <= w < |members| ==>
          (T.Find(sys.swarms, members[w].infoHash, members[w].peerId).Some?
           <==> StartedGranted(sys.requests, w) && !StoppedGranted(sys.requests, w)))
    && (forall h, p :: T.Find(sys.swarms, h, p).Some? ==> exists w :: 0 <= w < |members| && Id(members[w]) == (h, p))
  }

  /** What a worker's phase says about its requests. */
  ghost predicate PhaseFits(sys: System, w: nat)
    requires w < |sys.phases|
  {
    match sys.phases[w]
    case Fresh => forall k :: 0 <= k < |sys.requests| ==> sys.requests[k].worker != w
    case Starting(k) => k < |sys.requests| && sys.requests[k].worker == w && sys.requests[k].event == Started
    case Running => StartedGranted(sys.requests, w)
    case Busy(k) => StartedGranted(sys.requests, w) && k < |sys.requests| && sys.requests[k].worker == w
    case Failing => StartedGranted(sys.requests, w)
    case Stopping(k) => StartedGranted(sys.requests, w) && k < |sys.requests| && sys.requests[k].worker == w
    case Ended => true
  }

  ghost predicate RequestFits(sys: System, k: nat)
    requires k < |sys.requests|
  {
    && sys.requests[k].worker < |sys.phases|
    && (sys.requests[k].event != Started ==> StartedGranted(sys.requests, sys.requests[k].worker))
  }

  /** A worker sends `started` once. */
  predicate OneStarted(requests: seq<Request>) {
    forall j, k :: 0 <= j < k < |requests| && requests[j].worker == requests[k].worker ==> requests[k].event != Started
  }

  ghost predicate Inv(members: seq<Member>, sys: System) {
    && |sys.phases| == |members|
    && HoldsLive(members, sys)
    && (forall w :: 0 <= w < |sys.phases| ==> PhaseFits(sys, w))
    && (forall k :: 0 <= k < |sys.requests| ==> RequestFits(sys, k))
    && OneStarted(sys.requests)
  }

  lemma StartIsGood(members: seq<Member>)
    ensures Inv(members, Start(members))
  {
  }

  // ---- Every step keeps it -----------------------------------------------------

  /** Granted requests stay granted when one is added or an open one is settled. */
  lemma HasGrows(before: seq<Request>, after: seq<Request>, w: nat, event: Event)
    requires |before| <= |after|
    requires forall k :: 0 <= k < |before| && before[k].status == Granted ==> after[k] == before[k]
    ensures Has(before, w, event, Granted) ==> Has(after, w, event, Granted)
  {
    if Has(before, w, event, Granted) {
      var k :| 0 <= k < |before| && before[k].worker == w && before[k].event == event && before[k].status == Granted;
      assert after[k] == before[k];
    }
  }

  lemma HasSame(before: seq<Request>, after: seq<Request>, w: nat, event: Event)
    requires |before| <= |after|
    requires forall k :: 0 <= k < |before| && before[k].status == Granted ==> after[k] == before[k]
    requires forall k ::
      0 <= k < |after| && after[k].status == Granted && after[k].worker == w && after[k].event == event ==>
      k < |before| && before[k] == after[k]
    ensures Has(before, w, event, Granted) <==> Has(after, w, event, Granted)
  {
    HasGrows(before, after, w, event);
    if Has(after, w, event, Granted) {
      var k :| 0 <= k < |after| && after[k].worker == w && after[k].event == event && after[k].status == Granted;
      assert before[k] == after[k];
    }
  }

  lemma SendKeepsInv(members: seq<Member>, ipv4: T.Ipv4, sys: System, step: Step)
    requires Inv(members, sys) && step.Send?
    ensures Inv(members, Next(members, ipv4, sys, step))
  {
    var w := step.worker;
    if w < |sys.phases| && Sending(sys.phases[w], step.event, |sys.requests|).Some? {
      var after := Next(members, ipv4, sys, step);
      hide Has;
      forall v: nat, e: Event
        ensures Has(sys.requests, v, e, Granted) <==> Has(after.requests, v, e, Granted)
      {
        HasSame(sys.requests, after.requests, v, e);
      }
      assert PhaseFits(sys, w);
      forall v | 0 <= v < |after.phases| ensures PhaseFits(after, v) {
        assert PhaseFits(sys, v);
      }
      forall k | 0 <= k < |after.requests| ensures RequestFits(after, k) {
        if k < |sys.requests| { assert RequestFits(sys, k); }
      }
    }
  }

  /** A request settled without being granted changes nothing that matters. */
  lemma SettledKeepsInv(members: seq<Member>, sys: System, k: nat, status: Status)
    requires Inv(members, sys) && k < |sys.requests| && sys.requests[k].status == InFlight && status != Granted
    ensures Inv(members, sys.(requests := sys.requests[k := sys.requests[k].(status := status)]))
  {
    var after := sys.(requests := sys.requests[k := sys.requests[k].(status := status)]);
    hide Has;
    forall v: nat, e: Event
      ensures Has(sys.requests, v, e, Granted) <==> Has(after.requests, v, e, Granted)
    {
      HasSame(sys.requests, after.requests, v, e);
    }
    forall v | 0 <= v < |after.phases| ensures PhaseFits(after, v) { assert PhaseFits(sys, v); }
    forall j | 0 <= j < |after.requests| ensures RequestFits(after, j) { assert RequestFits(sys, j); }
  }

  lemma HearKeepsInv(members: seq<Member>, ipv4: T.Ipv4, sys: System, step: Step)
    requires Inv(members, sys) && (step.Hear? || step.GiveUp?)
    ensures Inv(members, Next(members, ipv4, sys, step))
  {
    hide HoldsLive, OneStarted, RequestFits;
    var after := Next(members, ipv4, sys, step);
    forall v | 0 <= v < |after.phases| ensures PhaseFits(after, v) { assert PhaseFits(sys, v); }
    forall k | 0 <= k < |after.requests| ensures RequestFits(after, k) {
      SameRequests(sys, after, k);
    }
    SameHolds(members, sys, after);
  }

  lemma SameRequests(sys: System, after: System, k: nat)
    requires after.requests == sys.requests && |after.phases| == |sys.phases| && k < |sys.requests| && RequestFits(sys, k)
    ensures RequestFits(after, k)
  {
  }

  lemma SameHolds(members: seq<Member>, sys: System, after: System)
    requires after.requests == sys.requests && after.swarms == sys.swarms && HoldsLive(members, sys)
    ensures HoldsLive(members, after)
  {
  }

  // ---- Processing a request ----------------------------------------------------

  /** The tracker refuses a request exactly when the worker's `stopped` has overtaken it. */
  lemma RefusedIffOvertaken(members: seq<Member>, ipv4: T.Ipv4, sys: System, k: nat, now: real)
    requires ValidMembers(members, ipv4) && Inv(members, sys) && now >= 0.0
    requires k < |sys.requests| && sys.requests[k].status == InFlight
    ensures var r := sys.requests[k];
      && r.worker < |members|
      && (!Processed(sys.swarms, members[r.worker], r, now, ipv4).1
          <==> (r.event == Periodic || r.event == Completed) && StoppedGranted(sys.requests, r.worker))
  {
    hide Has, Processed, PhaseFits, OneStarted;
    var r := sys.requests[k];
    assert RequestFits(sys, k);
    ProcessedEffect(sys.swarms, members[r.worker], r, now, ipv4);
  }

  lemma ProcessKeepsInv(members: seq<Member>, ipv4: T.Ipv4, sys: System, k: nat, now: real)
    requires ValidMembers(members, ipv4) && Inv(members, sys)
    ensures Inv(members, Next(members, ipv4, sys, Process(k, now)))
  {
    if k < |sys.requests| && sys.requests[k].status == InFlight && now >= 0.0 {
      var r := sys.requests[k];
      assert RequestFits(sys, k);
      var (swarms, granted) := Processed(sys.swarms, members[r.worker], r, now, ipv4);
      RefusedIffOvertaken(members, ipv4, sys, k, now);
      RefusedChangesNothing(sys.swarms, members[r.worker], r, now, ipv4);
      if !granted {
        SettledKeepsInv(members, sys, k, Refused);
      } else {
        GrantedKeepsInv(members, ipv4, sys, k, now);
      }
    }
  }

  lemma RefusedChangesNothing(s: T.Swarms, m: Member, r: Request, now: real, ipv4: T.Ipv4)
    ensures !Processed(s, m, r, now, ipv4).1 ==> Processed(s, m, r, now, ipv4).0 == s
  {
    hide T.Validate, T.Without, T.With;
  }

  /** Granting request k adds exactly that fact. */
  lemma GrantedFacts(before: seq<Request>, k: nat)
    requires k < |before| && before[k].status == InFlight
    ensures var after := before[k := before[k].(status := Granted)];
      forall w: nat, e: Event :: Has(after, w, e, Granted) <==>
        Has(before, w, e, Granted) || (w == before[k].worker && e == before[k].event)
  {
    var after := before[k := before[k].(status := Granted)];
    forall w: nat, e: Event
      ensures Has(after, w, e, Granted) <==> Has(before, w, e, Granted) || (w == before[k].worker && e == before[k].event)
    {
      HasGrows(before, after, w, e);
      if w == before[k].worker && e == before[k].event {
        assert after[k].status == Granted;
      } else {
        HasSame(before, after, w, e);
      }
    }
  }

  /** An open `started` means the worker has sent nothing else, so its `stopped` is not granted. */
  lemma OpenStartIsFirst(members: seq<Member>, sys: System, k: nat)
    requires Inv(members, sys) && k < |sys.requests|
    requires sys.requests[k].status == InFlight && sys.requests[k].event == Started
    ensures !StartedGranted(sys.requests, sys.requests[k].worker) && !StoppedGranted(sys.requests, sys.requests[k].worker)
  {
    var w, requests := sys.requests[k].worker, sys.requests;
    forall j | 0 <= j < |requests| && requests[j].worker == w && requests[j].event == Started ensures j == k {
      assert requests[j].worker == requests[k].worker;
    }
    assert !StartedGranted(requests, w);
    forall j | 0 <= j < |requests| && requests[j].worker == w ensures requests[j].event == Started {
      assert RequestFits(sys, j);
      assert requests[j].event != Started ==> StartedGranted(requests, w);
    }
  }

  lemma GrantedKeepsInv(members: seq<Member>, ipv4: T.Ipv4, sys: System, k: nat, now: real)
    requires ValidMembers(members, ipv4) && Inv(members, sys) && now >= 0.0
    requires k < |sys.requests| && sys.requests[k].status == InFlight && sys.requests[k].worker < |members|
    requires Processed(sys.swarms, members[sys.requests[k].worker], sys.requests[k], now, ipv4).1
    ensures Inv(members, Next(members, ipv4, sys, Process(k, now)))
  {
    var after := Next(members, ipv4, sys, Process(k, now));
    GrantedHoldsLive(members, ipv4, sys, k, now);
    GrantedFacts(sys.requests, k);
    hide Has, Processed, HoldsLive;
    forall v | 0 <= v < |after.phases| ensures PhaseFits(after, v) { assert PhaseFits(sys, v); }
    forall j | 0 <= j < |after.requests| ensures RequestFits(after, j) { assert RequestFits(sys, j); }
  }

  lemma GrantedHoldsLive(members: seq<Member>, ipv4: T.Ipv4, sys: System, k: nat, now: real)
    requires ValidMembers(members, ipv4) && Inv(members, sys) && now >= 0.0
    requires k < |sys.requests| && sys.requests[k].status == InFlight && sys.requests[k].worker < |members|
    requires Processed(sys.swarms, members[sys.requests[k].worker], sys.requests[k], now, ipv4).1
    ensures HoldsLive(members, Next(members, ipv4, sys, Process(k, now)))
  {
    var r := sys.requests[k];
    var m := members[r.worker];
    var after := Next(members, ipv4, sys, Process(k, now));
    GrantedFacts(sys.requests, k);
    ProcessedEffect(sys.swarms, m, r, now, ipv4);
    if r.event == Started { OpenStartIsFirst(members, sys, k); }
    assert RequestFits(sys, k);
    hide Has, Processed, PhaseFits, OneStarted, RequestFits;
    forall w | 0 <= w < |members|
      ensures T.Find(after.swarms, members[w].infoHash, members[w].peerId).Some?
        <==> StartedGranted(after.requests, w) && !StoppedGranted(after.requests, w)
    {
      if w != r.worker { assert Id(members[w]) != Id(m); }
    }
    forall h, p | T.Find(after.swarms, h, p).Some? ensures exists w :: 0 <= w < |members| && Id(members[w]) == (h, p) {
      if (h, p) == Id(m) { assert Id(members[r.worker]) == (h, p); } else { assert T.Find(sys.swarms, h, p).Some?; }
    }
  }

  lemma NextKeepsInv(members: seq<Member>, ipv4: T.Ipv4, sys: System, step: Step)
    requires ValidMembers(members, ipv4) && Inv(members, sys)
    ensures Inv(members, Next(members, ipv4, sys, step))
  {
    hide Inv;
    match step
    case Send(_, _, _, _, _) => SendKeepsInv(members, ipv4, sys, step);
    case Process(k, now) => ProcessKeepsInv(members, ipv4, sys, k, now);
    case Lose(k) =>
      if k < |sys.requests| && sys.requests[k].status == InFlight { SettledKeepsInv(members, sys, k, Lost); }
    case Hear(_) => HearKeepsInv(members, ipv4, sys, step);
    case GiveUp(_) => HearKeepsInv(members, ipv4, sys, step);
  }

  lemma {:induction false} RunKeepsInv(members: seq<Member>, ipv4: T.Ipv4, steps: seq<Step>)
    requires ValidMembers(members, ipv4)
    ensures Inv(members, Run(members, ipv4, steps))
  {
    hide Next, Inv;
    if steps == [] {
      StartIsGood(members);
    } else {
      RunKeepsInv(members, ipv4, steps[..|steps| - 1]);
      NextKeepsInv(members, ipv4, Run(members, ipv4, steps[..|steps| - 1]), steps[|steps| - 1]);
    }
  }

  /**
   * After any interleaving the swarms hold exactly the workers whose `started` the tracker
   * has granted and whose `stopped` it has not.
   */
  lemma SwarmsHoldLiveWorkers(members: seq<Member>, ipv4: T.Ipv4, steps: seq<Step>, h: Bytes, p: Bytes)
    requires ValidMembers(members, ipv4)
    ensures var sys := Run(members, ipv4, steps);
      T.Find(sys.swarms, h, p).Some? <==>
        exists w: nat :: w < |members| && Id(members[w]) == (h, p)
          && StartedGranted(sys.requests, w) && !StoppedGranted(sys.requests, w)
  {
    hide Run, Has;
    RunKeepsInv(members, ipv4, steps);
    var sys := Run(members, ipv4, steps);
    if T.Find(sys.swarms, h, p).Some? {
      var w :| 0 <= w < |members| && Id(members[w]) == (h, p);
      assert StartedGranted(sys.requests, w) && !StoppedGranted(sys.requests, w);
    }
  }

  /**
   * In every reachable state, the tracker refuses a worker's request exactly when it is a
   * periodic or `completed` announce whose worker's `stopped` was granted before it.
   */
  lemma OnlyOvertakenAreRefused(members: seq<Member>, ipv4: T.Ipv4, steps: seq<Step>, k: nat, now: real)
    requires ValidMembers(members, ipv4) && now >= 0.0
    requires var sys := Run(members, ipv4, steps); k < |sys.requests| && sys.requests[k].status == InFlight
    ensures var sys := Run(members, ipv4, steps);
      var r := sys.requests[k];
      (Next(members, ipv4, sys, Process(k, now)).requests[k].status == Refused
       <==> (r.event == Periodic || r.event == Completed) && StoppedGranted(sys.requests, r.worker))
  {
    hide Run, Has, Processed, Inv;
    RunKeepsInv(members, ipv4, steps);
    RefusedIffOvertaken(members, ipv4, Run(members, ipv4, steps), k, now);
  }

  // ---- Workers that wait -------------------------------------------------------

  /** Nobody gives up on a request that the tracker may still process. */
  predicate PatientStep(sys: System, step: Step) {
    step.GiveUp? && step.worker < |sys.phases| && Waiting(sys.phases[step.worker]) ==>
      var k := sys.phases[step.worker].request;
      k < |sys.requests| && sys.requests[k].status != InFlight
  }

  ghost predicate Patient(members: seq<Member>, ipv4: T.Ipv4, steps: seq<Step>) {
    forall n :: 0 <= n < |steps| ==> PatientStep(Run(members, ipv4, steps[..n]), steps[n])
  }

  /** An open request is the one its worker waits for, and after `stopped` there is no other. */
  predicate OpenIsAwaited(sys: System, k: nat)
    requires k < |sys.requests|
  {
    var r := sys.requests[k];
    && r.worker < |sys.phases|
    && r.status != Refused
    && (r.status == InFlight ==> Waiting(sys.phases[r.worker]) && sys.phases[r.worker].request == k)
    && (r.event == Stopped ==> sys.phases[r.worker].Stopping? || sys.phases[r.worker].Ended?)
    && (sys.phases[r.worker] == Stopping(k) ==> r.event == Stopped)
    && (sys.phases[r.worker] == Starting(k) ==> r.event == Started)
  }

  predicate NothingOvertakes(sys: System) {
    forall k :: 0 <= k < |sys.requests| ==> OpenIsAwaited(sys, k)
  }

  lemma PatientStepKeeps(members: seq<Member>, ipv4: T.Ipv4, sys: System, step: Step)
    requires ValidMembers(members, ipv4) && Inv(members, sys) && NothingOvertakes(sys) && PatientStep(sys, step)
    ensures NothingOvertakes(Next(members, ipv4, sys, step))
  {
    hide Processed, HoldsLive, RequestFits, OneStarted, ValidMembers;
    var after := Next(members, ipv4, sys, step);
    match step
    case Process(k, now) =>
      if k < |sys.requests| && sys.requests[k].status == InFlight && now >= 0.0 {
        AwaitedIsGranted(members, ipv4, sys, k, now);
        forall j | 0 <= j < |after.requests| ensures OpenIsAwaited(after, j) { assert OpenIsAwaited(sys, j); }
      }
    case Send(w, _, _, _, _) =>
      forall j | 0 <= j < |after.requests| ensures OpenIsAwaited(after, j) {
        if j < |sys.requests| { assert OpenIsAwaited(sys, j); }
      }
    case _ =>
      forall j | 0 <= j < |after.requests| ensures OpenIsAwaited(after, j) { assert OpenIsAwaited(sys, j); }
  }

  lemma AwaitedIsGranted(members: seq<Member>, ipv4: T.Ipv4, sys: System, k: nat, now: real)
    requires ValidMembers(members, ipv4) && Inv(members, sys) && NothingOvertakes(sys) && now >= 0.0
    requires k < |sys.requests| && sys.requests[k].status == InFlight
    ensures sys.requests[k].worker < |members|
    ensures Processed(sys.swarms, members[sys.requests[k].worker], sys.requests[k], now, ipv4).1
  {
    RefusedIffOvertaken(members, ipv4, sys, k, now);
    hide Processed, HoldsLive, RequestFits, OneStarted, ValidMembers, PhaseFits;
    var r := sys.requests[k];
    assert OpenIsAwaited(sys, k);
    if r.event == Periodic || r.event == Completed {
      forall j | 0 <= j < |sys.requests| && sys.requests[j].worker == r.worker ensures sys.requests[j].event != Stopped {
        assert OpenIsAwaited(sys, j);
      }
    }
  }

  lemma PatientPrefix(members: seq<Member>, ipv4: T.Ipv4, steps: seq<Step>)
    requires steps != [] && Patient(members, ipv4, steps)
    ensures Patient(members, ipv4, steps[..|steps| - 1])
    ensures PatientStep(Run(members, ipv4, steps[..|steps| - 1]), steps[|steps| - 1])
  {
    hide Run, PatientStep;
    var front := steps[..|steps| - 1];
    forall n | 0 <= n < |front| ensures PatientStep(Run(members, ipv4, front[..n]), front[n]) {
      assert front[..n] == steps[..n] && front[n] == steps[n];
    }
  }

  /** If nobody gives up on a request in flight, the tracker never refuses a worker. */
  lemma {:induction false} PatientWorkersAreNeverRefused(members: seq<Member>, ipv4: T.Ipv4, steps: seq<Step>)
    requires ValidMembers(members, ipv4) && Patient(members, ipv4, steps)
    ensures NothingOvertakes(Run(members, ipv4, steps))
    ensures var requests := Run(members, ipv4, steps).requests;
      forall k :: 0 <= k < |requests| ==> requests[k].status != Refused
  {
    hide Next, Inv, PatientStep, Patient;
    if steps != [] {
      var front := steps[..|steps| - 1];
      PatientPrefix(members, ipv4, steps);
      PatientWorkersAreNeverRefused(members, ipv4, front);
      RunKeepsInv(members, ipv4, front);
      PatientStepKeeps(members, ipv4, Run(members, ipv4, front), steps[|steps| - 1]);
    }
    var sys := Run(members, ipv4, steps);
    forall k | 0 <= k < |sys.requests| ensures sys.requests[k].status != Refused { assert OpenIsAwaited(sys, k); }
  }

  // ---- The phases are the worker's lifecycle -----------------------------------

  function EventOf(event: Option<string>): Option<Event> {
    if event == None then Some(Periodic)
    else if event.value == "started" then Some(Started)
    else if event.value == "completed" then Some(Completed)
    else if event.value == "stopped" then Some(Stopped)
    else None
  }

  /** The phase a worker is in after these announces, if the phases allow them. */
  function Walk(trace: seq<W.Announced>): Option<Phase> {
    if trace == [] then Some(Fresh)
    else
      var last := trace[|trace| - 1];
      match Walk(trace[..|trace| - 1])
      case None => None
      case Some(phase) =>
        if EventOf(last.args.event).None? || Sending(phase, EventOf(last.args.event).value, |trace| - 1).None? then None
        else Some(Hearing(Sending(phase, EventOf(last.args.event).value, |trace| - 1).value, last.outcome.Accepted?))
  }

  /** One more announce, in the terms of the worker's own predicates. */
  lemma OneMoreAnnounce(front: seq<W.Announced>, a: W.Announced)
    ensures W.BeforeShutdown(front + [a]) <==>
      if front == [] then W.IsEvent(a, "started")
      else W.BeforeShutdown(front) && front[|front| - 1].outcome.Accepted?
           && (a.args.event == None || W.IsEvent(a, "completed"))
    ensures W.Lifecycle(front + [a]) <==>
      if front == [] then W.IsEvent(a, "started") && !a.outcome.Accepted?
      else W.BeforeShutdown(front) && (|front| >= 2 || front[0].outcome.Accepted?) && W.IsEvent(a, "stopped")
  {
    var trace := front + [a];
    assert trace[..|trace| - 1] == front;
    assert forall k :: 0 <= k < |front| ==> trace[k] == front[k];
    if front != [] { OneMoreBefore(front, a); }
  }

  lemma OneMoreBefore(front: seq<W.Announced>, a: W.Announced)
    requires front != []
    ensures W.BeforeShutdown(front + [a]) <==>
      W.BeforeShutdown(front) && front[|front| - 1].outcome.Accepted?
      && (a.args.event == None || W.IsEvent(a, "completed"))
  {
    var trace := front + [a];
    assert trace[|front|] == a && trace[|front| - 1] == front[|front| - 1];
    assert forall k :: 0 <= k < |front| ==> trace[k] == front[k];
    if W.BeforeShutdown(trace) {
      assert forall k :: 1 <= k < |front| ==> trace[k].args.event == None || W.IsEvent(trace[k], "completed");
      assert forall k :: 0 <= k < |front| ==> trace[k].outcome.Accepted?;
    }
  }

  /** Which announces lead to which phase. */
  lemma {:induction false} WalkMeaning(trace: seq<W.Announced>)
    ensures Walk(trace) == Some(Fresh) <==> trace == []
    ensures Walk(trace) == Some(Running) <==> W.BeforeShutdown(trace) && trace[|trace| - 1].outcome.Accepted?
    ensures Walk(trace) == Some(Failing) <==>
      W.BeforeShutdown(trace) && |trace| >= 2 && !trace[|trace| - 1].outcome.Accepted?
    ensures Walk(trace) == Some(Ended) <==> trace != [] && W.Lifecycle(trace)
    ensures Walk(trace).Some? ==> !Waiting(Walk(trace).value)
  {
    hide W.Lifecycle;
    if trace != [] {
      var front, a := trace[..|trace| - 1], trace[|trace| - 1];
      WalkMeaning(front);
      assert trace == front + [a];
      OneMoreAnnounce(front, a);
      BeforeIsNotEmpty(front);
      hide W.BeforeShutdown;
    } else {
      BeforeIsNotEmpty(trace);
    }
  }

  lemma BeforeIsNotEmpty(trace: seq<W.Announced>)
    ensures W.BeforeShutdown(trace) ==> trace != []
  {
  }

  /** A list of announces is a whole worker run exactly when the phases lead it from start to end. */
  lemma LifecycleIsWalk(trace: seq<W.Announced>)
    ensures W.Lifecycle(trace) <==> Walk(trace) == Some(Fresh) || Walk(trace) == Some(Ended)
  {
    WalkMeaning(trace);
  }

  /** Every list of announces that the phases allow can still become a whole worker run. */
  lemma WalkCanFinish(trace: seq<W.Announced>) returns (rest: seq<W.Announced>)
    requires Walk(trace).Some?
    ensures W.Lifecycle(trace + rest)
  {
    hide W.Lifecycle, W.BeforeShutdown, Walk;
    WalkMeaning(trace);
    if Walk(trace) == Some(Running) || Walk(trace) == Some(Failing) {
      var stopped := W.Announced(AnnounceQuery.ClientArgs([], 0, 0, 0, Some("stopped")), WorkerTurns.TrackerError);
      rest := [stopped];
      BeforeIsNotEmpty(trace);
      OneMoreAnnounce(trace, stopped);
    } else {
      rest := [];
      assert trace + rest == trace;
      NoAnnounces();
    }
  }

  lemma NoAnnounces()
    ensures W.Lifecycle([])
  {
  }

  // ---- Each worker inside a run ------------------------------------------------

  function EventArg(e: Event): Option<string> { if e == Periodic then None else Some(EventText(e)) }

  /** A request as its worker sees it once it has heard of it, or given it up. */
  function Heard(m: Member, r: Request, accepted: bool): W.Announced {
    W.Announced(AnnounceQuery.ClientArgs(m.infoHash, r.uploaded, r.downloaded, r.left, EventArg(r.event)),
                if accepted then WorkerTurns.Accepted(TrackerReply.TrackerResponse(1, 0, 0, [])) else WorkerTurns.TrackerError)
  }

  /** The announce that a step ends for worker w, if it ends one, and whether it was accepted. */
  function EndedBy(sys: System, step: Step, w: nat): Option<(nat, bool)> {
    if w >= |sys.phases| || !Waiting(sys.phases[w]) || sys.phases[w].request >= |sys.requests| then None
    else
      var k := sys.phases[w].request;
      if step == GiveUp(w) then Some((k, false))
      else if step == Hear(w) && sys.requests[k].status != InFlight then Some((k, sys.requests[k].status == Granted))
      else None
  }

  /** The announces of worker w that have ended by the end of a run, in the order it made them. */
  function TraceOf(members: seq<Member>, ipv4: T.Ipv4, steps: seq<Step>, w: nat): seq<W.Announced>
    requires w < |members|
  {
    if steps == [] then []
    else
      var sys := Run(members, ipv4, steps[..|steps| - 1]);
      var front := TraceOf(members, ipv4, steps[..|steps| - 1], w);
      match EndedBy(sys, steps[|steps| - 1], w)
      case None => front
      case Some((k, accepted)) => front + [Heard(members[w], sys.requests[k], accepted)]
  }

  /** The events a worker has sent, in order. */
  function EventsSent(requests: seq<Request>, w: nat): seq<Event> {
    if requests == [] then []
    else
      var last := requests[|requests| - 1];
      EventsSent(requests[..|requests| - 1], w) + if last.worker == w then [last.event] else []
  }

  function EventsHeard(trace: seq<W.Announced>): seq<Option<Event>> {
    if trace == [] then []
    else EventsHeard(trace[..|trace| - 1]) + [EventOf(trace[|trace| - 1].args.event)]
  }

  function Known(events: seq<Event>): seq<Option<Event>> {
    if events == [] then [] else Known(events[..|events| - 1]) + [Some(events[|events| - 1])]
  }

  /** Where worker w stands: its ended announces lead to its phase, and one more request may be open. */
  ghost predicate InStep(sys: System, trace: seq<W.Announced>, w: nat) {
    && w < |sys.phases| && Walk(trace).Some?
    && if Waiting(sys.phases[w]) then
         var k := sys.phases[w].request;
         && k < |sys.requests| && sys.requests[k].worker == w
         && Sending(Walk(trace).value, sys.requests[k].event, k) == Some(sys.phases[w])
         && Known(EventsSent(sys.requests, w)) == EventsHeard(trace) + [Some(sys.requests[k].event)]
       else
         && Walk(trace).value == sys.phases[w]
         && Known(EventsSent(sys.requests, w)) == EventsHeard(trace)
  }

  /** What a request is, apart from what became of it. */
  predicate SameSent(a: seq<Request>, b: seq<Request>) {
    |a| == |b| && forall k :: 0 <= k < |a| ==> a[k].worker == b[k].worker && a[k].event == b[k].event
  }

  lemma {:induction false} SameEventsSent(a: seq<Request>, b: seq<Request>, w: nat)
    requires SameSent(a, b)
    ensures EventsSent(a, w) == EventsSent(b, w)
  {
    if a != [] { SameEventsSent(a[..|a| - 1], b[..|b| - 1], w); }
  }

  lemma OneMoreSent(requests: seq<Request>, r: Request, w: nat)
    ensures EventsSent(requests + [r], w) == EventsSent(requests, w) + (if r.worker == w then [r.event] else [])
    ensures r.worker == w ==> Known(EventsSent(requests + [r], w)) == Known(EventsSent(requests, w)) + [Some(r.event)]
  {
    var longer := requests + [r];
    assert longer[..|longer| - 1] == requests;
    var events := EventsSent(requests, w);
    if r.worker == w {
      assert (events + [r.event])[..|events|] == events;
    } else {
      assert events + [] == events;
    }
  }

  /** A worker is idle between its announces: what it has sent it has heard of. */
  lemma SettlingKeepsStep(sys: System, after: System, trace: seq<W.Announced>, w: nat)
    requires InStep(sys, trace, w) && after.phases == sys.phases && SameSent(sys.requests, after.requests)
    ensures InStep(after, trace, w)
  {
    hide Walk, EventsHeard, Known, EventsSent;
    SameEventsSent(sys.requests, after.requests, w);
  }

  lemma HeardEvent(m: Member, r: Request, accepted: bool)
    ensures EventOf(Heard(m, r, accepted).args.event) == Some(r.event)
    ensures Heard(m, r, accepted).outcome.Accepted? == accepted
  {
  }

  /** The number of a request is not part of what its worker hears. */
  lemma AnyNumber(phase: Phase, event: Event, j: nat, k: nat, accepted: bool)
    requires Sending(phase, event, k).Some?
    ensures Sending(phase, event, j).Some?
    ensures Hearing(Sending(phase, event, j).value, accepted) == Hearing(Sending(phase, event, k).value, accepted)
  {
  }

  /** An announce that the phases allow leads on to what its worker hears. */
  lemma WalkOn(trace: seq<W.Announced>, a: W.Announced, event: Event, k: nat)
    requires Walk(trace).Some? && EventOf(a.args.event) == Some(event)
    requires Sending(Walk(trace).value, event, k).Some?
    ensures Walk(trace + [a])
      == Some(Hearing(Sending(Walk(trace).value, event, k).value, a.outcome.Accepted?))
  {
    hide EventOf, Sending, Hearing;
    var longer := trace + [a];
    assert longer[..|longer| - 1] == trace && longer[|longer| - 1] == a;
    AnyNumber(Walk(trace).value, event, |trace|, k, a.outcome.Accepted?);
  }

  lemma HeardOn(trace: seq<W.Announced>, a: W.Announced)
    ensures EventsHeard(trace + [a]) == EventsHeard(trace) + [EventOf(a.args.event)]
  {
    hide EventOf;
    var longer := trace + [a];
    assert longer[..|longer| - 1] == trace && longer[|longer| - 1] == a;
  }

  lemma EndingKeepsStep(
      sys: System, after: System, trace: seq<W.Announced>, m: Member, w: nat, k: nat, accepted: bool)
    requires InStep(sys, trace, w) && Waiting(sys.phases[w]) && sys.phases[w].request == k
    requires after.requests == sys.requests && after.phases == sys.phases[w := Hearing(sys.phases[w], accepted)]
    ensures InStep(after, trace + [Heard(m, sys.requests[k], accepted)], w)
  {
    hide EventsSent, Known, Walk, EventsHeard, EventOf, Heard, Sending;
    var r := sys.requests[k];
    HeardEvent(m, r, accepted);
    WalkOn(trace, Heard(m, r, accepted), r.event, k);
    HeardOn(trace, Heard(m, r, accepted));
  }

  lemma SendingKeepsStep(sys: System, after: System, trace: seq<W.Announced>, w: nat, step: Step)
    requires InStep(sys, trace, w) && step.Send? && step.worker < |sys.phases|
    requires Sending(sys.phases[step.worker], step.event, |sys.requests|).Some?
    requires var r := Request(step.worker, step.event, step.uploaded, step.downloaded, step.left, InFlight);
      after.requests == sys.requests + [r]
    requires after.phases
      == sys.phases[step.worker := Sending(sys.phases[step.worker], step.event, |sys.requests|).value]
    ensures InStep(after, trace, w)
  {
    hide Walk, EventsHeard, Known, EventsSent;
    OneMoreSent(sys.requests, after.requests[|sys.requests|], w);
    assert EventsSent(sys.requests, w) + [] == EventsSent(sys.requests, w);
  }

  lemma {:induction false} WorkersKeepStep(members: seq<Member>, ipv4: T.Ipv4, steps: seq<Step>, w: nat)
    requires w < |members|
    ensures |Run(members, ipv4, steps).phases| == |members|
    ensures InStep(Run(members, ipv4, steps), TraceOf(members, ipv4, steps, w), w)
  {
    if steps != [] {
      var front, step := steps[..|steps| - 1], steps[|steps| - 1];
      WorkersKeepStep(members, ipv4, front, w);
      var sys, after := Run(members, ipv4, front), Run(members, ipv4, steps);
      StepKeepsStep(members, ipv4, sys, TraceOf(members, ipv4, front, w), w, step);
    }
  }

  lemma StepKeepsStep(
      members: seq<Member>, ipv4: T.Ipv4, sys: System, trace: seq<W.Announced>, w: nat, step: Step)
    requires w < |members| && InStep(sys, trace, w)
    ensures |Next(members, ipv4, sys, step).phases| == |sys.phases|
    ensures InStep(Next(members, ipv4, sys, step),
      match EndedBy(sys, step, w)
      case None => trace
      case Some((k, accepted)) => trace + [Heard(members[w], sys.requests[k], accepted)], w)
  {
    hide Processed, Heard, Sending, InStep;
    var after := Next(members, ipv4, sys, step);
    WaitsForItsOwn(sys, trace, w);
    match step
    case Send(v, event, uploaded, downloaded, left) =>
      if v < |sys.phases| && Sending(sys.phases[v], event, |sys.requests|).Some? {
        SendingKeepsStep(sys, after, trace, w, step);
      }
    case Process(_, _) => SettlingKeepsStep(sys, after, trace, w);
    case Lose(_) => SettlingKeepsStep(sys, after, trace, w);
    case Hear(v) =>
      if v == w && EndedBy(sys, step, w).Some? {
        var (k, accepted) := EndedBy(sys, step, w).value;
        EndingKeepsStep(sys, after, trace, members[w], w, k, accepted);
      } else {
        OtherWorkerMoves(sys, after, trace, w, v);
      }
    case GiveUp(v) =>
      if v == w && EndedBy(sys, step, w).Some? {
        var (k, accepted) := EndedBy(sys, step, w).value;
        EndingKeepsStep(sys, after, trace, members[w], w, k, accepted);
      } else {
        OtherWorkerMoves(sys, after, trace, w, v);
      }
  }

  lemma WaitsForItsOwn(sys: System, trace: seq<W.Announced>, w: nat)
    requires InStep(sys, trace, w)
    ensures w < |sys.phases| && (Waiting(sys.phases[w]) ==> sys.phases[w].request < |sys.requests|)
  {
    hide Walk, EventsHeard, Known, EventsSent;
  }

  lemma OtherWorkerMoves(sys: System, after: System, trace: seq<W.Announced>, w: nat, v: nat)
    requires InStep(sys, trace, w) && after.requests == sys.requests && |after.phases| == |sys.phases|
    requires after.phases[w] == sys.phases[w]
    ensures InStep(after, trace, w)
  {
    hide Walk, EventsHeard, Known, EventsSent;
  }

  /**
   * Each worker inside every run: the announces it has made so far are the beginning of a
   * whole lifecycle, and together with the one it may be waiting for they are exactly the
   * requests it has sent, in order.
   */
  lemma EveryWorkerIsInItsLifecycle(members: seq<Member>, ipv4: T.Ipv4, steps: seq<Step>, w: nat)
    returns (rest: seq<W.Announced>)
    requires w < |members|
    ensures var sys, trace := Run(members, ipv4, steps), TraceOf(members, ipv4, steps, w);
      && W.Lifecycle(trace + rest)
      && w < |sys.phases|
      && if Waiting(sys.phases[w]) then
           && sys.phases[w].request < |sys.requests|
           && Known(EventsSent(sys.requests, w))
                == EventsHeard(trace) + [Some(sys.requests[sys.phases[w].request].event)]
         else Known(EventsSent(sys.requests, w)) == EventsHeard(trace)
  {
    hide Run, TraceOf, W.Lifecycle, Walk;
    WorkersKeepStep(members, ipv4, steps, w);
    rest := WalkCanFinish(TraceOf(members, ipv4, steps, w));
  }

  // ---- Being overtaken does happen ---------------------------------------------

  /** A worker gives up on a periodic announce and stops; the tracker gets `stopped` first. */
  const OVERTAKING: seq<Step> := [
    Send(0, Started, 0, 0, 1), Process(0, 0.0), Hear(0), Send(0, Periodic, 0, 0, 1), GiveUp(0),
    Send(0, Stopped, 0, 0, 1), Process(2, 0.0), Process(1, 0.0)]

  lemma RunSteps(members: seq<Member>, ipv4: T.Ipv4, steps: seq<Step>, n: nat)
    requires n < |steps|
    ensures Run(members, ipv4, steps[..n + 1]) == Next(members, ipv4, Run(members, ipv4, steps[..n]), steps[n])
  {
    hide Next;
    assert steps[..n + 1][..n] == steps[..n];
  }

  lemma StartOf(members: seq<Member>, ipv4: T.Ipv4, steps: seq<Step>)
    ensures Run(members, ipv4, steps[..0]) == Start(members)
  {
  }

  const THE_START := Request(0, Started, 0, 0, 1, Granted)
  const THE_PERIODIC := Request(0, Periodic, 0, 0, 1, InFlight)
  const THE_STOP := Request(0, Stopped, 0, 0, 1, InFlight)

  lemma StartIsGranted(m: Member, ipv4: T.Ipv4)
    requires ValidMember(m, ipv4)
    ensures var sys := Run([m], ipv4, OVERTAKING[..2]); sys.requests == [THE_START] && sys.phases == [Starting(0)]
  {
    hide Run, Processed, ValidMember;
    StartOf([m], ipv4, OVERTAKING);
    RunSteps([m], ipv4, OVERTAKING, 0);
    var s1 := Run([m], ipv4, OVERTAKING[..1]);
    assert s1.requests == [Request(0, Started, 0, 0, 1, InFlight)] && s1.phases == [Starting(0)];
    ProcessedEffect(s1.swarms, m, s1.requests[0], 0.0, ipv4);
    RunSteps([m], ipv4, OVERTAKING, 1);
  }

  lemma PeriodicIsAbandoned(m: Member, ipv4: T.Ipv4)
    requires ValidMember(m, ipv4)
    ensures var sys := Run([m], ipv4, OVERTAKING[..6]); sys.requests == [THE_START, THE_PERIODIC, THE_STOP]
  {
    hide Run, Processed, ValidMember;
    StartIsGranted(m, ipv4);
    RunSteps([m], ipv4, OVERTAKING, 2);
    var s3 := Run([m], ipv4, OVERTAKING[..3]);
    assert s3.requests == [THE_START] && s3.phases == [Running];
    RunSteps([m], ipv4, OVERTAKING, 3);
    var s4 := Run([m], ipv4, OVERTAKING[..4]);
    assert s4.requests == [THE_START, THE_PERIODIC] && s4.phases == [Busy(1)];
    RunSteps([m], ipv4, OVERTAKING, 4);
    var s5 := Run([m], ipv4, OVERTAKING[..5]);
    assert s5.requests == [THE_START, THE_PERIODIC] && s5.phases == [Failing];
    RunSteps([m], ipv4, OVERTAKING, 5);
  }

  /** For every valid worker there is a run in which the tracker refuses its announce as a first one. */
  lemma OvertakenIsRefused(m: Member, ipv4: T.Ipv4)
    requires ValidMember(m, ipv4)
    ensures ValidMembers([m], ipv4)
    ensures var sys := Run([m], ipv4, OVERTAKING);
      |sys.requests| == 3 && sys.requests[1].event == Periodic && sys.requests[1].status == Refused
  {
    hide Run, Processed, ValidMember;
    PeriodicIsAbandoned(m, ipv4);
    var s6 := Run([m], ipv4, OVERTAKING[..6]);
    ProcessedEffect(s6.swarms, m, THE_STOP, 0.0, ipv4);
    RunSteps([m], ipv4, OVERTAKING, 6);
    var s7 := Run([m], ipv4, OVERTAKING[..7]);
    assert s7.requests == [THE_START, THE_PERIODIC, THE_STOP.(status := Granted)];
    ProcessedEffect(s7.swarms, m, THE_PERIODIC, 0.0, ipv4);
    RunSteps([m], ipv4, OVERTAKING, 7);
    assert OVERTAKING[..8] == OVERTAKING;
  }

  // ---- Over the wire -----------------------------------------------------------

  /** A request as a call of the tracker client. */
  function CallOf(m: Member, url: string, r: Request, now: real): Wire.Call {
    Wire.Call(AnnounceQuery.Client(url, m.peerId, m.port),
              AnnounceQuery.ClientArgs(m.infoHash, r.uploaded, r.downloaded, r.left, EventArg(r.event)), m.ip, now)
  }

  /** A base URL without a fragment that brings no parameters of its own. */
  predicate SilentUrl(url: string) {
    '#' !in url && AnnounceQuery.ParseAnnounceQuery(AnnounceQuery.QueryOf(url)) == Ok(map[])
  }

  lemma SilentUrlCarries(m: Member, url: string, r: Request, now: real)
    requires SilentUrl(url)
    ensures Wire.Carried(CallOf(m, url, r, now))
  {
    hide AnnounceQuery.ParseAnnounceQuery, AnnounceQuery.QueryOf;
  }

  /** What the tracker does with a request is what a remote announce does to it. */
  lemma ProcessedIsRemote(
      s: T.Swarms, server: Wire.Server, m: Member, url: string, r: Request, now: real)
    requires T.Inv(s) && Wire.ValidServer(server) && ValidMember(m, server.ipv4) && SilentUrl(url) && now >= 0.0
    ensures Wire.ValidCall(CallOf(m, url, r, now))
    ensures var (after, result) := Wire.RemoteAnnounce(s, server, CallOf(m, url, r, now));
      Processed(s, m, r, now, server.ipv4) == (after, result.Ok?)
  {
    hide Wire.Carried, Wire.RemoteAnnounce, Processed, T.Announce, T.Inv, SilentUrl, AnnounceQuery.ArgsError,
      AnnounceQuery.ParseAnnounceQuery, AnnounceQuery.QueryOf, AnnounceQuery.Arriving, Wire.Visit;
    var call := CallOf(m, url, r, now);
    ArgumentsPass(m, url, r, now);
    SilentUrlCarries(m, url, r, now);
    Wire.RemoteIsDirect(s, server, call);
    Wire.MissingEventIsEmpty(s, call, server.ipv4);
    assert Wire.DirectArgs(call).(event := Some(T.EventOf(call.args.event))) == Args(m, r, now);
    AnnouncedIsProcessed(s, m, r, now, server.ipv4);
  }

  lemma ArgumentsPass(m: Member, url: string, r: Request, now: real)
    requires |m.infoHash| == 20
    ensures AnnounceQuery.ArgsError(CallOf(m, url, r, now).args).None?
  {
  }

  lemma AnnouncedIsProcessed(s: T.Swarms, m: Member, r: Request, now: real, ipv4: T.Ipv4)
    ensures Processed(s, m, r, now, ipv4)
      == (T.Announce(s, Args(m, r, now), ipv4).0, T.Announce(s, Args(m, r, now), ipv4).1.Ok?)
  {
    hide T.Validate, T.AnnounceState, T.ReplyFor, Args;
  }

  /** One step of the whole, with every request sent through the tracker client and its server. */
  ghost function NextOverWire(members: seq<Member>, server: Wire.Server, url: string, sys: System, step: Step): System
    requires ValidMembers(members, server.ipv4) && SilentUrl(url)
  {
    match step
    case Process(k, now) =>
      if k >= |sys.requests| || sys.requests[k].status != InFlight || sys.requests[k].worker >= |members| || now < 0.0
      then sys
      else
        var r := sys.requests[k];
        CallIsValid(members, server, url, r, now);
        var (after, result) := Wire.RemoteAnnounce(sys.swarms, server, CallOf(members[r.worker], url, r, now));
        sys.(swarms := after,
             requests := sys.requests[k := r.(status := if result.Ok? then Granted else Refused)])
    case _ => Next(members, server.ipv4, sys, step)
  }

  lemma CallIsValid(members: seq<Member>, server: Wire.Server, url: string, r: Request, now: real)
    requires ValidMembers(members, server.ipv4) && SilentUrl(url) && r.worker < |members|
    ensures Wire.ValidCall(CallOf(members[r.worker], url, r, now))
  {
    assert ValidMember(members[r.worker], server.ipv4);
  }

  ghost function RunOverWire(members: seq<Member>, server: Wire.Server, url: string, steps: seq<Step>): System
    requires ValidMembers(members, server.ipv4) && SilentUrl(url)
  {
    if steps == [] then Start(members)
    else NextOverWire(members, server, url, RunOverWire(members, server, url, steps[..|steps| - 1]), steps[|steps| - 1])
  }

  /** The workers and the tracker over HTTP and Bencode go through the same states. */
  lemma {:induction false} RunOverWireIsRun(members: seq<Member>, server: Wire.Server, url: string, steps: seq<Step>)
    requires ValidMembers(members, server.ipv4) && SilentUrl(url) && Wire.ValidServer(server)
    ensures RunOverWire(members, server, url, steps) == Run(members, server.ipv4, steps)
    ensures T.Inv(Run(members, server.ipv4, steps).swarms)
  {
    hide T.Inv, Wire.RemoteAnnounce, Processed, ValidMembers, CallOf;
    EmptyKeepsInv();
    if steps != [] {
      var front, step := steps[..|steps| - 1], steps[|steps| - 1];
      RunOverWireIsRun(members, server, url, front);
      var sys := Run(members, server.ipv4, front);
      match step
      case Process(k, now) =>
        if k < |sys.requests| && sys.requests[k].worker < |members| && now >= 0.0 {
          var r := sys.requests[k];
          OneMember(members, server.ipv4, r.worker);
          ProcessedIsRemote(sys.swarms, server, members[r.worker], url, r, now);
          ProcessedKeepsInv(sys.swarms, members[r.worker], r, now, server.ipv4);
        }
      case _ =>
    }
  }

  lemma EmptyKeepsInv()
    ensures T.Inv(map[])
  {
  }

  lemma OneMember(members: seq<Member>, ipv4: T.Ipv4, w: nat)
    requires ValidMembers(members, ipv4) && w < |members|
    ensures ValidMember(members[w], ipv4)
  {
  }

  lemma ProcessedKeepsInv(s: T.Swarms, m: Member, r: Request, now: real, ipv4: T.Ipv4)
    requires T.Inv(s)
    ensures T.Inv(Processed(s, m, r, now, ipv4).0)
  {
    hide T.Inv, T.Validate, T.AnnounceState, Args;
    T.StepKeepsInv(s, T.AnnounceOp(Args(m, r, now)), ipv4);
  }

  /**
   * Over the wire as well: after any interleaving the tracker's swarms hold exactly the
   * workers whose `started` it has granted and whose `stopped` it has not.
   */
  lemma RemoteSwarmsHoldLiveWorkers(
      members: seq<Member>, server: Wire.Server, url: string, steps: seq<Step>, h: Bytes, p: Bytes)
    requires ValidMembers(members, server.ipv4) && SilentUrl(url) && Wire.ValidServer(server)
    ensures var sys := RunOverWire(members, server, url, steps);
      T.Find(sys.swarms, h, p).Some? <==>
        exists w: nat :: w < |members| && Id(members[w]) == (h, p)
          && StartedGranted(sys.requests, w) && !StoppedGranted(sys.requests, w)
  {
    hide Run, RunOverWire, Has, T.Find;
    RunOverWireIsRun(members, server, url, steps);
    SwarmsHoldLiveWorkers(members, server.ipv4, steps, h, p);
  }
}
