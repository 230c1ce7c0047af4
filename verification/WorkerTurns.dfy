/**
 * What the outside world does to one torrent's worker, and how far the worker's turns bring
 * its piece store: the part of peer/torrent_worker.py that does not depend on its announces.
 */
module WorkerTurns {
  import opened Wrappers
  import opened Torrents
  import opened PieceStore
  import opened PieceClients
  import opened TrackerReply
  import D = DownloadTheorems

  /** How one announce ends; only a TrackerClientError is expected at shutdown. */
  datatype AnnounceOutcome = Accepted(response: TrackerResponse) | TrackerError | OtherError

  /** What pinging the listed peers leads to: an exception, or the peers that respond, in order. */
  datatype Contact = PingRaised | Responsive(remotes: seq<Remote>)

  /**
   * The outside world: whether set-up succeeds; the stop event at the head of a turn and
   * while waiting; the contacts of a turn; and, for the k-th announce, the bytes uploaded so
   * far by the server threads and how the announce ends.
   */
  datatype Env = Env(
    setUp: bool, stopSet: nat -> bool, stopWhileWaiting: nat -> bool,
    contacts: nat -> Contact, uploaded: nat -> nat, announces: nat -> AnnounceOutcome)

  datatype Options = Options(maxCycles: nat, exitOnComplete: bool)

  predicate Complete(s: Session) { AllSet(s.store.bits) }

  // ---- The downloads of one turn -----------------------------------------------

  /** The k-th of these downloads raises. */
  predicate Raises(cl: Client, s: Session, remotes: seq<Remote>, k: nat)
    requires Ready(cl, s) && k < |remotes|
  {
    Download(cl, D.Downloads(cl, s, remotes[..k]), remotes[k]).1.Err?
  }

  /** After n downloads there is no next one: none is left, the store is complete, or the last one raised. */
  predicate Over(cl: Client, s: Session, remotes: seq<Remote>, n: nat)
    requires Ready(cl, s) && n <= |remotes|
  {
    || n == |remotes|
    || Complete(D.Downloads(cl, s, remotes[..n]))
    || (n > 0 && Raises(cl, s, remotes, n - 1))
  }

  /** The least number of downloads, from n on, after which there is no next one. */
  function StopFrom(cl: Client, s: Session, remotes: seq<Remote>, n: nat): (m: nat)
    requires Ready(cl, s) && n <= |remotes|
    ensures n <= m <= |remotes| && Over(cl, s, remotes, m)
    ensures forall k :: n <= k < m ==> !Over(cl, s, remotes, k)
    decreases |remotes| - n
  {
    hide Raises, D.Downloads, Complete, Ready, Download;
    if Over(cl, s, remotes, n) then n else StopFrom(cl, s, remotes, n + 1)
  }

  /** How many of the responsive peers a turn downloads from. */
  function Stop(cl: Client, s: Session, remotes: seq<Remote>): (n: nat)
    requires Ready(cl, s)
    ensures n <= |remotes| && Over(cl, s, remotes, n) && forall k :: 0 <= k < n ==> !Over(cl, s, remotes, k)
  {
    StopFrom(cl, s, remotes, 0)
  }

  lemma StopIs(cl: Client, s: Session, remotes: seq<Remote>, n: nat)
    requires Ready(cl, s) && n <= |remotes| && Over(cl, s, remotes, n)
    requires forall k :: 0 <= k < n ==> !Over(cl, s, remotes, k)
    ensures Stop(cl, s, remotes) == n
  {
    hide Over, StopFrom;
  }

  /** The last download of a turn raises. */
  predicate LastRaises(cl: Client, s: Session, remotes: seq<Remote>)
    requires Ready(cl, s)
  {
    var n := Stop(cl, s, remotes);
    n > 0 && Raises(cl, s, remotes, n - 1)
  }

  /** The session after the downloads of a turn. */
  function AfterContact(cl: Client, s: Session, contact: Contact): (after: Session)
    requires Ready(cl, s)
    ensures Ready(cl, after)
  {
    match contact
    case PingRaised => s
    case Responsive(remotes) => D.Downloads(cl, s, remotes[..Stop(cl, s, remotes)])
  }

  predicate ContactRaises(cl: Client, s: Session, contact: Contact)
    requires Ready(cl, s)
  {
    match contact
    case PingRaised => true
    case Responsive(remotes) => LastRaises(cl, s, remotes)
  }

  /** The counter that the results of the turn account for: a download that raises has no result. */
  function CountedAt(cl: Client, s: Session, contact: Contact): int
    requires Ready(cl, s)
  {
    match contact
    case PingRaised => s.downloaded
    case Responsive(remotes) =>
      var n := Stop(cl, s, remotes);
      if LastRaises(cl, s, remotes) then D.Downloads(cl, s, remotes[..n - 1]).downloaded
      else D.Downloads(cl, s, remotes[..n]).downloaded
  }

  // ---- Turn after turn ---------------------------------------------------------

  /** The announce was accepted and lists somebody. */
  predicate Lists(outcome: AnnounceOutcome) { outcome.Accepted? && outcome.response.peers != [] }

  function AfterTurn(cl: Client, s: Session, listed: bool, contact: Contact): (after: Session)
    requires Ready(cl, s)
    ensures Ready(cl, after)
  {
    if listed then AfterContact(cl, s, contact) else s
  }

  /** The session after c turns; while the store is incomplete, turn c follows announce c - 1. */
  function SessionAfter(cl: Client, s: Session, env: Env, c: nat): (after: Session)
    requires Ready(cl, s)
    ensures Ready(cl, after)
  {
    if c == 0 then s
    else AfterTurn(cl, SessionAfter(cl, s, env, c - 1), Lists(env.announces(c - 1)), env.contacts(c))
  }

  predicate TurnRaises(cl: Client, s: Session, env: Env, c: nat)
    requires Ready(cl, s) && c > 0
  {
    Lists(env.announces(c - 1)) && ContactRaises(cl, SessionAfter(cl, s, env, c - 1), env.contacts(c))
  }

  /** The bytes in the results of the downloads of c turns. */
  function CountedAfter(cl: Client, s: Session, env: Env, c: nat): int
    requires Ready(cl, s)
  {
    if c == 0 then 0
    else
      var before := SessionAfter(cl, s, env, c - 1);
      (if Lists(env.announces(c - 1)) then CountedAt(cl, before, env.contacts(c)) else before.downloaded) - s.downloaded
  }

  /** Nothing keeps the worker from taking turn c, and the store is not complete before it. */
  predicate Reaches(cl: Client, s: Session, env: Env, options: Options, c: nat)
    requires Ready(cl, s)
  {
    && 1 <= c <= options.maxCycles && env.setUp
    && (forall j :: 0 <= j < c ==> env.announces(j).Accepted? && !env.stopSet(j))
    && (forall j :: 1 <= j < c ==> !env.stopWhileWaiting(j) && !TurnRaises(cl, s, env, j))
    && !Complete(SessionAfter(cl, s, env, c - 1))
  }

  /** Turn c finds the store complete for the first time. */
  predicate CompletesIn(cl: Client, s: Session, env: Env, options: Options, c: nat)
    requires Ready(cl, s)
  {
    && Reaches(cl, s, env, options, c)
    && !TurnRaises(cl, s, env, c) && Complete(SessionAfter(cl, s, env, c))
  }

  // ---- A complete store stays complete -----------------------------------------

  /** A turn with a complete store downloads nothing. */
  lemma CompleteStays(cl: Client, s: Session, contact: Contact)
    requires Ready(cl, s) && Complete(s)
    ensures AfterContact(cl, s, contact) == s && CountedAt(cl, s, contact) == s.downloaded
    ensures contact.Responsive? ==> !ContactRaises(cl, s, contact)
  {
    hide Ready, Complete, Raises, StopFrom;
    if contact.Responsive? {
      assert contact.remotes[..0] == [];
      assert D.Downloads(cl, s, []) == s;
      StopIs(cl, s, contact.remotes, 0);
    }
  }

  lemma TurnGrows(cl: Client, s: Session, listed: bool, contact: Contact)
    requires Ready(cl, s) && Complete(s)
    ensures AfterTurn(cl, s, listed, contact) == s
  {
    hide AfterContact, Complete, Ready;
    CompleteStays(cl, s, contact);
  }

  lemma {:induction false} SessionStays(cl: Client, s: Session, env: Env, c: nat, d: nat)
    requires Ready(cl, s) && c <= d && Complete(SessionAfter(cl, s, env, c))
    ensures SessionAfter(cl, s, env, d) == SessionAfter(cl, s, env, c)
    decreases d
  {
    hide Ready, Complete, AfterTurn;
    if c < d {
      SessionStays(cl, s, env, c, d - 1);
      TurnGrows(cl, SessionAfter(cl, s, env, d - 1), Lists(env.announces(d - 1)), env.contacts(d));
    }
  }

  // ---- The turns that are taken ------------------------------------------------

  /** c turns went by and nothing ended the loop. */
  predicate WentOn(cl: Client, s: Session, env: Env, c: nat)
    requires Ready(cl, s)
  {
    && env.setUp && env.announces(0).Accepted?
    && (forall j :: 0 <= j < c ==> !env.stopSet(j))
    && (forall j :: 1 <= j <= c ==>
          !env.stopWhileWaiting(j)
          && (!Complete(SessionAfter(cl, s, env, j)) ==> env.announces(j).Accepted? && !TurnRaises(cl, s, env, j)))
  }

  /** Some reason not to take another turn after c. */
  predicate IsLast(cl: Client, s: Session, env: Env, options: Options, c: nat)
    requires Ready(cl, s)
  {
    || !env.setUp || c >= options.maxCycles || env.stopSet(c)
    || !env.announces(c).Accepted?
    || (c > 0 && (env.stopWhileWaiting(c) || TurnRaises(cl, s, env, c)))
    || Complete(SessionAfter(cl, s, env, c))
  }

  /** The turns taken with an incomplete store are exactly those that nothing keeps the worker from. */
  ghost predicate TookTurns(cl: Client, s: Session, env: Env, options: Options, cycles: nat)
    requires Ready(cl, s)
  {
    forall c: nat :: Reaches(cl, s, env, options, c) <==> 1 <= c <= cycles && !Complete(SessionAfter(cl, s, env, c - 1))
  }

  lemma ReachedTurn(cl: Client, s: Session, env: Env, options: Options, c: nat)
    requires Ready(cl, s) && WentOn(cl, s, env, c) && !env.stopSet(c) && c < options.maxCycles
    requires !Complete(SessionAfter(cl, s, env, c))
    ensures Reaches(cl, s, env, options, c + 1)
  {
    hide Complete, Ready, TurnRaises, SessionAfter;
    forall j | 0 <= j <= c ensures !Complete(SessionAfter(cl, s, env, j)) {
      if Complete(SessionAfter(cl, s, env, j)) { SessionStays(cl, s, env, j, c); }
    }
  }

  lemma NotReached(cl: Client, s: Session, env: Env, options: Options, c: nat, d: nat)
    requires Ready(cl, s) && IsLast(cl, s, env, options, c) && c < d
    ensures !Reaches(cl, s, env, options, d)
  {
    hide Complete, Ready, TurnRaises, SessionAfter;
    if Complete(SessionAfter(cl, s, env, c)) { SessionStays(cl, s, env, c, d - 1); }
  }

  /** The turns taken, from the last of them. */
  lemma TurnsTaken(cl: Client, s: Session, env: Env, options: Options, cycles: nat)
    requires Ready(cl, s) && IsLast(cl, s, env, options, cycles) && cycles <= options.maxCycles
    requires cycles > 0 ==> WentOn(cl, s, env, cycles - 1) && !env.stopSet(cycles - 1)
    ensures TookTurns(cl, s, env, options, cycles)
  {
    hide Complete, Ready, TurnRaises, SessionAfter, Reaches, IsLast, WentOn;
    forall c: nat | 1 <= c
      ensures Reaches(cl, s, env, options, c) <==> 1 <= c <= cycles && !Complete(SessionAfter(cl, s, env, c - 1))
    {
      if c > cycles {
        NotReached(cl, s, env, options, cycles, c);
      } else {
        WentOnBefore(cl, s, env, cycles, c - 1);
        ReachedIsIncomplete(cl, s, env, options, c);
        if !Complete(SessionAfter(cl, s, env, c - 1)) { ReachedTurn(cl, s, env, options, c - 1); }
      }
    }
    ReachesFromOne(cl, s, env, options);
  }

  lemma WentOnBefore(cl: Client, s: Session, env: Env, cycles: nat, c: nat)
    requires Ready(cl, s) && c < cycles && WentOn(cl, s, env, cycles - 1) && !env.stopSet(cycles - 1)
    ensures WentOn(cl, s, env, c) && !env.stopSet(c)
  {
    hide Complete, Ready, TurnRaises, SessionAfter;
  }

  lemma ReachedIsIncomplete(cl: Client, s: Session, env: Env, options: Options, c: nat)
    requires Ready(cl, s) && c >= 1
    ensures Reaches(cl, s, env, options, c) ==> !Complete(SessionAfter(cl, s, env, c - 1))
  {
    hide Complete, Ready, TurnRaises, SessionAfter;
  }

  lemma ReachesFromOne(cl: Client, s: Session, env: Env, options: Options)
    requires Ready(cl, s)
    ensures !Reaches(cl, s, env, options, 0)
  {
    hide Complete, Ready, TurnRaises, SessionAfter;
  }
}
