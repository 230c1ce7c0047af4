/** A worker whose responsive peers include one that runs the real server and has every piece. */
module WorkerExchange {
  import opened Wrappers
  import opened Torrents
  import opened PieceClients
  import opened WorkerTurns
  import opened Workers
  import D = DownloadTheorems
  import Server = PeerServers
  import X = PeerExchange

  /**
   * The k-th responsive peer is a seeder of the same pieces, reached with no exception before
   * it, and every message its download needs fits the limits.
   */
  ghost predicate MeetsSeeder(
    cl: Client, s: Session, remotes: seq<Remote>, k: nat, sc: Server.ServerConfig, shared: Server.Shared)
    requires Ready(cl, s) && k < |remotes|
  {
    var before := D.Downloads(cl, s, remotes[..k]);
    && X.Matching(cl, sc, shared) && Server.Ready(sc, shared) && AllSet(shared.store.bits)
    && (forall j :: 0 <= j < k ==> !Raises(cl, s, remotes, j))
    && |before.store.bits| == |shared.store.bits|
    && X.Askable(sc, shared, X.WantedFrom(before, shared)) && X.Askable(sc, shared, [])
    && X.AllFit(cl, sc, shared, X.WantedFrom(before, shared))
    && remotes[k] == X.HonestRemote(sc, shared, cl, X.WantedFrom(before, shared))
  }

  /** Such a turn raises nothing and ends with every piece. */
  lemma SeederCompletesContact(
      cl: Client, s: Session, remotes: seq<Remote>, k: nat, sc: Server.ServerConfig, shared: Server.Shared)
    requires Ready(cl, s) && k < |remotes| && MeetsSeeder(cl, s, remotes, k, sc, shared)
    ensures Complete(AfterContact(cl, s, Responsive(remotes)))
    ensures !ContactRaises(cl, s, Responsive(remotes))
  {
    hide X.Matching, Ready, Server.Ready, X.Askable, X.AllFit, X.HonestRemote, D.Downloads, Download, AllSet, X.WantedFrom,
      X.OwnsWhatFits, X.ErrorsAre, X.Serving, X.Connects, StopFrom;
    var before := D.Downloads(cl, s, remotes[..k]);
    X.HonestDownload(cl, before, sc, shared);
    SeederDownload(cl, s, remotes, k);
    var n := Stop(cl, s, remotes);
    assert n <= k + 1;
  }

  /** The download from the k-th peer, when it succeeds and reports that the store is complete. */
  lemma SeederDownload(cl: Client, s: Session, remotes: seq<Remote>, k: nat)
    requires Ready(cl, s) && k < |remotes|
    ensures var r := Download(cl, D.Downloads(cl, s, remotes[..k]), remotes[k]).1;
      r.Ok? && r.value.complete ==>
        && !Raises(cl, s, remotes, k)
        && Complete(D.Downloads(cl, s, remotes[..k + 1])) && Over(cl, s, remotes, k + 1)
  {
    hide Ready, D.Downloads, Download;
    OneMoreDownload(cl, s, remotes, k);
    CompleteIsReported(cl, D.Downloads(cl, s, remotes[..k]), remotes[k]);
  }

  lemma CompleteIsReported(cl: Client, s: Session, remote: Remote)
    requires Ready(cl, s)
    ensures var (after, r) := Download(cl, s, remote);
      r.Ok? ==> (r.value.complete <==> Complete(after))
  {
    hide RequestPieces, FetchBitfield, ExpressInterest, Wanted, Missing;
  }

  /** Turn c meets a seeder. */
  ghost predicate TurnMeetsSeeder(
    cl: Client, s: Session, env: Env, options: Options, c: nat, k: nat, sc: Server.ServerConfig, shared: Server.Shared)
    requires Ready(cl, s)
  {
    && Reaches(cl, s, env, options, c)
    && Lists(env.announces(c - 1)) && env.contacts(c).Responsive? && k < |env.contacts(c).remotes|
    && MeetsSeeder(cl, SessionAfter(cl, s, env, c - 1), env.contacts(c).remotes, k, sc, shared)
  }

  lemma SeederCompletesTurn(
      cl: Client, s: Session, env: Env, options: Options, c: nat, k: nat, sc: Server.ServerConfig, shared: Server.Shared)
    requires Ready(cl, s) && TurnMeetsSeeder(cl, s, env, options, c, k, sc, shared)
    ensures CompletesIn(cl, s, env, options, c)
  {
    hide Reaches, MeetsSeeder, Ready, Complete, AfterContact, ContactRaises;
    ReachesFromOne(cl, s, env, options);
    SeederCompletesContact(cl, SessionAfter(cl, s, env, c - 1), env.contacts(c).remotes, k, sc, shared);
  }

  /**
   * A worker that takes a turn in which a seeder responds ends complete: it announces
   * `completed` in that same turn, and its result says so.
   */
  method RunBesideSeeder(
      worker: TorrentWorker, ghost c: nat, ghost k: nat, ghost sc: Server.ServerConfig, ghost shared: Server.Shared)
    returns (result: Option<WorkerResult>)
    requires worker.Valid() && worker.trace == [] && worker.client.downloaded == 0
    requires Ready(worker.client.client, worker.client.State())
    requires TurnMeetsSeeder(
      worker.client.client, worker.client.State(), worker.env, worker.options, c, k, sc, shared)
    modifies worker, worker.client, worker.client.manager
    ensures AllSet(worker.client.manager.bitfield)
    ensures c < |worker.trace| && IsEvent(worker.trace[c], "completed") && worker.trace[c].args.left == 0
    ensures result.Some? ==> result.value.complete && result.value.finalLeft == 0
  {
    hide TurnMeetsSeeder, Ready, CompletesIn, AllSet, Lifecycle, Reported, Truthful, Reflects, HasReason, PeriodicIncomplete,
      CompletedBeforeStopped, AnnouncesWhenComplete, CountedAfter;
    ghost var cl, s := worker.client.client, worker.client.State();
    SeederCompletesTurn(cl, s, worker.env, worker.options, c, k, sc, shared);
    ghost var cycles;
    result, cycles := worker.Run();
  }
}
