/** The replicated log at work on the path map: what the maps of different clients resolve. */
module PathMapLog {
  import opened PathMap
  import opened ReplicatedLog
  import LogReplay

  function PathMachine(): Machine<Snapshot, DbEntry> {
    Machine(map[], Apply)
  }

  /** Two clients at the same database version, at whatever time, resolve every path to the same place and timestamp. */
  lemma {:induction false} ClientsResolveAlike(
      s: State<Snapshot, DbEntry>, events: seq<Event<DbEntry>>, s': State<Snapshot, DbEntry>, i: ClientId, j: ClientId,
      userPath: string, lookup: bool, limit: nat)
    requires Reachable(PathMachine(), s) && Run(PathMachine(), s, events, s') && i in s.clients && j in s'.clients
    requires s.clients[i].version == s'.clients[j].version
    requires |userPath| < PathMap.PathCodec.NPOS
    ensures
      ToSystemPath(s.clients[i].content, userPath, lookup, limit)
      == ToSystemPath(s'.clients[j].content, userPath, lookup, limit)
  {
    ClientsAgreeOverTime(PathMachine(), s, events, s', i, j);
  }
}
