/**
 The replicated shard state machine as a function of the committed log:
 commands are applied exactly once per client request, and retries are
 answered from the deduplication table.
 */
module ShardMachine {
  import opened Base
  import opened Collections

  datatype LogId = LogId(term: nat, index: nat)

  datatype Command =
    | UpsertCommand(client: string, request: nat, points: seq<UpsertPoint>)
    | DeleteCommand(client: string, request: nat, ids: seq<Id>)

  datatype Response = Applied(sequence: nat) | Rejected(error: Error)

  datatype EntryPayload = Blank | Membership(nodes: set<nat>) | Normal(command: Command)

  datatype Entry = Entry(logId: LogId, payload: EntryPayload)

  /** What the state journal stores: the entry together with the response it was given. */
  datatype AppliedPayload =
    | BlankApplied
    | MembershipApplied(nodes: set<nat>)
    | CommandApplied(command: Command, response: Response)

  datatype AppliedRecord = AppliedRecord(logId: LogId, payload: AppliedPayload)

  datatype StoredMembership = StoredMembership(logId: Option<LogId>, nodes: set<nat>)

  type Dedup = map<string, map<nat, Response>>

  /** The replicated part of the state; it is also what a snapshot holds. */
  datatype Core = Core(coll: Coll, lastApplied: Option<LogId>, membership: StoredMembership, dedup: Dedup)

  const START := Core(EMPTY, None, StoredMembership(None, {}), map[])

  // ----- one entry -------------------------------------------------------

  function Identity(c: Command): (string, nat) { (c.client, c.request) }

  /** The batch a command carries, before preparation. */
  function Batch(c: Command): Mutation {
    match c
    case UpsertCommand(_, _, points) => Upsert(points)
    case DeleteCommand(_, _, ids) => Delete(ids)
  }

  function Lookup(dedup: Dedup, identity: (string, nat)): Option<Response> {
    if identity.0 in dedup && identity.1 in dedup[identity.0] then Some(dedup[identity.0][identity.1]) else None
  }

  /** `entry(client).or_default().insert(request, response)`. */
  function Remember(dedup: Dedup, identity: (string, nat), response: Response): (r: Dedup)
    ensures forall other :: Lookup(r, other) == if other == identity then Some(response) else Lookup(dedup, other)
  {
    var requests := if identity.0 in dedup then dedup[identity.0] else map[];
    dedup[identity.0 := requests[identity.1 := response]]
  }

  /** The response to a command seen for the first time. */
  function Respond(cfg: Config, coll: Coll, c: Command): Response {
    if coll.sequence >= U64_MAX then Rejected(SequenceOverflow)
    else
      match Prepare(cfg, Batch(c))
      case Err(e) => Rejected(e)
      case Ok(_) => Applied(coll.sequence + 1)
  }

  /** `prepare_payload`. */
  function PreparePayload(cfg: Config, core: Core, entry: Entry): (AppliedPayload, Response) {
    match entry.payload
    case Blank => (BlankApplied, Applied(core.coll.sequence))
    case Membership(nodes) => (MembershipApplied(nodes), Applied(core.coll.sequence))
    case Normal(c) =>
      var known := Lookup(core.dedup, Identity(c));
      var response := if known.Some? then known.value else Respond(cfg, core.coll, c);
      (CommandApplied(c, response), response)
  }

  /** The record `apply` appends to the journal for an entry. */
  function RecordOf(cfg: Config, core: Core, entry: Entry): AppliedRecord {
    AppliedRecord(entry.logId, PreparePayload(cfg, core, entry).0)
  }

  /** `replay_record`; `dirty` collects the IDs a fresh command touches. */
  function ReplayRecord(cfg: Config, core: Core, dirty: set<Id>, record: AppliedRecord): Result<(Core, set<Id>)> {
    match record.payload
    case BlankApplied => Ok((core.(lastApplied := Some(record.logId)), dirty))
    case MembershipApplied(nodes) =>
      Ok((core.(membership := StoredMembership(Some(record.logId), nodes), lastApplied := Some(record.logId)), dirty))
    case CommandApplied(c, response) =>
      if Lookup(core.dedup, Identity(c)).Some? then Ok((core.(lastApplied := Some(record.logId)), dirty))
      else
        var remembered := core.(
          dedup := Remember(core.dedup, Identity(c), response), lastApplied := Some(record.logId));
        match response
        case Rejected(_) => Ok((remembered, dirty))
        case Applied(sequence) =>
          if c.DeleteCommand? then
            Ok((remembered.(coll := Apply(core.coll, Batch(c), sequence)), dirty + Touched(Batch(c))))
          else
            match Prepare(cfg, Batch(c))
            case Err(e) => Err(e)
            case Ok(m) => Ok((remembered.(coll := Apply(core.coll, m, sequence)), dirty + Touched(Batch(c))))
  }

  /** Applying a committed entry: the replicated meaning of one log position. */
  function ApplyEntry(cfg: Config, core: Core, entry: Entry): Core {
    match entry.payload
    case Blank => core.(lastApplied := Some(entry.logId))
    case Membership(nodes) =>
      core.(membership := StoredMembership(Some(entry.logId), nodes), lastApplied := Some(entry.logId))
    case Normal(c) =>
      if Lookup(core.dedup, Identity(c)).Some? then core.(lastApplied := Some(entry.logId))
      else
        var response := Respond(cfg, core.coll, c);
        var coll := if response.Applied? then Apply(core.coll, Prepare(cfg, Batch(c)).value, response.sequence)
                    else core.coll;
        core.(coll := coll, dedup := Remember(core.dedup, Identity(c), response), lastApplied := Some(entry.logId))
  }

  /** IDs that an entry makes dirty when it is applied. */
  function EntryDirties(cfg: Config, core: Core, entry: Entry): set<Id> {
    match entry.payload
    case Normal(c) =>
      if Lookup(core.dedup, Identity(c)).None? && Respond(cfg, core.coll, c).Applied? then Touched(Batch(c)) else {}
    case _ => {}
  }

  /** Replaying the record of an entry never fails and does what applying the entry does. */
  lemma ReplayIsApply(cfg: Config, core: Core, dirty: set<Id>, entry: Entry)
    ensures ReplayRecord(cfg, core, dirty, RecordOf(cfg, core, entry))
      == Ok((ApplyEntry(cfg, core, entry), dirty + EntryDirties(cfg, core, entry)))
  {
    assert dirty + {} == dirty;
  }

  // ----- the fold over the log -------------------------------------------

  /** Entry `i` of the log has index `i`. */
  predicate LogInv(log: seq<Entry>) {
    forall i :: 0 <= i < |log| ==> log[i].logId.index == i
  }

  function StateAt(cfg: Config, log: seq<Entry>, n: nat): Core
    requires n <= |log|
  {
    if n == 0 then START else ApplyEntry(cfg, StateAt(cfg, log, n - 1), log[n - 1])
  }

  lemma LastAppliedIs(cfg: Config, log: seq<Entry>, n: nat)
    requires n <= |log|
    ensures StateAt(cfg, log, n).lastApplied == if n == 0 then None else Some(log[n - 1].logId)
  {
  }

  // ----- exactly once ----------------------------------------------------

  /** The request at position `i` already occurred earlier in the log. */
  ghost predicate IsRetry(log: seq<Entry>, i: nat)
    requires i < |log| && log[i].payload.Normal?
  {
    exists j :: 0 <= j < i && SameRequest(log, j, log[i].payload.command)
  }

  predicate SameRequest(log: seq<Entry>, j: nat, c: Command)
    requires j < |log|
  {
    && log[j].payload.Normal?
    && log[j].payload.command.client == c.client && log[j].payload.command.request == c.request
  }

  /**
   The accepted batches of the log, each request counted at its first
   occurrence only: a definition that does not mention the table.
   */
  ghost function Accepted(cfg: Config, log: seq<Entry>, n: nat): seq<Mutation>
    requires n <= |log|
  {
    if n == 0 then []
    else
      var before := Accepted(cfg, log, n - 1);
      if log[n - 1].payload.Normal? && !IsRetry(log, n - 1) && |before| < U64_MAX
         && Prepare(cfg, Batch(log[n - 1].payload.command)).Ok?
      then before + [Prepare(cfg, Batch(log[n - 1].payload.command)).value]
      else before
  }

  /** The response the log gives at position `i`. */
  function ResponseAt(cfg: Config, log: seq<Entry>, i: nat): Response
    requires i < |log|
  {
    PreparePayload(cfg, StateAt(cfg, log, i), log[i]).1
  }

  /** Position of the first occurrence of the request at `i`. */
  ghost predicate FirstOccurrence(log: seq<Entry>, j: nat, c: Command)
    requires j < |log|
  {
    SameRequest(log, j, c) && forall k :: 0 <= k < j ==> !SameRequest(log, k, c)
  }

  /** The table knows exactly the requests of the prefix, with the response of their first occurrence. */
  lemma {:induction false} TableMeaning(cfg: Config, log: seq<Entry>, n: nat, c: Command)
    requires n <= |log|
    ensures Lookup(StateAt(cfg, log, n).dedup, Identity(c)).None? <==>
      forall j :: 0 <= j < n ==> !SameRequest(log, j, c)
    ensures forall j :: 0 <= j < n && FirstOccurrence(log, j, c) ==>
      Lookup(StateAt(cfg, log, n).dedup, Identity(c)) == Some(ResponseAt(cfg, log, j))
  {
    if n > 0 {
      TableMeaning(cfg, log, n - 1, c);
      var core := StateAt(cfg, log, n - 1);
      if SameRequest(log, n - 1, c) {
        var d := log[n - 1].payload.command;
        assert Lookup(core.dedup, Identity(d)) == Lookup(core.dedup, Identity(c));
      }
    }
  }

  lemma RetryIsKnown(cfg: Config, log: seq<Entry>, i: nat)
    requires i < |log| && log[i].payload.Normal?
    ensures IsRetry(log, i) <==> Lookup(StateAt(cfg, log, i).dedup, Identity(log[i].payload.command)).Some?
  {
    TableMeaning(cfg, log, i, log[i].payload.command);
  }

  /** Every occurrence of a request gets the response of its first occurrence, rejections included. */
  lemma RetryGetsFirstResponse(cfg: Config, log: seq<Entry>, i: nat, j: nat)
    requires i < |log| && j <= i && log[i].payload.Normal? && FirstOccurrence(log, j, log[i].payload.command)
    ensures ResponseAt(cfg, log, i) == ResponseAt(cfg, log, j)
  {
    if j < i { TableMeaning(cfg, log, i, log[i].payload.command); }
  }

  /** A retry changes nothing but the position. */
  lemma RetryChangesNothing(cfg: Config, log: seq<Entry>, i: nat)
    requires i < |log| && log[i].payload.Normal? && IsRetry(log, i)
    ensures StateAt(cfg, log, i + 1) == StateAt(cfg, log, i).(lastApplied := Some(log[i].logId))
  {
    TableMeaning(cfg, log, i, log[i].payload.command);
  }

  /**
   The collection is the replay of the accepted batches, so its sequence number
   is the number of distinct accepted requests.
   */
  lemma {:induction false} ExactlyOnce(cfg: Config, log: seq<Entry>, n: nat)
    requires n <= |log|
    ensures StateAt(cfg, log, n).coll == At(Accepted(cfg, log, n), |Accepted(cfg, log, n)|)
    ensures StateAt(cfg, log, n).coll.sequence == |Accepted(cfg, log, n)|
  {
    if n > 0 {
      ExactlyOnce(cfg, log, n - 1);
      var before, after := Accepted(cfg, log, n - 1), Accepted(cfg, log, n);
      var entry := log[n - 1];
      if entry.payload.Normal? {
        RetryIsKnown(cfg, log, n - 1);
        if after != before {
          assert after[..|before|] == before;
          AtPrefix(before, after, |before|);
        }
      }
    }
  }

  lemma {:induction false} AcceptedGrows(cfg: Config, log: seq<Entry>, a: nat, b: nat)
    requires a <= b <= |log|
    ensures Accepted(cfg, log, a) <= Accepted(cfg, log, b)
    decreases b
  {
    if a < b { AcceptedGrows(cfg, log, a, b - 1); }
  }

  /** Two points of the log with the same collection sequence have the same collection. */
  lemma SequenceDeterminesCollection(cfg: Config, log: seq<Entry>, a: nat, b: nat)
    requires a <= |log| && b <= |log|
    requires StateAt(cfg, log, a).coll.sequence == StateAt(cfg, log, b).coll.sequence
    ensures StateAt(cfg, log, a).coll == StateAt(cfg, log, b).coll
  {
    ExactlyOnce(cfg, log, a);
    ExactlyOnce(cfg, log, b);
    if a <= b { AcceptedGrows(cfg, log, a, b); } else { AcceptedGrows(cfg, log, b, a); }
    assert Accepted(cfg, log, a) == Accepted(cfg, log, b);
  }

  // ----- what an entry does ----------------------------------------------

  /** What is wrong with a command, if anything, before the sequence is looked at. */
  ghost predicate Refused(cfg: Config, c: Command, e: Error) {
    match c
    case UpsertCommand(_, _, points) =>
      if points == [] then e == InvalidQuery else exists i: nat :: FirstDefect(cfg, points, i, e)
    case DeleteCommand(_, _, ids) => (ids == [] || "" in ids) && e == InvalidQuery
  }

  ghost predicate Acceptable(cfg: Config, c: Command) {
    match c
    case UpsertCommand(_, _, points) => points != [] && forall i :: 0 <= i < |points| ==> Defect(cfg, points[i]).None?
    case DeleteCommand(_, _, ids) => ids != [] && "" !in ids
  }

  lemma PrepareCommand(cfg: Config, c: Command)
    ensures Prepare(cfg, Batch(c)).Ok? <==> Acceptable(cfg, c)
    ensures Prepare(cfg, Batch(c)).Err? ==> Refused(cfg, c, Prepare(cfg, Batch(c)).error)
  {
    if c.UpsertCommand? { PrepareBatchDecides(cfg, c.points); }
  }

  /** The answer to a request that the log holds for the first time; `n` batches were accepted before it. */
  ghost predicate FirstAnswer(cfg: Config, n: nat, c: Command, r: Response) {
    if n >= 0xffff_ffff_ffff_ffff then r == Rejected(SequenceOverflow)
    else if Acceptable(cfg, c) then r == Applied(n + 1)
    else r.Rejected? && Refused(cfg, c, r.error)
  }

  /** The collection after a command that was applied as number `at`. */
  ghost predicate Performs(cfg: Config, c: Command, at: nat, before: Coll, after: Coll) {
    && after.sequence == at
    && match c
       case UpsertCommand(_, _, points) => Upserted(cfg, points, at, before.points, after.points)
       case DeleteCommand(_, _, ids) => Deleted(ids, before.points, after.points)
  }

  /** A command that the table does not know. */
  lemma FreshCommandMeans(cfg: Config, core: Core, entry: Entry)
    requires entry.payload.Normal? && Lookup(core.dedup, Identity(entry.payload.command)).None?
    ensures var c, r, after := entry.payload.command, PreparePayload(cfg, core, entry).1, ApplyEntry(cfg, core, entry);
      && FirstAnswer(cfg, core.coll.sequence, c, r)
      && (if r.Applied? then Performs(cfg, c, core.coll.sequence + 1, core.coll, after.coll)
          else after.coll == core.coll)
  {
    var c := entry.payload.command;
    PrepareCommand(cfg, c);
    if c.UpsertCommand? && PrepareBatch(cfg, c.points).Ok? {
      UpsertMeans(cfg, core.coll, c.points, core.coll.sequence + 1);
    }
  }

  /** A first request is answered and performed; anything else is answered and leaves the collection alone. */
  lemma EntryMeans(cfg: Config, log: seq<Entry>, i: nat)
    requires i < |log|
    ensures var n, r := |Accepted(cfg, log, i)|, ResponseAt(cfg, log, i);
      var before, after := StateAt(cfg, log, i).coll, StateAt(cfg, log, i + 1).coll;
      if log[i].payload.Normal? && !IsRetry(log, i) then
        && FirstAnswer(cfg, n, log[i].payload.command, r)
        && (if r.Applied? then Performs(cfg, log[i].payload.command, n + 1, before, after) else after == before)
      else after == before && (!log[i].payload.Normal? ==> r == Applied(n))
  {
    ExactlyOnce(cfg, log, i);
    if log[i].payload.Normal? {
      RetryIsKnown(cfg, log, i);
      if !IsRetry(log, i) { FreshCommandMeans(cfg, StateAt(cfg, log, i), log[i]); }
    }
  }

  /** Position `i` is the last membership change among the first `n` entries. */
  ghost predicate LastMembership(log: seq<Entry>, n: nat, i: nat) {
    && i < n <= |log| && log[i].payload.Membership?
    && forall j :: i < j < n ==> !log[j].payload.Membership?
  }

  /** The membership is that of the last change, with the position of that change. */
  lemma {:induction false} MembershipMeans(cfg: Config, log: seq<Entry>, n: nat)
    requires n <= |log|
    ensures forall i: nat :: LastMembership(log, n, i) ==>
      StateAt(cfg, log, n).membership == StoredMembership(Some(log[i].logId), log[i].payload.nodes)
    ensures (forall j :: 0 <= j < n ==> !log[j].payload.Membership?) ==>
      StateAt(cfg, log, n).membership == StoredMembership(None, {})
  {
    if n > 0 {
      MembershipMeans(cfg, log, n - 1);
      forall i: nat | LastMembership(log, n, i)
        ensures StateAt(cfg, log, n).membership == StoredMembership(Some(log[i].logId), log[i].payload.nodes)
      {
        if i < n - 1 { assert LastMembership(log, n - 1, i); }
      }
    }
  }
}
