/**
 The durable Raft log: an append-only journal of log-store operations over a
 checkpoint. Purging writes a new checkpoint and then empties the journal; a
 crash in between leaves a journal that the checkpoint already contains, and
 replaying it must change nothing.
 */
module RaftLog {
  import opened Base

  datatype LogId = LogId(term: nat, leader: nat, index: nat)
  datatype Vote = Vote(term: nat, node: nat, committed: bool)
  datatype Entry = Entry(logId: LogId, payload: string)

  datatype Record =
    | SaveVote(vote: Vote)
    | SaveCommitted(committed: Option<LogId>)
    | Append(entries: seq<Entry>)
    | Truncate(from: LogId)
    | Purge(upTo: LogId)

  datatype State = State(
    vote: Option<Vote>, committed: Option<LogId>, lastPurged: Option<LogId>, entries: map<nat, Entry>)

  const DEFAULT := State(None, None, None, map[])

  function PutEntries(log: map<nat, Entry>, entries: seq<Entry>): map<nat, Entry>
    decreases |entries|
  {
    if entries == [] then log
    else
      var last := entries[|entries| - 1];
      PutEntries(log, entries[..|entries| - 1])[last.logId.index := last]
  }

  /** `JournalState::apply`. */
  function ApplyRecord(s: State, r: Record): State {
    match r
    case SaveVote(vote) => s.(vote := Some(vote))
    case SaveCommitted(committed) => s.(committed := committed)
    case Append(entries) => s.(entries := PutEntries(s.entries, entries))
    case Truncate(from) => s.(entries := map i | i in s.entries && i < from.index :: s.entries[i])
    case Purge(upTo) =>
      s.(lastPurged := Some(upTo), entries := map i | i in s.entries && i >= upTo.index + 1 :: s.entries[i])
  }

  function Replay(s: State, records: seq<Record>): State
    decreases |records|
  {
    if records == [] then s
    else ApplyRecord(Replay(s, records[..|records| - 1]), records[|records| - 1])
  }

  // ----- replaying twice -------------------------------------------------

  /** What a record does to one part of the state: nothing, or the same whatever was there. */
  datatype Effect<T> = Keep | Set(value: T)

  function Then<T>(first: Effect<T>, second: Effect<T>): Effect<T> {
    if second.Keep? then first else second
  }

  function ResultOf<T>(effect: Effect<T>, was: T): T {
    if effect.Keep? then was else effect.value
  }

  function VoteEffect(r: Record): Effect<Option<Vote>> {
    if r.SaveVote? then Set(Some(r.vote)) else Keep
  }

  function CommittedEffect(r: Record): Effect<Option<LogId>> {
    if r.SaveCommitted? then Set(r.committed) else Keep
  }

  function PurgedEffect(r: Record): Effect<Option<LogId>> {
    if r.Purge? then Set(Some(r.upTo)) else Keep
  }

  function LastAt(entries: seq<Entry>, i: nat): Effect<Option<Entry>>
    decreases |entries|
  {
    if entries == [] then Keep
    else if entries[|entries| - 1].logId.index == i then Set(Some(entries[|entries| - 1]))
    else LastAt(entries[..|entries| - 1], i)
  }

  /** The effect on the log slot `i`. */
  function SlotEffect(r: Record, i: nat): Effect<Option<Entry>> {
    match r
    case Append(entries) => LastAt(entries, i)
    case Truncate(from) => if i < from.index then Keep else Set(None)
    case Purge(upTo) => if i >= upTo.index + 1 then Keep else Set(None)
    case _ => Keep
  }

  function Slot(log: map<nat, Entry>, i: nat): Option<Entry> {
    if i in log then Some(log[i]) else None
  }

  lemma {:induction false} PutEntriesSlot(log: map<nat, Entry>, entries: seq<Entry>, i: nat)
    ensures Slot(PutEntries(log, entries), i) == ResultOf(LastAt(entries, i), Slot(log, i))
    decreases |entries|
  {
    if entries != [] { PutEntriesSlot(log, entries[..|entries| - 1], i); }
  }

  lemma RecordSlot(s: State, r: Record, i: nat)
    ensures Slot(ApplyRecord(s, r).entries, i) == ResultOf(SlotEffect(r, i), Slot(s.entries, i))
  {
    if r.Append? { PutEntriesSlot(s.entries, r.entries, i); }
  }

  datatype Effects = Effects(
    vote: Effect<Option<Vote>>, committed: Effect<Option<LogId>>, purged: Effect<Option<LogId>>)

  /** The combined effect of a journal on the three scalar parts. */
  function ScalarEffects(records: seq<Record>): Effects
    decreases |records|
  {
    if records == [] then Effects(Keep, Keep, Keep)
    else
      var before, r := ScalarEffects(records[..|records| - 1]), records[|records| - 1];
      Effects(Then(before.vote, VoteEffect(r)), Then(before.committed, CommittedEffect(r)),
              Then(before.purged, PurgedEffect(r)))
  }

  function JournalSlotEffect(records: seq<Record>, i: nat): Effect<Option<Entry>>
    decreases |records|
  {
    if records == [] then Keep
    else Then(JournalSlotEffect(records[..|records| - 1], i), SlotEffect(records[|records| - 1], i))
  }

  lemma {:induction false} ReplayScalars(s: State, records: seq<Record>)
    ensures var t, e := Replay(s, records), ScalarEffects(records);
      && t.vote == ResultOf(e.vote, s.vote)
      && t.committed == ResultOf(e.committed, s.committed)
      && t.lastPurged == ResultOf(e.purged, s.lastPurged)
    decreases |records|
  {
    if records != [] { ReplayScalars(s, records[..|records| - 1]); }
  }

  lemma {:induction false} ReplaySlot(s: State, records: seq<Record>, i: nat)
    ensures Slot(Replay(s, records).entries, i) == ResultOf(JournalSlotEffect(records, i), Slot(s.entries, i))
    decreases |records|
  {
    if records != [] {
      var init := records[..|records| - 1];
      ReplaySlot(s, init, i);
      RecordSlot(Replay(s, init), records[|records| - 1], i);
    }
  }

  /** Replaying any journal over the state it already produced changes nothing. */
  lemma ReplayIsIdempotent(s: State, records: seq<Record>)
    ensures Replay(Replay(s, records), records) == Replay(s, records)
  {
    var once := Replay(s, records);
    var twice := Replay(once, records);
    ReplayScalars(s, records);
    ReplayScalars(once, records);
    forall i ensures Slot(once.entries, i) == Slot(twice.entries, i) {
      ReplaySlot(s, records, i);
      ReplaySlot(once, records, i);
    }
    SlotsDecide(once.entries, twice.entries);
  }

  lemma SlotsDecide(a: map<nat, Entry>, b: map<nat, Entry>)
    requires forall i :: Slot(a, i) == Slot(b, i)
    ensures a == b
  {
    forall i ensures i in a <==> i in b { assert Slot(a, i) == Slot(b, i); }
    forall i | i in a ensures a[i] == b[i] { assert Slot(a, i) == Slot(b, i); }
  }

  // ----- what a journal means --------------------------------------------

  /** The record decides what log position `i` holds. */
  ghost predicate Decides(r: Record, i: nat) {
    match r
    case Append(entries) => exists k :: 0 <= k < |entries| && entries[k].logId.index == i
    case Truncate(from) => i >= from.index
    case Purge(upTo) => i <= upTo.index
    case _ => false
  }

  /** An append leaves its last entry for the position; a truncation or a purge leaves nothing. */
  ghost predicate Leaves(r: Record, i: nat, e: Option<Entry>) {
    if r.Append? then e.Some? && e.value.logId.index == i && LastFor(r.entries, i, e.value) else e.None?
  }

  ghost predicate LastFor(entries: seq<Entry>, i: nat, e: Entry) {
    exists k: nat :: LastPlace(entries, i, e, k)
  }

  ghost predicate LastPlace(entries: seq<Entry>, i: nat, e: Entry, k: nat) {
    k < |entries| && entries[k] == e && forall j :: k < j < |entries| ==> entries[j].logId.index != i
  }

  lemma DecidesNext(entries: seq<Entry>, n: nat, i: nat)
    requires |entries| == n + 1
    ensures Decides(Append(entries), i) <==> Decides(Append(entries[..n]), i) || entries[n].logId.index == i
  {
    if k :| 0 <= k < n && entries[k].logId.index == i { assert entries[..n][k] == entries[k]; }
    if k :| 0 <= k < n && entries[..n][k].logId.index == i { assert entries[k] == entries[..n][k]; }
  }

  lemma LastForNext(entries: seq<Entry>, n: nat, i: nat, e: Entry)
    requires |entries| == n + 1 && LastFor(entries[..n], i, e) && entries[n].logId.index != i
    ensures LastFor(entries, i, e)
  {
    var init := entries[..n];
    var k: nat :| LastPlace(init, i, e, k);
    forall j | k < j <= n ensures entries[j].logId.index != i {
      assert j < n ==> entries[j] == init[j];
    }
    assert LastPlace(entries, i, e, k);
  }

  lemma {:induction false} PutEntriesMeans(log: map<nat, Entry>, entries: seq<Entry>, i: nat)
    ensures var e := Slot(PutEntries(log, entries), i);
      if Decides(Append(entries), i) then Leaves(Append(entries), i, e) else e == Slot(log, i)
    decreases |entries|
  {
    if entries != [] {
      var n := |entries| - 1;
      PutEntriesMeans(log, entries[..n], i);
      DecidesNext(entries, n, i);
      if entries[n].logId.index == i {
        assert LastPlace(entries, i, entries[n], n);
      } else if Decides(Append(entries[..n]), i) {
        LastForNext(entries, n, i, Slot(PutEntries(log, entries[..n]), i).value);
      }
    }
  }

  /** One record: the part it is about changes as it says, and nothing else does. */
  ghost predicate Applies(before: State, r: Record, after: State) {
    && after.vote == (if r.SaveVote? then Some(r.vote) else before.vote)
    && after.committed == (if r.SaveCommitted? then r.committed else before.committed)
    && after.lastPurged == (if r.Purge? then Some(r.upTo) else before.lastPurged)
    && forall i: nat {:trigger Slot(after.entries, i)} ::
         if Decides(r, i) then Leaves(r, i, Slot(after.entries, i))
         else Slot(after.entries, i) == Slot(before.entries, i)
  }

  lemma RecordMeans(s: State, r: Record)
    ensures Applies(s, r, ApplyRecord(s, r))
  {
    if r.Append? {
      forall i: nat ensures var e := Slot(ApplyRecord(s, r).entries, i);
        if Decides(r, i) then Leaves(r, i, e) else e == Slot(s.entries, i)
      {
        PutEntriesMeans(s.entries, r.entries, i);
      }
    }
  }

  /** Record `k` is the last one of the journal that decides about position `i`. */
  ghost predicate LastDecision(records: seq<Record>, k: nat, i: nat) {
    k < |records| && Decides(records[k], i) && forall j :: k < j < |records| ==> !Decides(records[j], i)
  }

  /** A log position holds what the last record that decides about it left there. */
  lemma {:induction false} JournalMeans(s: State, records: seq<Record>, i: nat)
    ensures var e := Slot(Replay(s, records).entries, i);
      && ((forall k :: 0 <= k < |records| ==> !Decides(records[k], i)) ==> e == Slot(s.entries, i))
      && (forall k: nat :: LastDecision(records, k, i) ==> Leaves(records[k], i, e))
    decreases |records|
  {
    if records != [] {
      var n := |records| - 1;
      var init := records[..n];
      JournalMeans(s, init, i);
      RecordMeans(Replay(s, init), records[n]);
      assert forall j :: 0 <= j < n ==> init[j] == records[j];
      forall k: nat | LastDecision(records, k, i) ensures Leaves(records[k], i, Slot(Replay(s, records).entries, i)) {
        if k < n {
          assert LastDecision(init, k, i);
        }
      }
    }
  }

  /** The vote, the committed position and the purged position are those of the last record of their kind. */
  lemma {:induction false} ScalarsMean(s: State, records: seq<Record>, k: nat)
    requires k < |records|
    ensures var r, t := records[k], Replay(s, records);
      && (r.SaveVote? && (forall j :: k < j < |records| ==> !records[j].SaveVote?) ==> t.vote == Some(r.vote))
      && (r.SaveCommitted? && (forall j :: k < j < |records| ==> !records[j].SaveCommitted?) ==>
            t.committed == r.committed)
      && (r.Purge? && (forall j :: k < j < |records| ==> !records[j].Purge?) ==> t.lastPurged == Some(r.upTo))
    decreases |records|
  {
    var n := |records| - 1;
    if k < n {
      var init := records[..n];
      ScalarsMean(s, init, k);
      assert forall j :: 0 <= j < n ==> init[j] == records[j];
    }
  }

  // ----- the store as a transition system --------------------------------

  datatype Disk = Disk(checkpoint: Option<State>, journal: seq<Record>)

  /** `DurableRaftLog::open`. */
  function Recover(disk: Disk): State {
    Replay(if disk.checkpoint.None? then DEFAULT else disk.checkpoint.value, disk.journal)
  }

  /** The holder of the mutex is between two durable actions of `write_record`. */
  datatype Phase = Ready | Journaled(record: Record) | Applied | Checkpointed

  /** `history` lists the records completely in the journal or in a checkpoint. */
  datatype System = System(disk: Disk, memory: Option<State>, phase: Phase, history: seq<Record>, acked: nat)

  const FRESH := System(Disk(None, []), Some(DEFAULT), Ready, [], 0)

  datatype Step =
    | Write(record: Record)   // append_record reached stable storage
    | Undo                    // the append failed and was cut off
    | Apply                   // state.apply; anything but a purge is acknowledged
    | Checkpoint              // the checkpoint file was replaced
    | Empty                   // the journal was truncated and the purge acknowledged
    | Fail                    // an I/O error after the record was applied
    | Crash
    | Reopen

  predicate Enabled(s: System, step: Step) {
    match step
    case Write(_) => s.memory.Some? && s.phase.Ready?
    case Undo => s.memory.Some? && s.phase.Journaled? && s.history != [] && s.disk.journal != []
    case Apply => s.memory.Some? && s.phase.Journaled?
    case Checkpoint => s.memory.Some? && s.phase.Applied?
    case Empty => s.memory.Some? && s.phase.Checkpointed?
    case Fail => s.memory.Some? && (s.phase.Applied? || s.phase.Checkpointed?)
    case Crash => true
    case Reopen => s.memory.None?
  }

  function Do(s: System, step: Step): System
    requires Enabled(s, step)
  {
    match step
    case Write(r) =>
      s.(disk := s.disk.(journal := s.disk.journal + [r]), history := s.history + [r], phase := Journaled(r))
    case Undo =>
      s.(disk := s.disk.(journal := s.disk.journal[..|s.disk.journal| - 1]),
         history := s.history[..|s.history| - 1], phase := Ready)
    case Apply =>
      var r := s.phase.record;
      s.(memory := Some(ApplyRecord(s.memory.value, r)),
         phase := if r.Purge? then Applied else Ready, acked := if r.Purge? then s.acked else |s.history|)
    case Checkpoint => s.(disk := s.disk.(checkpoint := s.memory), phase := Checkpointed)
    case Empty => s.(disk := s.disk.(journal := []), phase := Ready, acked := |s.history|)
    case Fail => s.(phase := Ready, acked := |s.history|)
    case Crash => s.(memory := None, phase := Ready)
    case Reopen => s.(memory := Some(Recover(s.disk)), acked := |s.history|)
  }

  predicate Legal(s: System, run: seq<Step>)
    decreases |run|
  {
    run == [] || (Enabled(s, run[0]) && Legal(Do(s, run[0]), run[1..]))
  }

  function Run(s: System, run: seq<Step>): System
    requires Legal(s, run)
    decreases |run|
  {
    if run == [] then s else Run(Do(s, run[0]), run[1..])
  }

  ghost predicate Inv(s: System) {
    && Recover(s.disk) == Replay(DEFAULT, s.history)
    && s.acked <= |s.history| <= s.acked + 1
    && (s.memory.None? ==> s.phase.Ready?)
    && (s.memory.Some? ==>
          match s.phase
          case Ready => s.memory.value == Replay(DEFAULT, s.history) && s.acked == |s.history|
          case Journaled(r) =>
            && s.acked + 1 == |s.history| && s.history[s.acked] == r
            && s.memory.value == Replay(DEFAULT, s.history[..s.acked])
            && s.disk.journal != [] && s.disk.journal[|s.disk.journal| - 1] == r
            && Recover(s.disk.(journal := s.disk.journal[..|s.disk.journal| - 1])) == s.memory.value
          case Applied => s.memory.value == Replay(DEFAULT, s.history)
          case Checkpointed =>
            && s.memory.value == Replay(DEFAULT, s.history)
            && s.disk.checkpoint == s.memory)
  }

  lemma StepKeeps(s: System, step: Step)
    requires Inv(s) && Enabled(s, step)
    ensures Inv(Do(s, step))
  {
    match step
    case Write(r) =>
      assert (s.history + [r])[..|s.history|] == s.history;
      assert (s.disk.journal + [r])[..|s.disk.journal|] == s.disk.journal;
    case Checkpoint =>
      var start := if s.disk.checkpoint.None? then DEFAULT else s.disk.checkpoint.value;
      ReplayIsIdempotent(start, s.disk.journal);
    case _ =>
  }

  /**
   After any run, with crashes between any two durable actions, reopening yields
   exactly the replay of the acknowledged records and at most one more, and a
   running store holds that state in memory.
   */
  lemma {:induction false} RecoversAcknowledged(s: System, run: seq<Step>)
    requires Inv(s) && Legal(s, run)
    ensures var t := Run(s, run);
      && Inv(t)
      && Recover(t.disk) == Replay(DEFAULT, t.history)
      && t.acked <= |t.history| <= t.acked + 1
      && s.acked <= t.acked && t.history[..s.acked] == s.history[..s.acked]
    decreases |run|
  {
    if run != [] {
      var mid := Do(s, run[0]);
      StepKeeps(s, run[0]);
      assert s.acked <= mid.acked && mid.history[..s.acked] == s.history[..s.acked];
      RecoversAcknowledged(mid, run[1..]);
      var t := Run(s, run);
      assert t.history[..s.acked] == t.history[..mid.acked][..s.acked];
      assert mid.history[..s.acked] == mid.history[..mid.acked][..s.acked];
    }
  }

  lemma FreshIsSound()
    ensures Inv(FRESH)
  {
  }

  // ----- an append that cannot be cut off --------------------------------

  /** The append of `r` reached the journal, was reported as failed and could not be cut off. */
  function Stranded(s: System, r: Record): System
    requires Enabled(s, Write(r))
  {
    Do(s, Write(r)).(history := s.history, phase := Ready)
  }

  /**
   After a further acknowledged record, reopening gives the running state if and only if that record
   hides whatever the stranded one did.
   */
  lemma StrandedRecordIsHarmlessIff(s: System, stranded: Record, r: Record)
    requires Inv(s) && Enabled(s, Write(stranded)) && !r.Purge?
    ensures var t := Do(Do(Stranded(s, stranded), Write(r)), Apply);
      var was := s.memory.value;
      && t.acked == s.acked + 1 && t.memory == Some(ApplyRecord(was, r))
      && Recover(t.disk) == ApplyRecord(ApplyRecord(was, stranded), r)
      && (Recover(t.disk) == t.memory.value <==>
            ApplyRecord(ApplyRecord(was, stranded), r) == ApplyRecord(was, r))
  {
    var start := if s.disk.checkpoint.None? then DEFAULT else s.disk.checkpoint.value;
    ReplayAppend(start, s.disk.journal, stranded);
    ReplayAppend(start, s.disk.journal + [stranded], r);
  }

  lemma ReplayAppend(s: State, records: seq<Record>, r: Record)
    ensures Replay(s, records + [r]) == ApplyRecord(Replay(s, records), r)
  {
    assert (records + [r])[..|records|] == records;
  }

  /** A vote that was reported as failed comes back when another kind of record follows. */
  lemma StrandedVoteReturns(vote: Vote, committed: Option<LogId>)
    ensures var t := Do(Do(Stranded(FRESH, SaveVote(vote)), Write(SaveCommitted(committed))), Apply);
      t.memory.value.vote == None && Recover(t.disk).vote == Some(vote)
  {
    FreshIsSound();
    StrandedRecordIsHarmlessIff(FRESH, SaveVote(vote), SaveCommitted(committed));
  }

  // ----- the object ------------------------------------------------------

  class DurableRaftLog {
    var disk: Disk
    var vote: Option<Vote>
    var committed: Option<LogId>
    var lastPurged: Option<LogId>
    var entries: map<nat, Entry>
    ghost var system: System

    ghost function View(): State
      reads this
    {
      State(vote, committed, lastPurged, entries)
    }

    ghost predicate Valid()
      reads this
    {
      system.disk == disk && system.phase.Ready? && system.memory == Some(View())
    }

    /** `JournalState::apply`, in place. */
    method ApplyInPlace(r: Record)
      modifies this`vote, this`committed, this`lastPurged, this`entries
      ensures View() == ApplyRecord(old(View()), r)
      ensures Applies(old(View()), r, View())
    {
      RecordMeans(View(), r);
      match r
      case SaveVote(v) => vote := Some(v);
      case SaveCommitted(c) => committed := c;
      case Append(batch) =>
        for n := 0 to |batch|
          invariant vote == old(vote) && committed == old(committed) && lastPurged == old(lastPurged)
          invariant entries == PutEntries(old(entries), batch[..n])
        {
          assert batch[..n + 1][..n] == batch[..n];
          entries := entries[batch[n].logId.index := batch[n]];
        }
        assert batch[..|batch|] == batch;
      case Truncate(from) =>
        entries := map i | i in entries && i < from.index :: entries[i];
      case Purge(upTo) =>
        lastPurged := Some(upTo);
        entries := map i | i in entries && i >= upTo.index + 1 :: entries[i];
    }

    /** `open`: the checkpoint, then every record of the journal on top of it. */
    constructor Open(disk: Disk, ghost down: System)
      requires down.memory.None? && down.phase.Ready? && down.disk == disk
      ensures Valid() && system == Do(down, Reopen) && View() == Recover(disk)
    {
      var start := if disk.checkpoint.None? then DEFAULT else disk.checkpoint.value;
      this.disk := disk;
      vote, committed := start.vote, start.committed;
      lastPurged, entries := start.lastPurged, start.entries;
      system := Do(down, Reopen);
      new;
      for n := 0 to |disk.journal|
        invariant this.disk == disk && system == Do(down, Reopen)
        invariant View() == Replay(start, disk.journal[..n])
      {
        assert disk.journal[..n + 1][..n] == disk.journal[..n];
        ApplyInPlace(disk.journal[n]);
      }
      assert disk.journal[..|disk.journal|] == disk.journal;
    }

    /** `write_record`: journal, apply, and for a purge checkpoint and empty the journal. */
    method WriteRecord(r: Record)
      requires Valid()
      modifies this
      ensures Valid()
      ensures !r.Purge? ==> Legal(old(system), [Write(r), Apply]) && system == Run(old(system), [Write(r), Apply])
      ensures r.Purge? ==> Legal(old(system), [Write(r), Apply, Checkpoint, Empty])
      ensures r.Purge? ==> system == Run(old(system), [Write(r), Apply, Checkpoint, Empty])
      ensures Applies(old(View()), r, View())
      ensures !r.Purge? ==> disk == Disk(old(disk).checkpoint, old(disk).journal + [r])
      ensures r.Purge? ==> disk == Disk(Some(View()), [])
    {
      ghost var before := system;
      disk := disk.(journal := disk.journal + [r]);
      ApplyInPlace(r);
      ghost var applied := Do(Do(before, Write(r)), Apply);
      if r.Purge? {
        disk := disk.(checkpoint := Some(State(vote, committed, lastPurged, entries)));
        disk := disk.(journal := []);
        system := Do(Do(applied, Checkpoint), Empty);
        assert Run(applied, [Checkpoint, Empty]) == system by {
          assert [Checkpoint, Empty][1..] == [Empty] && [Empty][1..] == [];
        }
        assert [Write(r), Apply, Checkpoint, Empty][1..] == [Apply, Checkpoint, Empty];
        assert [Apply, Checkpoint, Empty][1..] == [Checkpoint, Empty];
      } else {
        system := applied;
        assert [Write(r), Apply][1..] == [Apply] && [Apply][1..] == [];
      }
    }
  }
}
