/**
 The methods of `PersistentCollection` take their steps under the write lock;
 seen from outside, an uninterrupted publication is one run of the transition
 system, so what holds of careful runs holds of sequences of method calls.
 */
module PublishRuns {
  import opened Base
  import opened Collections
  import opened Durability
  import opened CrashSafety
  import opened PublishSafety
  import opened PersistentCollections

  lemma {:induction false} RetireRest(cfg: Config, s: System, rest: set<nat>) returns (run: seq<Step>)
    requires Up(s) && s.phase.Retiring?
    requires rest == {} || (s.phase.flush.segment.full && s.phase.previous.Some?)
    requires forall n :: n in rest ==> n in s.phase.previous.value.names && n != s.phase.flush.segment.sequence
    ensures Legal(cfg, s, run)
    ensures Run(cfg, s, run) == s.(disk := s.disk.(files := s.disk.files - rest), phase := Idle)
    decreases rest
  {
    if rest == {} {
      var done := Do(cfg, s, Release);
      assert Legal(cfg, done, []);
      Then(cfg, s, Release, []);
      run := [Release] + [];
      assert s.disk.files - rest == s.disk.files;
    } else {
      var n :| n in rest;
      var t := Do(cfg, s, Retire(n));
      var tail := RetireRest(cfg, t, rest - {n});
      Then(cfg, s, Retire(n), tail);
      run := [Retire(n)] + tail;
      assert t.disk.files - (rest - {n}) == s.disk.files - rest;
    }
  }

  lemma CommitRest(cfg: Config, s: System) returns (run: seq<Step>)
    requires Enabled(cfg, s, Commit)
    ensures Legal(cfg, s, run)
    ensures var seg, mem := s.phase.flush.segment, s.memory.value;
      Run(cfg, s, run) == s.(
        disk := s.disk.(files := s.disk.files - Retired(s.phase.previous, seg)),
        memory := Some(Memory(mem.coll, PushGraph(if seg.full then [] else mem.indexes, seg),
                              Some(s.phase.flush.metadata), if s.phase.Truncated? then {} else mem.dirty)),
        phase := Idle, base := seg.sequence)
  {
    var t := Do(cfg, s, Commit);
    var tail := RetireRest(cfg, t, Retired(s.phase.previous, s.phase.flush.segment));
    Then(cfg, s, Commit, tail);
    run := [Commit] + tail;
  }

  lemma SwappedRest(cfg: Config, s: System) returns (run: seq<Step>)
    requires Up(s) && s.phase.Swapped?
    ensures Legal(cfg, s, run)
    ensures var seg, mem := s.phase.flush.segment, s.memory.value;
      var caughtUp := mem.coll.sequence == seg.sequence;
      Run(cfg, s, run) == s.(
        disk := s.disk.(files := s.disk.files - Retired(s.phase.previous, seg),
                        wal := if caughtUp then [] else s.disk.wal),
        memory := Some(Memory(mem.coll, PushGraph(if seg.full then [] else mem.indexes, seg),
                              Some(s.phase.flush.metadata), if caughtUp then {} else mem.dirty)),
        walStart := if caughtUp then |s.history| else s.walStart,
        phase := Idle, base := seg.sequence)
  {
    if s.memory.value.coll.sequence == s.phase.flush.segment.sequence {
      var t := Do(cfg, s, Truncate);
      var tail := CommitRest(cfg, t);
      Then(cfg, s, Truncate, tail);
      run := [Truncate] + tail;
    } else {
      run := CommitRest(cfg, s);
    }
  }

  /** An uninterrupted safe `publish_flush` is a careful run. */
  lemma PublishedIsRun(cfg: Config, s: System, flush: Flush) returns (run: seq<Step>)
    requires Enabled(cfg, s, Rename(flush)) && SafeToPublish(s.disk.manifest, flush.segment)
    ensures Legal(cfg, s, run) && Run(cfg, s, run) == Published(s, flush)
  {
    var renamed := Do(cfg, s, Rename(flush));
    var swapped := Do(cfg, renamed, Swap);
    var tail := SwappedRest(cfg, swapped);
    Then(cfg, renamed, Swap, tail);
    Then(cfg, s, Rename(flush), [Swap] + tail);
    run := [Rename(flush)] + ([Swap] + tail);
  }

  /** Publishing changes no visible content and keeps the invariant. */
  lemma PublishingIsInvisible(cfg: Config, s: System, flush: Flush)
    requires Inv(cfg, s) && Enabled(cfg, s, Rename(flush))
    requires SafeToPublish(s.disk.manifest, flush.segment)
    ensures Inv(cfg, Published(s, flush))
    ensures Published(s, flush).memory.value.coll == s.memory.value.coll
  {
    var run := PublishedIsRun(cfg, s, flush);
    RunKeeps(cfg, s, run);
    assert FlushInv(s.history, s.disk.manifest, s.memory.value, flush);
    ReplaceIsInvisible(s.history, s.memory.value.coll.sequence, flush.segment.sequence, flush.segment.points);
  }
}
