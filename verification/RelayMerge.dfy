/** Relays answer a batch query concurrently; each reply is merged into one shared map
    under a lock. The result does not depend on how the goroutines interleave. */
module RelayMerge {
  import opened EventStore
  import opened StringOrder

  /** The transaction an event claims: its first x tag, "" when there is none. */
  function ClaimOf(e: Event): string {
    FirstOrEmpty(TagValues(e.tags, "x"))
  }

  predicate Claims(wanted: set<string>, e: Event, tx: string) {
    tx != "" && tx in wanted && ClaimOf(e) == tx
  }

  /** The later event wins, and of two equally late ones the one with the higher id. */
  predicate Beats(a: Event, b: Event) {
    a.createdAt > b.createdAt || (a.createdAt == b.createdAt && Less(b.id, a.id))
  }

  lemma BeatsIsStrictOrder(a: Event, b: Event, c: Event)
    ensures !Beats(a, a)
    ensures Beats(a, b) && Beats(b, c) ==> Beats(a, c)
    ensures a.id != b.id ==> Beats(a, b) || Beats(b, a)
  {
    Irreflexive(a.id);
    if Less(b.id, a.id) && Less(c.id, b.id) {
      Transitive(c.id, b.id, a.id);
    }
    if a.id != b.id {
      Total(a.id, b.id);
    }
  }

  /** `results` maps each wanted transaction claimed in `offered` to the greatest claim. */
  ghost predicate HoldsGreatest(wanted: set<string>, offered: set<Event>, results: map<string, Event>) {
    && (forall tx :: tx in results ==> IsGreatest(wanted, offered, tx, results[tx]))
    && (forall e, tx :: e in offered && Claims(wanted, e, tx) ==> tx in results)
  }

  ghost predicate IsGreatest(wanted: set<string>, offered: set<Event>, tx: string, best: Event) {
    best in offered && Claims(wanted, best, tx) && forall e :: e in offered && Claims(wanted, e, tx) ==> !Beats(e, best)
  }

  /** One locked section. */
  function Merge(wanted: set<string>, results: map<string, Event>, e: Event): map<string, Event> {
    var tx := ClaimOf(e);
    if tx == "" || tx !in wanted || (tx in results && !Beats(e, results[tx])) then results else results[tx := e]
  }

  lemma StaysGreatest(wanted: set<string>, offered: set<Event>, tx: string, best: Event, e: Event)
    requires IsGreatest(wanted, offered, tx, best)
    requires Claims(wanted, e, tx) ==> !Beats(e, best)
    ensures IsGreatest(wanted, offered + {e}, tx, best)
  {
  }

  lemma BecomesGreatest(wanted: set<string>, offered: set<Event>, tx: string, best: Event, e: Event)
    requires IsGreatest(wanted, offered, tx, best) && Claims(wanted, e, tx) && Beats(e, best)
    ensures IsGreatest(wanted, offered + {e}, tx, e)
  {
    forall x | x in offered + {e} && Claims(wanted, x, tx) ensures !Beats(x, e) {
      BeatsIsStrictOrder(x, e, best);
    }
  }

  lemma MergeKeepsGreatest(wanted: set<string>, offered: set<Event>, results: map<string, Event>, e: Event)
    requires HoldsGreatest(wanted, offered, results)
    ensures HoldsGreatest(wanted, offered + {e}, Merge(wanted, results, e))
  {
    hide Beats, Claims;
    var merged := Merge(wanted, results, e);
    forall tx | tx in merged ensures IsGreatest(wanted, offered + {e}, tx, merged[tx]) {
      MergedIsGreatest(wanted, offered, results, e, tx);
    }
    forall x, tx | x in offered + {e} && Claims(wanted, x, tx) ensures tx in merged {
      if x == e {
        ClaimIsMerged(wanted, results, e, tx);
      }
    }
  }

  lemma ClaimIsMerged(wanted: set<string>, results: map<string, Event>, e: Event, tx: string)
    requires Claims(wanted, e, tx)
    ensures tx in Merge(wanted, results, e)
  {
  }

  lemma KeptIsNotBeaten(wanted: set<string>, results: map<string, Event>, e: Event, tx: string)
    requires tx in results && Merge(wanted, results, e)[tx] == results[tx]
    ensures Claims(wanted, e, tx) ==> !Beats(e, results[tx])
  {
    BeatsIsStrictOrder(e, e, e);
  }

  lemma MergedIsGreatest(wanted: set<string>, offered: set<Event>, results: map<string, Event>, e: Event, tx: string)
    requires HoldsGreatest(wanted, offered, results) && tx in Merge(wanted, results, e)
    ensures IsGreatest(wanted, offered + {e}, tx, Merge(wanted, results, e)[tx])
  {
    hide Beats;
    if tx in results && Merge(wanted, results, e)[tx] == results[tx] {
      KeptIsNotBeaten(wanted, results, e, tx);
      StaysGreatest(wanted, offered, tx, results[tx], e);
    } else if tx in results {
      BecomesGreatest(wanted, offered, tx, results[tx], e);
    } else {
      forall x | x in offered + {e} && Claims(wanted, x, tx) ensures !Beats(x, e) {
        BeatsIsStrictOrder(e, e, e);
      }
    }
  }

  /** With ids that identify events there is one such map. */
  lemma GreatestIsUnique(wanted: set<string>, offered: set<Event>, a: map<string, Event>, b: map<string, Event>)
    requires HoldsGreatest(wanted, offered, a) && HoldsGreatest(wanted, offered, b)
    requires forall x, y :: x in offered && y in offered && x.id == y.id ==> x == y
    ensures a == b
  {
    hide Beats, Claims;
    forall tx ensures tx in a <==> tx in b
      ensures tx in a && tx in b ==> a[tx] == b[tx]
    {
      if tx in a {
        assert IsGreatest(wanted, offered, tx, a[tx]);
      }
      if tx in b {
        assert IsGreatest(wanted, offered, tx, b[tx]);
      }
      if tx in a && tx in b {
        BeatsIsStrictOrder(a[tx], b[tx], a[tx]);
      }
    }
  }

  // ----- interleavings -----

  /** Each relay's replies not yet merged, and the shared map. */
  datatype State = State(queues: seq<seq<Event>>, results: map<string, Event>)

  ghost function Remaining(queues: seq<seq<Event>>): set<Event> {
    set i, k | 0 <= i < |queues| && 0 <= k < |queues[i]| :: queues[i][k]
  }

  /** Goroutine i gets the lock and merges its next reply. */
  ghost predicate Step(wanted: set<string>, s: State, i: nat, s': State) {
    && i < |s.queues| && s.queues[i] != []
    && s' == State(s.queues[i := s.queues[i][1..]], Merge(wanted, s.results, s.queues[i][0]))
  }

  ghost predicate IsRun(wanted: set<string>, states: seq<State>, schedule: seq<nat>) {
    && |states| == |schedule| + 1
    && states[0].results == map[]
    && (forall n :: 0 <= n < |schedule| ==> Step(wanted, states[n], schedule[n], states[n + 1]))
  }

  ghost predicate Done(s: State) {
    forall i :: 0 <= i < |s.queues| ==> s.queues[i] == []
  }

  lemma TakeOne(queues: seq<seq<Event>>, i: nat)
    requires i < |queues| && queues[i] != []
    ensures Remaining(queues) == {queues[i][0]} + Remaining(queues[i := queues[i][1..]])
  {
    var rest := queues[i := queues[i][1..]];
    forall e | e in Remaining(queues) ensures e in {queues[i][0]} + Remaining(rest) {
      var j, k :| 0 <= j < |queues| && 0 <= k < |queues[j]| && queues[j][k] == e;
      if j != i {
        assert rest[j][k] == e;
      } else if k > 0 {
        assert rest[i][k - 1] == e;
      }
    }
    forall e | e in Remaining(rest) ensures e in Remaining(queues) {
      var j, k :| 0 <= j < |rest| && 0 <= k < |rest[j]| && rest[j][k] == e;
      if j == i {
        assert queues[i][k + 1] == e;
      } else {
        assert queues[j][k] == e;
      }
    }
  }

  /** At every moment the map holds the greatest claims among the replies merged so far. */
  lemma {:induction false} RunHoldsGreatest(wanted: set<string>, states: seq<State>, schedule: seq<nat>, n: nat) returns (offered: set<Event>)
    requires IsRun(wanted, states, schedule) && n < |states|
    ensures HoldsGreatest(wanted, offered, states[n].results)
    ensures offered + Remaining(states[n].queues) == Remaining(states[0].queues)
  {
    if n == 0 {
      offered := {};
    } else {
      var before := RunHoldsGreatest(wanted, states, schedule, n - 1);
      var s, i := states[n - 1], schedule[n - 1];
      assert Step(wanted, s, i, states[n - 1 + 1]);
      offered := before + {s.queues[i][0]};
      MergeKeepsGreatest(wanted, before, s.results, s.queues[i][0]);
      TakeOne(s.queues, i);
    }
  }

  /** However the goroutines interleave, the final map sends each wanted transaction that
      any reply claims to the greatest such reply, and has no other keys. */
  lemma FinalMapHoldsGreatest(wanted: set<string>, states: seq<State>, schedule: seq<nat>)
    requires IsRun(wanted, states, schedule) && Done(states[|schedule|])
    ensures HoldsGreatest(wanted, Remaining(states[0].queues), states[|schedule|].results)
  {
    var offered := RunHoldsGreatest(wanted, states, schedule, |schedule|);
    assert Remaining(states[|schedule|].queues) == {};
    assert offered == Remaining(states[0].queues);
  }

  /** In other words: for every wanted transaction that a reply names in its first x tag, the
      final map holds a reply that is later, or equally late with an id that is not lower. */
  lemma FinalMapHoldsLatest(wanted: set<string>, states: seq<State>, schedule: seq<nat>, e: Event, tx: string)
    requires IsRun(wanted, states, schedule) && Done(states[|schedule|])
    requires e in Remaining(states[0].queues) && tx in wanted && tx != "" && FirstTagged(e.tags, "x", tx)
    ensures var results := states[|schedule|].results;
      && tx in results && results[tx] in Remaining(states[0].queues)
      && (e.createdAt < results[tx].createdAt
          || (e.createdAt == results[tx].createdAt && (e.id == results[tx].id || Less(e.id, results[tx].id))))
  {
    var results := states[|schedule|].results;
    FinalMapHoldsGreatest(wanted, states, schedule);
    FirstAndLast(e.tags, "x", tx);
    assert Claims(wanted, e, tx);
    assert IsGreatest(wanted, Remaining(states[0].queues), tx, results[tx]);
    Total(e.id, results[tx].id);
  }

  /** Two schedules of the same replies end with the same map. */
  lemma SchedulesAgree(wanted: set<string>, states: seq<State>, schedule: seq<nat>, states': seq<State>, schedule': seq<nat>)
    requires IsRun(wanted, states, schedule) && Done(states[|schedule|])
    requires IsRun(wanted, states', schedule') && Done(states'[|schedule'|])
    requires Remaining(states[0].queues) == Remaining(states'[0].queues)
    requires forall x, y :: x in Remaining(states[0].queues) && y in Remaining(states[0].queues) && x.id == y.id ==> x == y
    ensures states[|schedule|].results == states'[|schedule'|].results
  {
    FinalMapHoldsGreatest(wanted, states, schedule);
    FinalMapHoldsGreatest(wanted, states', schedule');
    GreatestIsUnique(wanted, Remaining(states[0].queues), states[|schedule|].results, states'[|schedule'|].results);
  }

  // ----- the code -----

  class BatchQuery {
    const wanted: set<string>
    var results: map<string, Event>

    constructor (wanted: set<string>)
      ensures this.wanted == wanted && results == map[]
    {
      this.wanted, results := wanted, map[];
    }

    /** What a goroutine does with one reply. */
    method MergeReply(e: Event)
      modifies this`results
      ensures results == Merge(wanted, old(results), e)
    {
      var tx := FirstTag(e.tags, "x");
      if tx == "" {
        return;
      }
      if tx in wanted {
        if tx !in results {
          results := results[tx := e];
        } else {
          var existing := results[tx];
          if e.createdAt > existing.createdAt {
            results := results[tx := e];
          } else if e.createdAt == existing.createdAt && Less(existing.id, e.id) {
            results := results[tx := e];
          }
        }
      }
    }

    /** All goroutines, in whatever order they get the lock. */
    method FindAnchorEventsForTransactionsBatch(replies: seq<seq<Event>>)
      requires results == map[]
      modifies this`results
      ensures HoldsGreatest(wanted, Remaining(replies), results)
    {
      var queues := replies;
      ghost var offered: set<Event> := {};
      while exists i :: 0 <= i < |queues| && queues[i] != []
        invariant |queues| == |replies|
        invariant offered + Remaining(queues) == Remaining(replies)
        invariant HoldsGreatest(wanted, offered, results)
        decreases Pending(queues)
      {
        var i: nat :| i < |queues| && queues[i] != [];
        TakeOne(queues, i);
        PendingFalls(queues, i);
        MergeKeepsGreatest(wanted, offered, results, queues[i][0]);
        MergeReply(queues[i][0]);
        offered := offered + {queues[i][0]};
        queues := queues[i := queues[i][1..]];
      }
      assert Remaining(queues) == {};
      assert offered == Remaining(replies);
    }
  }

  ghost function Pending(queues: seq<seq<Event>>): nat {
    if queues == [] then 0 else |queues[0]| + Pending(queues[1..])
  }

  lemma {:induction false} PendingFalls(queues: seq<seq<Event>>, i: nat)
    requires i < |queues| && queues[i] != []
    ensures Pending(queues[i := queues[i][1..]]) < Pending(queues)
  {
    var rest := queues[i := queues[i][1..]];
    if i == 0 {
      assert rest[1..] == queues[1..];
    } else {
      PendingFalls(queues[1..], i - 1);
      assert rest[1..] == queues[1..][i - 1 := queues[i][1..]];
    }
  }
}
