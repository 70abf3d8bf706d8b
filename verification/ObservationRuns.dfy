/**
 Every run of polls: each event is delivered at most once whatever the replies are, exactly the owner's
 events are delivered when the replies are honest, and the recorded cursors form a chain.
 */
module ObservationRuns {
  import opened Basics
  import opened JsonValues
  import opened Observation

  /******* At most once *******/

  // The events of all accepted replies, as the owner sent them.
  function AllSent(o: Observed, reference: string, polls: seq<Poll>): seq<Event>
    decreases |polls|
  {
    if polls == [] then []
    else
      (if Accepted(o, reference, polls[0].reply) then polls[0].reply.events else [])
      + AllSent(After(o, reference, polls[0].cursor, polls[0].reply), reference, polls[1..])
  }

  // A run delivers what one big reply would.
  lemma {:induction false} RunDelivers(o: Observed, reference: string, polls: seq<Poll>)
    ensures AllDelivered(o, reference, polls) == Fresh(AllSent(o, reference, polls), o.eventIds)
    ensures RunPolls(o, reference, polls).eventIds == o.eventIds + EventIds(AllSent(o, reference, polls))
    decreases |polls|
  {
    if polls != [] {
      hide Accepted;
      var p := polls[0];
      var o' := After(o, reference, p.cursor, p.reply);
      var sent := if Accepted(o, reference, p.reply) then p.reply.events else [];
      RunDelivers(o', reference, polls[1..]);
      FreshConcat(sent, AllSent(o', reference, polls[1..]), o.eventIds);
      assert o'.eventIds == o.eventIds + EventIds(sent);
      assert Delivered(o, reference, p.reply) == Fresh(sent, o.eventIds);
    }
  }

  // Whatever the replies are: no event is delivered twice, none that was delivered before the run comes
  // again, and every event of an accepted reply is known afterwards.
  lemma AtMostOnce(o: Observed, reference: string, polls: seq<Poll>)
    ensures var d := AllDelivered(o, reference, polls);
      && (forall i, j :: 0 <= i < j < |d| ==> d[i].id != d[j].id)
      && (forall i :: 0 <= i < |d| ==> d[i].id !in o.eventIds && d[i] in AllSent(o, reference, polls))
      && RunPolls(o, reference, polls).eventIds == o.eventIds + EventIds(d)
  {
    RunDelivers(o, reference, polls);
    FreshOnce(AllSent(o, reference, polls), o.eventIds);
  }

  lemma {:induction false} RunConcat(o: Observed, reference: string, a: seq<Poll>, b: seq<Poll>)
    ensures var mid := RunPolls(o, reference, a);
      && RunPolls(o, reference, a + b) == RunPolls(mid, reference, b)
      && AllDelivered(o, reference, a + b) == AllDelivered(o, reference, a) + AllDelivered(mid, reference, b)
    decreases |a|
  {
    hide After, Delivered;
    if a == [] {
      assert a + b == b;
    } else {
      assert (a + b)[1..] == a[1..] + b;
      RunConcat(After(o, reference, a[0].cursor, a[0].reply), reference, a[1..], b);
    }
  }

  // What a client exports, imported into a new client, is the whole state of the old one.
  method Transfer(client: Client) returns (next: Client)
    ensures fresh(next) && next.state == client.state
  {
    var exported := client.Export();
    next := new Client(exported);
    assert forall k :: k in client.state ==> Imported(exported[k]) == client.state[k];
  }

  // A client that imports what another one exported after some polls goes on as that one would have: the two
  // deliver together what one client would, and no event twice.
  lemma Restart(o: Observed, reference: string, a: seq<Poll>, b: seq<Poll>, exported: Exported)
    requires Imported(exported) == RunPolls(o, reference, a)
    ensures var before, after := AllDelivered(o, reference, a), AllDelivered(Imported(exported), reference, b);
      && RunPolls(Imported(exported), reference, b) == RunPolls(o, reference, a + b)
      && before + after == AllDelivered(o, reference, a + b)
      && forall i, j :: 0 <= i < |before| && 0 <= j < |after| ==> before[i].id != after[j].id
  {
    hide Imported, RunPolls, AllDelivered;
    RunConcat(o, reference, a, b);
    AtMostOnce(o, reference, a + b);
    var before, after := AllDelivered(o, reference, a), AllDelivered(Imported(exported), reference, b);
    var all := AllDelivered(o, reference, a + b);
    forall i, j | 0 <= i < |before| && 0 <= j < |after| ensures before[i].id != after[j].id {
      assert all[i] == before[i] && all[|before| + j] == after[j];
    }
  }

  /******* Exactly the owner's events *******/

  // An append-only log with cursors that mark positions in it.  A run sees prefixes of the log it ends with.
  datatype Owner = Owner(log: seq<Event>, position: string -> nat)

  // The events first..m are known; the reply repeats known ones and adds the next ones, in order, up to q.
  predicate Covers(events: seq<Event>, log: seq<Event>, first: nat, m: nat, q: nat)
    requires first <= m <= |log|
    decreases |events|
  {
    if events == [] then m == q
    else
      || (events[0].id in EventIds(log[first..m]) && Covers(events[1..], log, first, m, q))
      || (m < |log| && events[0] == log[m] && Covers(events[1..], log, first, m + 1, q))
  }

  // An owner's answer to a poll from position p.
  predicate Honest(p: Poll, owner: Owner, first: nat) {
    && first <= owner.position(p.cursor) <= |owner.log| && p.reply.Answer?
    && owner.position(p.cursor) <= owner.position(p.reply.nextCursor) <= |owner.log|
    && Covers(p.reply.events, owner.log, first, owner.position(p.cursor), owner.position(p.reply.nextCursor))
  }

  // How far the accepted replies reach, from f on.
  function Frontier(o: Observed, reference: string, polls: seq<Poll>, owner: Owner, f: nat): nat
    decreases |polls|
  {
    if polls == [] then f
    else
      var p := polls[0];
      var f' := if Accepted(o, reference, p.reply) then Max(f, owner.position(p.reply.nextCursor)) else f;
      Frontier(After(o, reference, p.cursor, p.reply), reference, polls[1..], owner, f')
  }

  // Accepted replies are honest, and no poll starts beyond what has been observed.
  predicate HonestRun(o: Observed, reference: string, polls: seq<Poll>, owner: Owner, first: nat, f: nat)
    decreases |polls|
  {
    polls == [] ||
    (var p := polls[0];
     var o' := After(o, reference, p.cursor, p.reply);
     if Accepted(o, reference, p.reply) then
       && Honest(p, owner, first) && owner.position(p.cursor) <= f
       && HonestRun(o', reference, polls[1..], owner, first, Max(f, owner.position(p.reply.nextCursor)))
     else HonestRun(o', reference, polls[1..], owner, first, f))
  }

  lemma KnownUpTo(log: seq<Event>, first: nat, m: nat)
    requires first <= m < |log|
    ensures EventIds(log[first..m + 1]) == EventIds(log[first..m]) + {log[m].id}
  {
    assert log[first..m + 1] == log[first..m] + [log[m]];
    assert [log[m]][1..] == [];
    FreshConcat(log[first..m], [log[m]], {});
  }

  lemma KnownGrows(log: seq<Event>, first: nat, m: nat, f: nat)
    requires first <= m <= f <= |log|
    ensures EventIds(log[first..m]) <= EventIds(log[first..f])
  {
    assert log[first..f] == log[first..m] + log[m..f];
    FreshConcat(log[first..m], log[m..f], {});
  }

  lemma FreshUnfold(events: seq<Event>, seen: set<string>)
    ensures events == [] ==> Fresh(events, seen) == [] && EventIds(events) == {}
    ensures events != [] ==>
      && EventIds(events) == {events[0].id} + EventIds(events[1..])
      && Fresh(events, seen) ==
         if events[0].id in seen then Fresh(events[1..], seen) else [events[0]] + Fresh(events[1..], seen + {events[0].id})
  {
  }

  lemma {:induction false} CoversFresh(events: seq<Event>, log: seq<Event>, first: nat, m: nat, q: nat, f: nat)
    requires first <= m <= |log| && m <= f <= |log| && Covers(events, log, first, m, q)
    ensures m <= q <= |log|
    ensures var known := EventIds(log[first..f]);
      && Fresh(events, known) == Fresh(log[f..Max(f, q)], known)
      && known + EventIds(events) == EventIds(log[first..Max(f, q)])
    decreases |events|, 1
  {
    hide Fresh, EventIds;
    var known := EventIds(log[first..f]);
    FreshUnfold(events, known);
    if events == [] {
      assert log[f..f] == [];
    } else if events[0].id in EventIds(log[first..m]) && Covers(events[1..], log, first, m, q) {
      CoversFresh(events[1..], log, first, m, q, f);
      KnownGrows(log, first, m, f);
      assert known + EventIds(events) == known + EventIds(events[1..]);
    } else if m < f {
      CoversFresh(events[1..], log, first, m + 1, q, f);
      KnownUpTo(log, first, m);
      KnownGrows(log, first, m + 1, f);
      assert known + EventIds(events) == known + EventIds(events[1..]);
    } else {
      CoversNew(events, log, first, q, f);
    }
  }

  lemma {:induction false} CoversNew(events: seq<Event>, log: seq<Event>, first: nat, q: nat, f: nat)
    requires events != [] && first <= f < |log| && events[0] == log[f] && Covers(events[1..], log, first, f + 1, q)
    ensures f <= q <= |log|
    ensures var known := EventIds(log[first..f]);
      && Fresh(events, known) == Fresh(log[f..q], known)
      && known + EventIds(events) == EventIds(log[first..q])
    decreases |events|, 0
  {
    hide Fresh, EventIds;
    var known := EventIds(log[first..f]);
    CoversFresh(events[1..], log, first, f + 1, q, f + 1);
    KnownUpTo(log, first, f);
    assert log[f..q][1..] == log[f + 1..q];
    FreshUnfold(events, known);
    FreshUnfold(log[f..q], known);
    assert known + EventIds(events) == EventIds(log[first..f + 1]) + EventIds(events[1..]);
    assert events[0].id in known ==> known + {events[0].id} == known;
  }

  // A run that has observed first..f goes on to deliver exactly the new events up to where its accepted
  // replies reach.
  lemma {:induction false} DeliversExactly(
    o: Observed, reference: string, polls: seq<Poll>, owner: Owner, first: nat, f: nat)
    requires first <= f <= |owner.log| && o.eventIds == EventIds(owner.log[first..f])
    requires HonestRun(o, reference, polls, owner, first, f)
    ensures var m := Frontier(o, reference, polls, owner, f);
      && f <= m <= |owner.log|
      && AllDelivered(o, reference, polls) == Fresh(owner.log[f..m], o.eventIds)
      && RunPolls(o, reference, polls).eventIds == EventIds(owner.log[first..m])
    decreases |polls|
  {
    hide Accepted, Covers, Fresh, EventIds;
    if polls == [] {
      assert owner.log[f..f] == [];
      FreshNothing(o.eventIds);
    } else {
      var p, log := polls[0], owner.log;
      var o' := After(o, reference, p.cursor, p.reply);
      if Accepted(o, reference, p.reply) {
        var q := owner.position(p.reply.nextCursor);
        CoversFresh(p.reply.events, log, first, owner.position(p.cursor), q, f);
        var g := Max(f, q);
        DeliversExactly(o', reference, polls[1..], owner, first, g);
        var m := Frontier(o', reference, polls[1..], owner, g);
        FreshRange(log, first, f, g, m);
      } else {
        DeliversExactly(o', reference, polls[1..], owner, first, f);
        FreshPrefix(AllDelivered(o', reference, polls[1..]));
      }
    }
  }

  lemma FreshRange(log: seq<Event>, first: nat, f: nat, g: nat, m: nat)
    requires first <= f <= g <= m <= |log|
    ensures Fresh(log[f..m], EventIds(log[first..f])) ==
      Fresh(log[f..g], EventIds(log[first..f])) + Fresh(log[g..m], EventIds(log[first..g]))
  {
    assert log[f..m] == log[f..g] + log[g..m] && log[first..g] == log[first..f] + log[f..g];
    FreshConcat(log[f..g], log[g..m], EventIds(log[first..f]));
    FreshConcat(log[first..f], log[f..g], {});
  }

  lemma FreshNothing(seen: set<string>)
    ensures Fresh([], seen) == []
  {
  }

  lemma FreshPrefix(events: seq<Event>)
    ensures [] + events == events
  {
  }

  // When every poll passes the last recorded cursor, the frontier is that cursor's position.
  lemma {:induction false} ChainReaches(
    o: Observed, reference: string, polls: seq<Poll>, owner: Owner, first: nat, start: string)
    requires first <= owner.position(Chain(o, start)) <= |owner.log|
    requires Chained(o, reference, start, polls)
    requires forall i :: 0 <= i < |polls| && polls[i].reply.Answer? ==> Honest(polls[i], owner, first)
    ensures var f, t := owner.position(Chain(o, start)), RunPolls(o, reference, polls);
      && HonestRun(o, reference, polls, owner, first, f)
      && Frontier(o, reference, polls, owner, f) == owner.position(Chain(t, start))
    decreases |polls|
  {
    if polls != [] {
      hide Accepted, Covers;
      var p := polls[0];
      var o' := After(o, reference, p.cursor, p.reply);
      AnswersOnly(o, reference, p.reply);
      assert forall i :: 0 <= i < |polls[1..]| ==> polls[1..][i] == polls[i + 1];
      if Accepted(o, reference, p.reply) {
        assert Honest(p, owner, first);
        assert Chain(o', start) == p.reply.nextCursor;
      }
      ChainReaches(o', reference, polls[1..], owner, first, start);
    }
  }

  lemma AnswersOnly(o: Observed, reference: string, reply: Reply)
    ensures Accepted(o, reference, reply) ==> reply.Answer?
  {
  }

  // From nothing, against an honest owner, following the chain: the events between the first cursor and the
  // last one, each exactly once and in order.
  lemma FollowingDeliversTheLog(reference: string, start: string, polls: seq<Poll>, owner: Owner)
    requires owner.position(start) <= |owner.log|
    requires Chained(NOTHING, reference, start, polls)
    requires forall i :: 0 <= i < |polls| && polls[i].reply.Answer? ==> Honest(polls[i], owner, owner.position(start))
    requires forall i, j :: 0 <= i < j < |owner.log| ==> owner.log[i].id != owner.log[j].id
    ensures var first, m := owner.position(start), owner.position(Chain(RunPolls(NOTHING, reference, polls), start));
      first <= m <= |owner.log| && AllDelivered(NOTHING, reference, polls) == owner.log[first..m]
  {
    hide Honest, Accepted, Fresh, EventIds;
    var first := owner.position(start);
    ChainReaches(NOTHING, reference, polls, owner, first, start);
    assert owner.log[first..first] == [];
    NoEvents();
    DeliversExactly(NOTHING, reference, polls, owner, first, first);
    var m := owner.position(Chain(RunPolls(NOTHING, reference, polls), start));
    FreshAll(owner.log[first..m], {});
  }

  lemma NoEvents()
    ensures EventIds([]) == {}
  {
  }

  /******* The recorded cursors *******/

  // No two neighbours are equal.
  predicate Stepping(cursors: seq<string>) { forall i :: 0 <= i < |cursors| - 1 ==> cursors[i] != cursors[i + 1] }

  lemma AddCursorSteps(cursors: seq<string>, c: string)
    requires Stepping(cursors)
    ensures var r := AddCursor(cursors, c); Stepping(r) && r != [] && Last(r) == c && cursors <= r
  {
  }

  // Whatever cursors are passed and whatever is answered: recorded cursors stay, neighbours differ, and an
  // accepted poll leaves its next cursor at the end.
  lemma {:induction false} CursorsStep(o: Observed, reference: string, polls: seq<Poll>)
    requires Stepping(o.cursors)
    ensures var t := RunPolls(o, reference, polls); Stepping(t.cursors) && o.cursors <= t.cursors
    ensures polls != [] && Accepted(RunPolls(o, reference, polls[..|polls| - 1]), reference, polls[|polls| - 1].reply) ==>
      var t := RunPolls(o, reference, polls); t.cursors != [] && Last(t.cursors) == polls[|polls| - 1].reply.nextCursor
    decreases |polls|
  {
    hide RunPolls, Accepted, After, Stepping;
    if polls == [] {
      RunNothing(o, reference);
    } else {
      var front, p := polls[..|polls| - 1], polls[|polls| - 1];
      CursorsStep(o, reference, front);
      assert polls == front + [p];
      RunPollsSnoc(o, reference, front, p, "");
      PollSteps(RunPolls(o, reference, front), reference, p);
    }
  }

  lemma PollSteps(o: Observed, reference: string, p: Poll)
    requires Stepping(o.cursors)
    ensures var t := After(o, reference, p.cursor, p.reply);
      && Stepping(t.cursors) && o.cursors <= t.cursors
      && (Accepted(o, reference, p.reply) ==> t.cursors != [] && Last(t.cursors) == p.reply.nextCursor)
  {
    hide Stepping;
    if Accepted(o, reference, p.reply) {
      AddCursorSteps(o.cursors, p.cursor);
      AddCursorSteps(AddCursor(o.cursors, p.cursor), p.reply.nextCursor);
    }
  }

  // The caller passed the last recorded cursor, or a cursor not recorded before together with which the answer
  // is not the old end.
  predicate Forward(cursors: seq<string>, cursor: string, next: string) {
    || cursors == [] || cursor == Last(cursors)
    || (cursor !in cursors && (next == cursor || next !in cursors))
  }

  // One accepted poll keeps the recorded cursors pairwise distinct exactly when it goes forward.
  lemma DistinctStep(cursors: seq<string>, cursor: string, next: string)
    requires Distinct(cursors) && !Regresses(cursors, next)
    ensures Distinct(AddCursor(AddCursor(cursors, cursor), next)) <==> Forward(cursors, cursor, next)
  {
    var a := AddCursor(cursors, cursor);
    DistinctAdd(cursors, cursor);
    DistinctAdd(a, next);
  }

  lemma DistinctAdd(cursors: seq<string>, c: string)
    ensures Distinct(AddCursor(cursors, c)) <==>
      Distinct(cursors) && (cursors == [] || c == Last(cursors) || c !in cursors)
  {
    var r := AddCursor(cursors, c);
    if Distinct(r) {
      assert forall i :: 0 <= i < |cursors| ==> cursors[i] == r[i];
      if r != cursors {
        assert r[|cursors|] == c;
      }
    }
  }

  // Every accepted poll of a run goes forward from what was recorded when it was made.
  predicate AllForward(o: Observed, reference: string, polls: seq<Poll>)
    decreases |polls|
  {
    polls == [] ||
    (&& (Accepted(o, reference, polls[0].reply) ==> Forward(o.cursors, polls[0].cursor, polls[0].reply.nextCursor))
     && AllForward(After(o, reference, polls[0].cursor, polls[0].reply), reference, polls[1..]))
  }

  lemma {:induction false} CursorsKept(o: Observed, reference: string, polls: seq<Poll>)
    ensures o.cursors <= RunPolls(o, reference, polls).cursors
    decreases |polls|
  {
    if polls != [] {
      CursorsKept(After(o, reference, polls[0].cursor, polls[0].reply), reference, polls[1..]);
    }
  }

  // Over every run, whatever is passed and answered: the recorded cursors stay pairwise distinct exactly when every
  // accepted poll went forward.
  lemma {:induction false} RunDistinct(o: Observed, reference: string, polls: seq<Poll>)
    requires Distinct(o.cursors)
    ensures Distinct(RunPolls(o, reference, polls).cursors) <==> AllForward(o, reference, polls)
    decreases |polls|
  {
    if polls != [] {
      var p := polls[0];
      var next := After(o, reference, p.cursor, p.reply);
      if Accepted(o, reference, p.reply) {
        DistinctStep(o.cursors, p.cursor, p.reply.nextCursor);
      }
      hide Accepted, After, Forward;
      if Distinct(next.cursors) {
        RunDistinct(next, reference, polls[1..]);
      } else {
        var end := RunPolls(next, reference, polls[1..]).cursors;
        CursorsKept(next, reference, polls[1..]);
        var i, j :| 0 <= i < j < |next.cursors| && next.cursors[i] == next.cursors[j];
        assert end[i] == end[j];
      }
    }
  }

  // A run that follows the chain records a simple path.
  lemma {:induction false} ChainIsSimple(o: Observed, reference: string, start: string, polls: seq<Poll>)
    requires Distinct(o.cursors) && Chained(o, reference, start, polls)
    ensures Distinct(RunPolls(o, reference, polls).cursors)
    decreases |polls|
  {
    if polls != [] {
      var p := polls[0];
      if Accepted(o, reference, p.reply) {
        DistinctStep(o.cursors, p.cursor, p.reply.nextCursor);
      }
      ChainIsSimple(After(o, reference, p.cursor, p.reply), reference, start, polls[1..]);
    }
  }

  // A caller that polls an older cursor again records it twice.
  lemma OldCursorRepeats(reference: string)
    ensures var o := Observed({}, ["a", "b"]);
      Distinct(o.cursors) && !Distinct(After(o, reference, "a", Answer(reference, "c", [])).cursors)
  {
    var o := Observed({}, ["a", "b"]);
    assert Accepted(o, reference, Answer(reference, "c", []));
    DistinctStep(o.cursors, "a", "c");
    assert o.cursors[0] == "a";
  }
}
