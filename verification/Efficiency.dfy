/**
 The failure part of the browser efficiency report: failing events and in-scope failure
 experiences tallied per agent, most failures first.
 */
module Efficiency {
  import opened Sequences
  import opened StableSort
  import opened EventFeed
  import Experiences

  const WEEK_MS: int := 7 * 24 * 60 * 60 * 1000

  /** The report's scope; `parsed` is what `Date.parse` makes of an experience's time (None for NaN). */
  datatype Scope = Scope(weekly: bool, projectId: string, now: int, parsed: Experiences.Experience -> Option<int>)

  function AgentOr(name: string): string { if name == "" then "unknown" else name }

  function EventAgent(e: Event): string { AgentOr(e.from) }

  function ExperienceAgent(x: Experiences.Experience): string { AgentOr(x.agent) }

  predicate IsFailingEvent(e: Event) { Contains(e.subject, "task.failed") || e.state == "error" }

  function IsFailure(scope: Scope): Experiences.Experience -> bool {
    (x: Experiences.Experience) =>
      && x.outcome == "failure"
      && (scope.projectId == "" || x.projectId == scope.projectId)
      && !(scope.weekly && scope.parsed(x).Some? && scope.parsed(x).value < scope.now - WEEK_MS)
  }

  type Row = (string, nat)

  function RowAgent(r: Row): string { r.0 }

  /** `counts.set(agent, (counts.get(agent) ?? 0) + 1)` on the map's entries. */
  function Bump(rows: seq<Row>, agent: string): seq<Row> {
    if rows == [] then [(agent, 1)]
    else if rows[0].0 == agent then [(agent, rows[0].1 + 1)] + rows[1..]
    else [rows[0]] + Bump(rows[1..], agent)
  }

  function Tally(agents: seq<string>): seq<Row> {
    if agents == [] then [] else Bump(Tally(agents[..|agents| - 1]), agents[|agents| - 1])
  }

  predicate MostFirst(a: Row, b: Row) { a.1 >= b.1 }

  function Total(rows: seq<Row>): nat {
    if rows == [] then 0 else rows[0].1 + Total(rows[1..])
  }

  /** Every failure in scope, as the agent it is charged to. */
  function Charges(events: seq<Event>, experiences: seq<Experiences.Experience>, scope: Scope): seq<string> {
    Map(EventAgent, Filter(IsFailingEvent, events)) + Map(ExperienceAgent, Filter(IsFailure(scope), experiences))
  }

  function FailuresByAgent(events: seq<Event>, experiences: seq<Experiences.Experience>, scope: Scope): seq<Row> {
    Sort(MostFirst, Tally(Charges(events, experiences, scope)))
  }

  lemma TallySnoc(agents: seq<string>, agent: string)
    ensures Tally(agents + [agent]) == Bump(Tally(agents), agent)
  {
    assert (agents + [agent])[..|agents|] == agents;
  }

  lemma TallyAfter(charged: seq<string>, soFar: seq<string>, agent: string)
    ensures Tally(charged + (soFar + [agent])) == Bump(Tally(charged + soFar), agent)
  {
    TallySnoc(charged + soFar, agent);
    assert charged + (soFar + [agent]) == charged + soFar + [agent];
  }

  /** One more item of a filtered list charges its agent, or nobody. */
  lemma ChargeNext<T>(p: T -> bool, agentOf: T -> string, items: seq<T>, i: nat)
    requires i < |items|
    ensures p(items[i]) ==>
      Map(agentOf, Filter(p, items[..i + 1])) == Map(agentOf, Filter(p, items[..i])) + [agentOf(items[i])]
    ensures !p(items[i]) ==> Map(agentOf, Filter(p, items[..i + 1])) == Map(agentOf, Filter(p, items[..i]))
  {
    assert items[..i + 1] == items[..i] + [items[i]];
    FilterAppend(p, items[..i], [items[i]]);
    assert [items[i]][1..] == [];
  }

  method CountFailingEvents(events: seq<Event>) returns (failCounts: seq<Row>)
    ensures failCounts == Tally(Map(EventAgent, Filter(IsFailingEvent, events)))
  {
    failCounts := [];
    for i := 0 to |events|
      invariant failCounts == Tally(Map(EventAgent, Filter(IsFailingEvent, events[..i])))
    {
      var ev := events[i];
      ChargeNext(IsFailingEvent, EventAgent, events, i);
      if !Contains(ev.subject, "task.failed") && ev.state != "error" {
        continue;
      }
      TallySnoc(Map(EventAgent, Filter(IsFailingEvent, events[..i])), EventAgent(ev));
      failCounts := Bump(failCounts, if ev.from == "" then "unknown" else ev.from);
    }
    assert events[..|events|] == events;
  }

  method CountFailures(experiences: seq<Experiences.Experience>, scope: Scope, before: seq<Row>,
                       ghost charged: seq<string>)
    returns (failCounts: seq<Row>)
    requires before == Tally(charged)
    ensures failCounts == Tally(charged + Map(ExperienceAgent, Filter(IsFailure(scope), experiences)))
  {
    failCounts := before;
    assert charged + [] == charged;
    for i := 0 to |experiences|
      invariant failCounts == Tally(charged + Map(ExperienceAgent, Filter(IsFailure(scope), experiences[..i])))
    {
      var exp := experiences[i];
      var created := scope.parsed(exp);
      ghost var soFar := Map(ExperienceAgent, Filter(IsFailure(scope), experiences[..i]));
      ChargeNext(IsFailure(scope), ExperienceAgent, experiences, i);
      if exp.outcome != "failure" {
        assert !IsFailure(scope)(exp);
        continue;
      }
      if scope.projectId != "" && exp.projectId != scope.projectId {
        assert !IsFailure(scope)(exp);
        continue;
      }
      if scope.weekly && created.Some? && created.value < scope.now - WEEK_MS {
        assert !IsFailure(scope)(exp);
        continue;
      }
      assert IsFailure(scope)(exp);
      TallyAfter(charged, soFar, ExperienceAgent(exp));
      failCounts := Bump(failCounts, if exp.agent == "" then "unknown" else exp.agent);
    }
    assert experiences[..|experiences|] == experiences;
  }

  method BuildFailures(events: seq<Event>, experiences: seq<Experiences.Experience>, scope: Scope)
    returns (rows: seq<Row>, total: nat)
    ensures rows == FailuresByAgent(events, experiences, scope)
    ensures total == Total(rows)
  {
    var failCounts := CountFailingEvents(events);
    failCounts := CountFailures(experiences, scope, failCounts, Map(EventAgent, Filter(IsFailingEvent, events)));
    rows := Sort(MostFirst, failCounts);
    total := 0;
    for i := 0 to |rows|
      invariant total + Total(rows[i..]) == Total(rows)
    {
      assert rows[i..][1..] == rows[i + 1..];
      total := total + rows[i].1;
    }
  }

  // ----- conservation -------------------------------------------------------------------

  /** The count a table gives an agent; zero without a row. */
  function CountOf(rows: seq<Row>, agent: string): nat {
    if rows == [] then 0 else (if rows[0].0 == agent then rows[0].1 else 0) + CountOf(rows[1..], agent)
  }

  lemma {:induction false} BumpCounts(rows: seq<Row>, agent: string, other: string)
    ensures CountOf(Bump(rows, agent), other) == CountOf(rows, other) + (if other == agent then 1 else 0)
    ensures Total(Bump(rows, agent)) == Total(rows) + 1
  {
    if rows != [] && rows[0].0 != agent {
      BumpCounts(rows[1..], agent, other);
    }
  }

  predicate HasRow(rows: seq<Row>, agent: string) {
    exists r :: r in rows && r.0 == agent
  }

  lemma DistinctTail(rows: seq<Row>)
    requires rows != [] && Distinct(Map(RowAgent, rows))
    ensures Distinct(Map(RowAgent, rows[1..])) && !HasRow(rows[1..], rows[0].0)
  {
    var keys := Map(RowAgent, rows);
    forall i, j | 0 <= i < j < |rows| - 1
      ensures Map(RowAgent, rows[1..])[i] != Map(RowAgent, rows[1..])[j]
    {
      assert keys[i + 1] != keys[j + 1];
    }
    forall k | 0 <= k < |rows| - 1
      ensures rows[1..][k].0 != rows[0].0
    {
      assert keys[0] != keys[k + 1];
    }
  }

  lemma {:induction false} BumpKeepsDistinct(rows: seq<Row>, agent: string)
    requires Distinct(Map(RowAgent, rows))
    ensures Distinct(Map(RowAgent, Bump(rows, agent)))
    ensures forall r :: r in Bump(rows, agent) ==> r.0 == agent || HasRow(rows, r.0)
  {
    if rows != [] {
      assert rows == [rows[0]] + rows[1..];
      DistinctTail(rows);
      if rows[0].0 == agent {
        DistinctCons((agent, rows[0].1 + 1), rows[1..]);
      } else {
        BumpKeepsDistinct(rows[1..], agent);
        DistinctCons(rows[0], Bump(rows[1..], agent));
      }
    }
  }

  lemma DistinctCons(r: Row, rest: seq<Row>)
    requires Distinct(Map(RowAgent, rest)) && forall q :: q in rest ==> q.0 != r.0
    ensures Distinct(Map(RowAgent, [r] + rest))
  {
    var keys := Map(RowAgent, [r] + rest);
    forall i, j | 0 <= i < j < |keys|
      ensures keys[i] != keys[j]
    {
      assert rest[j - 1] in rest;
      assert i > 0 ==> Map(RowAgent, rest)[i - 1] != Map(RowAgent, rest)[j - 1];
    }
  }

  lemma {:induction false} TallyIsExact(agents: seq<string>, agent: string)
    ensures Distinct(Map(RowAgent, Tally(agents)))
    ensures CountOf(Tally(agents), agent) == multiset(agents)[agent]
    ensures Total(Tally(agents)) == |agents|
  {
    if agents != [] {
      var init, last := agents[..|agents| - 1], agents[|agents| - 1];
      assert agents == init + [last];
      TallyIsExact(init, agent);
      BumpCounts(Tally(init), last, agent);
      BumpKeepsDistinct(Tally(init), last);
    }
  }

  lemma {:induction false} InsertKeepsCounts(x: Row, rows: seq<Row>, agent: string)
    ensures CountOf(Insert(MostFirst, x, rows), agent) == CountOf([x] + rows, agent)
    ensures Total(Insert(MostFirst, x, rows)) == x.1 + Total(rows)
  {
    assert ([x] + rows)[1..] == rows;
    if !(rows == [] || MostFirst(x, rows[0])) {
      InsertKeepsCounts(x, rows[1..], agent);
      assert ([x] + rows[1..])[1..] == rows[1..];
      assert ([rows[0]] + Insert(MostFirst, x, rows[1..]))[1..] == Insert(MostFirst, x, rows[1..]);
    }
  }

  lemma {:induction false} SortKeepsCounts(rows: seq<Row>, agent: string)
    ensures CountOf(Sort(MostFirst, rows), agent) == CountOf(rows, agent)
    ensures Total(Sort(MostFirst, rows)) == Total(rows)
  {
    if rows != [] {
      SortKeepsCounts(rows[1..], agent);
      InsertKeepsCounts(rows[0], Sort(MostFirst, rows[1..]), agent);
      assert ([rows[0]] + Sort(MostFirst, rows[1..]))[1..] == Sort(MostFirst, rows[1..]);
    }
  }

  /**
   Failures are conserved: the report has one row per agent with that agent's exact count, in
   non-increasing order, and its total is the number of failing events plus in-scope failures.
   */
  lemma FailuresAreConserved(events: seq<Event>, experiences: seq<Experiences.Experience>, scope: Scope, agent: string)
    ensures var rows := FailuresByAgent(events, experiences, scope);
      && Total(rows) == |Filter(IsFailingEvent, events)| + |Filter(IsFailure(scope), experiences)|
      && Distinct(Map(RowAgent, rows))
      && CountOf(rows, agent) == multiset(Charges(events, experiences, scope))[agent]
      && Sorted(MostFirst, rows)
  {
    var charges := Charges(events, experiences, scope);
    TallyIsExact(charges, agent);
    SortKeepsCounts(Tally(charges), agent);
    SortContents(MostFirst, Tally(charges));
    DistinctContents(RowAgent, Tally(charges), FailuresByAgent(events, experiences, scope));
    SortSorted(MostFirst, Tally(charges));
  }

  // ----- who is charged with what -------------------------------------------------------

  /** The event counts as a failure of this agent. */
  ghost predicate FailsAs(e: Event, agent: string) {
    && ((exists i: nat :: PartAt(e.subject, "task.failed", i)) || e.state == "error")
    && agent == if e.from == "" then "unknown" else e.from
  }

  /** The experience counts as a failure of this agent: in scope, and in weekly reports not known to be older. */
  predicate FailedAs(scope: Scope, x: Experiences.Experience, agent: string) {
    && x.outcome == "failure"
    && (scope.projectId == "" || x.projectId == scope.projectId)
    && (scope.weekly && scope.parsed(x).Some? ==> scope.parsed(x).value >= scope.now - 604_800_000)
    && agent == if x.agent == "" then "unknown" else x.agent
  }

  ghost function Failing(events: seq<Event>, agent: string): set<int> {
    set i | 0 <= i < |events| && FailsAs(events[i], agent)
  }

  ghost function Failed(scope: Scope, experiences: seq<Experiences.Experience>, agent: string): set<int> {
    set i | 0 <= i < |experiences| && FailedAs(scope, experiences[i], agent)
  }

  lemma ChargedSnoc<T>(p: T -> bool, agentOf: T -> string, items: seq<T>, x: T, agent: string)
    ensures multiset(Map(agentOf, Filter(p, items + [x])))[agent]
         == multiset(Map(agentOf, Filter(p, items)))[agent] + if p(x) && agentOf(x) == agent then 1 else 0
  {
    FilterAppend(p, items, [x]);
    assert [x][1..] == [];
    var before, added := Filter(p, items), Filter(p, [x]);
    assert added == if p(x) then [x] else [];
    assert Map(agentOf, before + added) == Map(agentOf, before) + Map(agentOf, added);
    assert p(x) ==> Map(agentOf, added) == [agentOf(x)];
  }

  lemma FailingSnoc(before: seq<Event>, e: Event, agent: string)
    ensures |Failing(before + [e], agent)| == |Failing(before, agent)| + if FailsAs(e, agent) then 1 else 0
  {
    hide FailsAs;
    var n := |before|;
    assert Failing(before + [e], agent) == Failing(before, agent) + if FailsAs(e, agent) then {n} else {};
    assert n !in Failing(before, agent);
  }

  lemma FailedSnoc(scope: Scope, before: seq<Experiences.Experience>, x: Experiences.Experience, agent: string)
    ensures |Failed(scope, before + [x], agent)|
         == |Failed(scope, before, agent)| + if FailedAs(scope, x, agent) then 1 else 0
  {
    hide FailedAs;
    var n := |before|;
    assert Failed(scope, before + [x], agent)
        == Failed(scope, before, agent) + if FailedAs(scope, x, agent) then {n} else {};
    assert n !in Failed(scope, before, agent);
  }

  lemma {:induction false} EventsCharged(events: seq<Event>, agent: string)
    ensures multiset(Map(EventAgent, Filter(IsFailingEvent, events)))[agent] == |Failing(events, agent)|
  {
    if events == [] {
      assert Failing(events, agent) == {};
    } else {
      var n := |events| - 1;
      var before, e := events[..n], events[n];
      assert events == before + [e];
      EventsCharged(before, agent);
      ChargedSnoc(IsFailingEvent, EventAgent, before, e, agent);
      ContainsIs(e.subject, "task.failed");
      assert FailsAs(e, agent) <==> IsFailingEvent(e) && EventAgent(e) == agent;
      FailingSnoc(before, e, agent);
    }
  }

  lemma {:induction false} ExperiencesCharged(scope: Scope, xs: seq<Experiences.Experience>, agent: string)
    ensures multiset(Map(ExperienceAgent, Filter(IsFailure(scope), xs)))[agent] == |Failed(scope, xs, agent)|
  {
    if xs == [] {
      assert Failed(scope, xs, agent) == {};
    } else {
      var n := |xs| - 1;
      var before, x := xs[..n], xs[n];
      assert xs == before + [x];
      ExperiencesCharged(scope, before, agent);
      ChargedSnoc(IsFailure(scope), ExperienceAgent, before, x, agent);
      assert FailedAs(scope, x, agent) <==> IsFailure(scope)(x) && ExperienceAgent(x) == agent;
      FailedSnoc(scope, before, x, agent);
    }
  }

  /** The report gives each agent the number of events and experiences that are failures of that agent. */
  lemma ReportIsExact(events: seq<Event>, experiences: seq<Experiences.Experience>, scope: Scope, agent: string)
    ensures CountOf(FailuresByAgent(events, experiences, scope), agent)
         == |Failing(events, agent)| + |Failed(scope, experiences, agent)|
  {
    FailuresAreConserved(events, experiences, scope, agent);
    EventsCharged(events, agent);
    ExperiencesCharged(scope, experiences, agent);
  }

  /** Its rows are exactly the agents with failures, most failures first. */
  lemma RowsAreCounts(events: seq<Event>, experiences: seq<Experiences.Experience>, scope: Scope)
    ensures var rows := FailuresByAgent(events, experiences, scope);
      && (forall r :: r in rows ==> r.1 == |Failing(events, r.0)| + |Failed(scope, experiences, r.0)|)
      && (forall i, j :: 0 <= i < j < |rows| ==> rows[i].0 != rows[j].0 && rows[i].1 >= rows[j].1)
  {
    hide Failing, Failed, FailuresByAgent, CountOf;
    var rows := FailuresByAgent(events, experiences, scope);
    FailuresAreConserved(events, experiences, scope, "");
    forall r | r in rows
      ensures r.1 == |Failing(events, r.0)| + |Failed(scope, experiences, r.0)|
    {
      RowIsCount(rows, r);
      ReportIsExact(events, experiences, scope, r.0);
    }
    forall i, j | 0 <= i < j < |rows|
      ensures rows[i].0 != rows[j].0 && rows[i].1 >= rows[j].1
    {
      assert Map(RowAgent, rows)[i] != Map(RowAgent, rows)[j] && MostFirst(rows[i], rows[j]);
    }
  }

  lemma {:induction false} RowIsCount(rows: seq<Row>, r: Row)
    requires Distinct(Map(RowAgent, rows)) && r in rows
    ensures CountOf(rows, r.0) == r.1
  {
    assert rows == [rows[0]] + rows[1..];
    DistinctTail(rows);
    if rows[0] == r {
      NoRowNoCount(rows[1..], r.0);
    } else {
      RowIsCount(rows[1..], r);
      assert HasRow(rows[1..], r.0);
    }
  }

  lemma {:induction false} NoRowNoCount(rows: seq<Row>, agent: string)
    requires !HasRow(rows, agent)
    ensures CountOf(rows, agent) == 0
  {
    if rows != [] {
      assert rows[0] in rows && forall r :: r in rows[1..] ==> r in rows;
      NoRowNoCount(rows[1..], agent);
    }
  }
}
