/**
 * The events blueprint: events, assets and teams as rows that are updated
 * field by field and never removed (a delete clears `active`), bookings of
 * assets, teams and people onto events guarded by an interval-overlap test,
 * team memberships, the member overview and the event list filters.
 * Date-times are whole numbers on one time line.
 */
module Events {
  import opened Wrappers
  import opened QueryOrder

  /** A column value of a row. */
  datatype Field = IntField(n: int) | BoolField(b: bool) | TextField(s: string)

  /** A row as attribute name to value; `setattr` replaces one entry. */
  type Row = map<string, Field>

  /** The outcome of a request: 200/204, 404 or 422. */
  datatype Status = Success | NotFound | Unprocessable

  /** The three tables handled through `modify_entity` and the soft delete. */
  datatype Table = EventTable | AssetTable | TeamTable

  predicate Flagged(row: Row) {
    "active" in row && row["active"].BoolField?
  }

  /** An event row: integer start and end, and an active flag. */
  predicate EventRow(row: Row) {
    && "start" in row && row["start"].IntField?
    && "end" in row && row["end"].IntField?
    && Flagged(row)
  }

  predicate EventsTyped(events: map<int, Row>) {
    forall id :: id in events ==> EventRow(events[id])
  }

  predicate FlagsTyped(rows: map<int, Row>) {
    forall id :: id in rows ==> Flagged(rows[id])
  }

  function Start(row: Row): int
    requires EventRow(row)
  {
    row["start"].n
  }

  function End(row: Row): int
    requires EventRow(row)
  {
    row["end"].n
  }

  function Active(row: Row): bool
    requires Flagged(row)
  {
    row["active"].b
  }

  // ---- modify_entity

  /** An update dict: its keys are distinct. */
  predicate DistinctKeys(ups: seq<(string, Field)>) {
    forall i, j :: 0 <= i < j < |ups| ==> ups[i].0 != ups[j].0
  }

  /** The schema's typing of the columns the model relies on. */
  predicate Typed(ups: seq<(string, Field)>) {
    forall i :: 0 <= i < |ups| ==>
      (ups[i].0 == "start" ==> ups[i].1.IntField?) &&
      (ups[i].0 == "end" ==> ups[i].1.IntField?) &&
      (ups[i].0 == "active" ==> ups[i].1.BoolField?)
  }

  predicate Mentions(ups: seq<(string, Field)>, k: string) {
    exists i :: 0 <= i < |ups| && ups[i].0 == k
  }

  /** One `setattr` per item of the update dict, in its order. */
  function Apply(row: Row, ups: seq<(string, Field)>): Row
    decreases |ups|
  {
    if |ups| == 0 then row
    else Apply(row, ups[..|ups| - 1])[ups[|ups| - 1].0 := ups[|ups| - 1].1]
  }

  /** After the update every named field holds its new value, and every other field is as it was. */
  lemma {:induction false} ApplySetsExactly(row: Row, ups: seq<(string, Field)>)
    requires DistinctKeys(ups)
    ensures forall i :: 0 <= i < |ups| ==> ups[i].0 in Apply(row, ups) && Apply(row, ups)[ups[i].0] == ups[i].1
    ensures forall k :: !Mentions(ups, k) ==>
      (k in Apply(row, ups) <==> k in row) && (k in row ==> Apply(row, ups)[k] == row[k])
    decreases |ups|
  {
    if |ups| > 0 {
      var init := ups[..|ups| - 1];
      var last := ups[|ups| - 1];
      assert DistinctKeys(init);
      ApplySetsExactly(row, init);
      forall k | !Mentions(ups, k) ensures !Mentions(init, k) {
        forall i | 0 <= i < |init| ensures init[i].0 != k {
          assert init[i] == ups[i];
        }
      }
      forall i | 0 <= i < |ups| - 1 ensures ups[i].0 != last.0 && ups[i] == init[i] { }
    }
  }

  /** A schema-typed update keeps an event an event, and a flagged row flagged. */
  lemma {:induction false} ApplyKeepsShape(row: Row, ups: seq<(string, Field)>)
    requires Typed(ups)
    ensures EventRow(row) ==> EventRow(Apply(row, ups))
    ensures Flagged(row) ==> Flagged(Apply(row, ups))
    decreases |ups|
  {
    if |ups| > 0 {
      var init := ups[..|ups| - 1];
      assert Typed(init) by {
        forall i | 0 <= i < |init| ensures init[i] == ups[i] { }
      }
      ApplyKeepsShape(row, init);
    }
  }

  // ---- soft delete

  /** The row with `active` set to false, as the delete routes leave it. */
  function Deactivate(row: Row): (r: Row)
    ensures "active" in r && r["active"] == BoolField(false)
    ensures forall k :: k != "active" ==> (k in r <==> k in row) && (k in row ==> r[k] == row[k])
  {
    row["active" := BoolField(false)]
  }

  /** A soft delete is the update `{active: False}`, and doing it twice is doing it once. */
  lemma SoftDeleteIsUpdate(row: Row)
    ensures Deactivate(row) == Apply(row, [("active", BoolField(false))])
    ensures Deactivate(Deactivate(row)) == Deactivate(row)
    ensures EventRow(row) ==> EventRow(Deactivate(row)) && !Active(Deactivate(row))
  {
    assert [("active", BoolField(false))][..0] == [];
  }

  // ---- the overlap test

  /** The four-way overlap test of the booking routes, event `(s1, e1)` against holder `(s2, e2)`. */
  predicate Overlaps(s1: int, e1: int, s2: int, e2: int) {
    || (s1 <= s2 < e1)
    || (s1 < e2 <= e1)
    || (s2 <= s1 < e2)
    || (s2 < e1 <= e2)
  }

  /** The test does not depend on which interval is the new event. */
  lemma OverlapsSymmetric(s1: int, e1: int, s2: int, e2: int)
    ensures Overlaps(s1, e1, s2, e2) <==> Overlaps(s2, e2, s1, e1)
  {
  }

  /** On proper intervals the test holds exactly when each starts before the other ends. */
  lemma OverlapsIff(s1: int, e1: int, s2: int, e2: int)
    requires s1 < e1 && s2 < e2
    ensures Overlaps(s1, e1, s2, e2) <==> s1 < e2 && s2 < e1
  {
  }

  /** Back-to-back bookings, one ending when the next starts, do not conflict. */
  lemma BackToBack(s1: int, m: int, e2: int)
    requires s1 < m < e2
    ensures !Overlaps(s1, m, m, e2) && !Overlaps(m, e2, s1, m)
  {
  }

  /** An event overlaps itself exactly when it lasts some time. */
  lemma SelfOverlap(s: int, e: int)
    ensures Overlaps(s, e, s, e) <==> s < e
  {
  }

  /** The events that already hold a resource: `events` joined with the link table. */
  function Holders(events: map<int, Row>, links: set<(int, int)>, id: int): (hs: set<int>)
    ensures forall e :: e in hs <==> e in events && (e, id) in links
  {
    set e | e in events && (e, id) in links
  }

  /** Some holder's interval meets the interval of event `ev`. */
  predicate Clashes(events: map<int, Row>, ev: int, holders: set<int>)
    requires EventsTyped(events) && ev in events && holders <= events.Keys
  {
    exists h :: h in holders &&
      Overlaps(Start(events[ev]), End(events[ev]), Start(events[h]), End(events[h]))
  }

  /** The loop of the booking routes: walk the holders in query order, stop at the first overlap. */
  method FindOverlap(events: map<int, Row>, ev: int, holders: set<int>) returns (isOverlap: bool)
    requires EventsTyped(events) && ev in events && holders <= events.Keys
    ensures isOverlap <==> Clashes(events, ev, holders)
  {
    var order := Enumerate(holders);
    var s, e := Start(events[ev]), End(events[ev]);
    isOverlap := false;
    forall j | 0 <= j < |order| ensures order[j] in events && EventRow(events[order[j]]) {
      var h := order[j];
      assert h in holders;
    }
    var i := 0;
    while i < |order|
      invariant 0 <= i <= |order| && !isOverlap
      invariant forall j :: 0 <= j < |order| ==> order[j] in events && EventRow(events[order[j]])
      invariant forall j :: 0 <= j < i ==> !Overlaps(s, e, Start(events[order[j]]), End(events[order[j]]))
    {
      var other := events[order[i]];
      if s <= Start(other) < e || s < End(other) <= e || Start(other) <= s < End(other) || Start(other) < e <= End(other) {
        isOverlap := true;
        break;
      }
      i := i + 1;
    }
    if isOverlap {
      var h := order[i];
      assert h in holders && Overlaps(s, e, Start(events[h]), End(events[h]));
    } else {
      forall h | h in holders
        ensures !Overlaps(s, e, Start(events[h]), End(events[h]))
      {
        var j :| 0 <= j < |order| && order[j] == h;
      }
    }
  }

  /** Booking an event onto a resource it already holds is refused unless the event lasts no time. */
  lemma RebookRejected(events: map<int, Row>, links: set<(int, int)>, ev: int, id: int)
    requires EventsTyped(events) && ev in events && (ev, id) in links
    ensures Clashes(events, ev, Holders(events, links, id)) <== Start(events[ev]) < End(events[ev])
  {
    if Start(events[ev]) < End(events[ev]) {
      SelfOverlap(Start(events[ev]), End(events[ev]));
      assert ev in Holders(events, links, id);
    }
  }

  /** A zero-length event that is the resource's only holder can be booked onto it again. */
  lemma ZeroLengthRebook(events: map<int, Row>, links: set<(int, int)>, ev: int, id: int)
    requires EventsTyped(events) && ev in events && Holders(events, links, id) == {ev}
    requires Start(events[ev]) == End(events[ev])
    ensures !Clashes(events, ev, Holders(events, links, id))
  {
    SelfOverlap(Start(events[ev]), End(events[ev]));
  }

  /** Bookings of proper intervals: the new event is refused exactly when it meets a holder. */
  lemma ClashesIff(events: map<int, Row>, links: set<(int, int)>, ev: int, id: int)
    requires EventsTyped(events) && ev in events
    requires forall e :: e in events ==> Start(events[e]) < End(events[e])
    ensures Clashes(events, ev, Holders(events, links, id)) <==>
      exists h :: h in events && (h, id) in links &&
        Start(events[ev]) < End(events[h]) && Start(events[h]) < End(events[ev])
  {
    var hs := Holders(events, links, id);
    var s, e := Start(events[ev]), End(events[ev]);
    forall h | h in hs
      ensures Overlaps(s, e, Start(events[h]), End(events[h])) <==> s < End(events[h]) && Start(events[h]) < e
    {
      OverlapsIff(s, e, Start(events[h]), End(events[h]));
    }
  }

  // ---- read_all_events

  /** One `filter` of the event query. */
  datatype Filter = ActiveIs(flag: bool) | StartsFrom(day: int) | EndsBy(day: int)

  predicate Admits(f: Filter, row: Row)
    requires EventRow(row)
  {
    match f
    case ActiveIs(flag) => Active(row) == flag
    case StartsFrom(day) => Start(row) >= day
    case EndsBy(day) => End(row) <= day
  }

  /** The filter the return group chooses: inactive rows, every row, or (by default) active rows. */
  function GroupQuery(returnGroup: Option<string>): seq<Filter> {
    if returnGroup == Some("inactive") then [ActiveIs(false)]
    else if returnGroup == Some("all") || returnGroup == Some("both") then []
    else [ActiveIs(true)]
  }

  /**
   * The filters the route stacks onto the query: the group chooses the active
   * flag, then an inclusive start bound and an inclusive end bound. A missing
   * or empty date is `None`.
   */
  function BuildQuery(returnGroup: Option<string>, start: Option<int>, end: Option<int>): seq<Filter> {
    var q := GroupQuery(returnGroup);
    var q := if start.Some? then q + [StartsFrom(start.value)] else q;
    if end.Some? then q + [EndsBy(end.value)] else q
  }

  /** The rows a stack of filters lets through. */
  function RunQuery(events: map<int, Row>, q: seq<Filter>): (r: set<int>)
    requires EventsTyped(events)
    ensures r <= events.Keys
    decreases |q|
  {
    if |q| == 0 then events.Keys
    else set id | id in RunQuery(events, q[..|q| - 1]) && Admits(q[|q| - 1], events[id])
  }

  predicate AdmitsAll(q: seq<Filter>, row: Row)
    requires EventRow(row)
  {
    forall i :: 0 <= i < |q| ==> Admits(q[i], row)
  }

  /** A row passes a stack of filters when it passes each of them. */
  lemma {:induction false} RunQueryIff(events: map<int, Row>, q: seq<Filter>, id: int)
    requires EventsTyped(events)
    ensures id in RunQuery(events, q) <==> id in events && AdmitsAll(q, events[id])
    decreases |q|
  {
    if |q| > 0 {
      RunQueryIff(events, q[..|q| - 1], id);
      assert forall i :: 0 <= i < |q| - 1 ==> q[..|q| - 1][i] == q[i];
    }
  }

  lemma AdmitsAllSnoc(q: seq<Filter>, f: Filter, row: Row)
    requires EventRow(row)
    ensures AdmitsAll(q + [f], row) <==> AdmitsAll(q, row) && Admits(f, row)
  {
    assert (q + [f])[|q|] == f;
    assert forall i :: 0 <= i < |q| ==> (q + [f])[i] == q[i];
  }

  lemma GroupQueryIff(returnGroup: Option<string>, row: Row)
    requires EventRow(row)
    ensures AdmitsAll(GroupQuery(returnGroup), row) <==>
      (returnGroup == Some("inactive") ==> !Active(row)) &&
      (returnGroup != Some("inactive") && returnGroup != Some("all") && returnGroup != Some("both") ==> Active(row))
  {
    var q0 := GroupQuery(returnGroup);
    if returnGroup == Some("inactive") {
      assert "inactive" != "all" && "inactive" != "both";
      assert Admits(q0[0], row) <==> !Active(row);
    } else if returnGroup == Some("all") || returnGroup == Some("both") {
      assert q0 == [];
    } else {
      assert Admits(q0[0], row) <==> Active(row);
    }
  }

  /** Which events the list route returns, for each group and date bound. */
  lemma SelectEventsIff(events: map<int, Row>, returnGroup: Option<string>, start: Option<int>, end: Option<int>, id: int)
    requires EventsTyped(events)
    ensures id in RunQuery(events, BuildQuery(returnGroup, start, end)) <==>
      && id in events
      && (returnGroup == Some("inactive") ==> !Active(events[id]))
      && (returnGroup != Some("inactive") && returnGroup != Some("all") && returnGroup != Some("both") ==> Active(events[id]))
      && (start.Some? ==> Start(events[id]) >= start.value)
      && (end.Some? ==> End(events[id]) <= end.value)
  {
    RunQueryIff(events, BuildQuery(returnGroup, start, end), id);
    if id in events {
      var row := events[id];
      var q0 := GroupQuery(returnGroup);
      GroupQueryIff(returnGroup, row);
      var q1 := if start.Some? then q0 + [StartsFrom(start.value)] else q0;
      if start.Some? {
        AdmitsAllSnoc(q0, StartsFrom(start.value), row);
      }
      if end.Some? {
        AdmitsAllSnoc(q1, EndsBy(end.value), row);
      }
    }
  }

  // ---- read_all_team_members

  /** What the overview holds for one person: the first membership's flag and the teams. */
  datatype MemberSummary = MemberSummary(active: bool, teams: seq<int>)

  /** The loop body of the overview for membership `(t, m)`. */
  function Record(out: map<int, MemberSummary>, t: int, m: int, active: bool): map<int, MemberSummary> {
    var base := if m in out then out else out[m := MemberSummary(active, [])];
    base[m := base[m].(teams := base[m].teams + [t])]
  }

  /**
   * `out` summarises the memberships in `covered`: one entry per member, the
   * flag of the membership its list starts with, and each covered team once.
   */
  ghost predicate Summary(out: map<int, MemberSummary>, members: map<(int, int), bool>, covered: set<(int, int)>)
    requires covered <= members.Keys
  {
    && SummaryMembers(out, covered)
    && SummaryFlags(out, members, covered)
    && SummaryTeams(out, covered)
    && SummaryDistinct(out)
  }

  /** One entry per member with a covered membership. */
  ghost predicate SummaryMembers(out: map<int, MemberSummary>, covered: set<(int, int)>) {
    forall m :: m in out <==> exists t :: (t, m) in covered
  }

  /** Each list starts with a covered team, and the entry holds that membership's flag. */
  ghost predicate SummaryFlags(out: map<int, MemberSummary>, members: map<(int, int), bool>, covered: set<(int, int)>)
    requires covered <= members.Keys
  {
    forall m :: m in out ==>
      |out[m].teams| >= 1 && (out[m].teams[0], m) in covered &&
      out[m].active == members[(out[m].teams[0], m)]
  }

  /** Each list holds exactly the member's covered teams. */
  ghost predicate SummaryTeams(out: map<int, MemberSummary>, covered: set<(int, int)>) {
    forall m, t :: m in out ==> (t in out[m].teams <==> (t, m) in covered)
  }

  /** No team appears twice in a list. */
  ghost predicate SummaryDistinct(out: map<int, MemberSummary>) {
    forall m, i, j :: m in out && 0 <= i < j < |out[m].teams| ==> out[m].teams[i] != out[m].teams[j]
  }

  /** Visiting one more membership keeps the overview summarising exactly the visited memberships. */
  lemma RecordStep(out: map<int, MemberSummary>, members: map<(int, int), bool>, covered: set<(int, int)>, t: int, m: int)
    requires covered <= members.Keys && (t, m) in members && (t, m) !in covered
    requires Summary(out, members, covered)
    ensures Summary(Record(out, t, m, members[(t, m)]), members, covered + {(t, m)})
  {
    RecordMembers(out, covered, t, m, members[(t, m)]);
    RecordFlags(out, members, covered, t, m);
    RecordTeams(out, covered, t, m, members[(t, m)]);
    RecordDistinct(out, covered, t, m, members[(t, m)]);
  }

  lemma RecordMembers(out: map<int, MemberSummary>, covered: set<(int, int)>, t: int, m: int, active: bool)
    requires SummaryMembers(out, covered)
    ensures SummaryMembers(Record(out, t, m, active), covered + {(t, m)})
  {
    var out' := Record(out, t, m, active);
    var covered' := covered + {(t, m)};
    forall m' | m' in out' ensures exists t' :: (t', m') in covered' {
      if m' == m {
        assert (t, m) in covered';
      }
    }
  }

  lemma RecordFlags(out: map<int, MemberSummary>, members: map<(int, int), bool>, covered: set<(int, int)>, t: int, m: int)
    requires covered <= members.Keys && (t, m) in members
    requires SummaryFlags(out, members, covered)
    ensures SummaryFlags(Record(out, t, m, members[(t, m)]), members, covered + {(t, m)})
  {
    var out' := Record(out, t, m, members[(t, m)]);
    assert out'[m].teams[0] == if m in out then out[m].teams[0] else t;
  }

  lemma RecordTeams(out: map<int, MemberSummary>, covered: set<(int, int)>, t: int, m: int, active: bool)
    requires SummaryMembers(out, covered) && SummaryTeams(out, covered)
    ensures SummaryTeams(Record(out, t, m, active), covered + {(t, m)})
  {
    var out' := Record(out, t, m, active);
    forall m', t' | m' in out' ensures t' in out'[m'].teams <==> (t', m') in covered + {(t, m)} {
      if m' == m && m !in out {
        assert out'[m].teams == [t];
        assert (t', m) !in covered;
      }
    }
  }

  lemma RecordDistinct(out: map<int, MemberSummary>, covered: set<(int, int)>, t: int, m: int, active: bool)
    requires SummaryTeams(out, covered) && SummaryDistinct(out) && (t, m) !in covered
    ensures SummaryDistinct(Record(out, t, m, active))
  {
    var out' := Record(out, t, m, active);
    if m in out {
      assert t !in out[m].teams;
      assert out'[m].teams == out[m].teams + [t];
    }
  }

  /** The memberships `visits` in the order the loops visit them: each once, and exactly those of `ps`. */
  ghost predicate Enumerated(visits: seq<(int, int)>, ps: set<(int, int)>) {
    && (forall i, j :: 0 <= i < j < |visits| ==> visits[i] != visits[j])
    && (forall p :: p in visits <==> p in ps)
  }

  lemma EnumeratedAppend(a: seq<(int, int)>, pa: set<(int, int)>, b: seq<(int, int)>, pb: set<(int, int)>)
    requires Enumerated(a, pa) && Enumerated(b, pb) && pa !! pb
    ensures Enumerated(a + b, pa + pb)
  {
    forall i, j | 0 <= i < j < |a + b| ensures (a + b)[i] != (a + b)[j] {
      if j >= |a| && i < |a| {
        assert (a + b)[i] in pa && (a + b)[j] in pb;
      }
    }
  }

  /** Every visited membership exists. */
  ghost predicate Within(visits: seq<(int, int)>, members: map<(int, int), bool>) {
    forall i :: 0 <= i < |visits| ==> visits[i] in members
  }

  /** The overview the loop body builds from the memberships in `visits`, in order. */
  function Replay(visits: seq<(int, int)>, members: map<(int, int), bool>): map<int, MemberSummary>
    requires Within(visits, members)
    decreases |visits|
  {
    if |visits| == 0 then map[]
    else
      var p := visits[|visits| - 1];
      Record(Replay(visits[..|visits| - 1], members), p.0, p.1, members[p])
  }

  /** Replaying the memberships of `ps`, each once and in any order, summarises `ps`. */
  lemma {:induction false} ReplaySummary(visits: seq<(int, int)>, members: map<(int, int), bool>, ps: set<(int, int)>)
    requires ps <= members.Keys && Enumerated(visits, ps)
    ensures Within(visits, members)
    ensures Summary(Replay(visits, members), members, ps)
    decreases |visits|
  {
    if |visits| == 0 {
      assert visits == [];
    } else {
      var init, last := visits[..|visits| - 1], visits[|visits| - 1];
      var rest := ps - {last};
      EnumeratedInit(visits, ps);
      assert ps == rest + {last};
      ReplaySummary(init, members, rest);
      ReplayStep(init, members, rest, last);
      assert visits == init + [last];
    }
  }

  lemma ReplayStep(init: seq<(int, int)>, members: map<(int, int), bool>, rest: set<(int, int)>, last: (int, int))
    requires rest <= members.Keys && last in members && last !in rest
    requires Within(init, members)
    requires Summary(Replay(init, members), members, rest)
    ensures Within(init + [last], members)
    ensures Summary(Replay(init + [last], members), members, rest + {last})
  {
    var visits := init + [last];
    assert visits[..|visits| - 1] == init;
    RecordStep(Replay(init, members), members, rest, last.0, last.1);
  }

  lemma EnumeratedInit(visits: seq<(int, int)>, ps: set<(int, int)>)
    requires |visits| > 0 && Enumerated(visits, ps)
    ensures visits[|visits| - 1] in ps
    ensures Enumerated(visits[..|visits| - 1], ps - {visits[|visits| - 1]})
    ensures forall i :: 0 <= i < |visits| ==> visits[i] in ps
  {
    var init, last := visits[..|visits| - 1], visits[|visits| - 1];
    forall p ensures p in init <==> p in ps - {last} {
      assert visits == init + [last];
      if p in init {
        var i :| 0 <= i < |init| && init[i] == p;
        assert visits[i] == p;
      }
    }
  }

  /** The visits of one team's members listed in `ms`. */
  function Visits(t: int, ms: seq<int>): (vs: seq<(int, int)>)
    ensures |vs| == |ms| && forall j :: 0 <= j < |ms| ==> vs[j] == (t, ms[j])
  {
    seq(|ms|, j requires 0 <= j < |ms| => (t, ms[j]))
  }

  class EventsDb {
    var events: map<int, Row>
    var assets: map<int, Row>
    var teams: map<int, Row>
    var persons: set<int>
    /** Booked `(event, asset)` pairs. */
    var eventAssets: set<(int, int)>
    /** Booked `(event, team)` pairs. */
    var eventTeams: set<(int, int)>
    /** Booked `(event, person)` pairs with their description. */
    var eventPersons: map<(int, int), string>
    /** `(team, member)` memberships with their active flag. */
    var teamMembers: map<(int, int), bool>

    predicate Valid()
      reads this
    {
      EventsTyped(events) && FlagsTyped(assets) && FlagsTyped(teams)
    }

    function Rows(t: Table): map<int, Row>
      reads this
    {
      match t
      case EventTable => events
      case AssetTable => assets
      case TeamTable => teams
    }

    /** Everything outside the three row tables. */
    function Links(): (set<int>, set<(int, int)>, set<(int, int)>, map<(int, int), string>, map<(int, int), bool>)
      reads this
    {
      (persons, eventAssets, eventTeams, eventPersons, teamMembers)
    }

    constructor(events: map<int, Row>, assets: map<int, Row>, teams: map<int, Row>, persons: set<int>)
      requires EventsTyped(events) && FlagsTyped(assets) && FlagsTyped(teams)
      ensures Valid()
      ensures this.events == events && this.assets == assets && this.teams == teams && this.persons == persons
      ensures eventAssets == {} && eventTeams == {} && eventPersons == map[] && teamMembers == map[]
    {
      this.events := events;
      this.assets := assets;
      this.teams := teams;
      this.persons := persons;
      eventAssets := {};
      eventTeams := {};
      eventPersons := map[];
      teamMembers := map[];
    }

    method SetRow(t: Table, id: int, row: Row)
      modifies this
      ensures Rows(t) == old(Rows(t))[id := row]
      ensures forall t' :: t' != t ==> Rows(t') == old(Rows(t'))
      ensures Links() == old(Links())
    {
      match t
      case EventTable => events := events[id := row];
      case AssetTable => assets := assets[id := row];
      case TeamTable => teams := teams[id := row];
    }

    /** `modify_entity`: 404 for an unknown id, else one `setattr` per update item. */
    method ModifyEntity(t: Table, id: int, ups: seq<(string, Field)>) returns (status: Status)
      requires Valid() && DistinctKeys(ups) && Typed(ups)
      modifies this
      ensures Valid()
      ensures id !in old(Rows(t)) ==> status == NotFound && unchanged(this)
      ensures id in old(Rows(t)) ==>
        status == Success && Rows(t) == old(Rows(t))[id := Apply(old(Rows(t))[id], ups)]
      ensures forall t' :: t' != t ==> Rows(t') == old(Rows(t'))
      ensures Links() == old(Links())
    {
      var rows := Rows(t);
      if id !in rows {
        return NotFound;
      }
      var row := rows[id];
      for i := 0 to |ups|
        invariant row == Apply(rows[id], ups[..i])
      {
        row := row[ups[i].0 := ups[i].1];
        assert ups[..i + 1][..i] == ups[..i];
      }
      assert ups[..|ups|] == ups;
      ApplyKeepsShape(rows[id], ups);
      assert t == EventTable ==> EventRow(row);
      assert Flagged(row);
      SetRow(t, id, row);
      assert events == Rows(EventTable) && assets == Rows(AssetTable) && teams == Rows(TeamTable);
      status := Success;
    }

    /** `delete_event`, `delete_asset`, `delete_team`: the row stays, `active` becomes false. */
    method SoftDelete(t: Table, id: int) returns (status: Status)
      requires Valid()
      modifies this
      ensures Valid()
      ensures id !in old(Rows(t)) ==> status == NotFound && unchanged(this)
      ensures id in old(Rows(t)) ==>
        status == Success && Rows(t) == old(Rows(t))[id := Deactivate(old(Rows(t))[id])]
      ensures forall t' :: t' != t ==> Rows(t') == old(Rows(t'))
      ensures Links() == old(Links())
    {
      var rows := Rows(t);
      if id !in rows {
        return NotFound;
      }
      SoftDeleteIsUpdate(rows[id]);
      SetRow(t, id, Deactivate(rows[id]));
      assert events == Rows(EventTable) && assets == Rows(AssetTable) && teams == Rows(TeamTable);
      status := Success;
    }

    /** `delete_team_member`: the membership stays, its flag becomes false. */
    method DeleteTeamMember(team: int, member: int) returns (status: Status)
      modifies this
      ensures (team, member) !in old(teamMembers) ==> status == NotFound && unchanged(this)
      ensures (team, member) in old(teamMembers) ==>
        status == Success && teamMembers == old(teamMembers)[(team, member) := false]
      ensures events == old(events) && assets == old(assets) && teams == old(teams) && persons == old(persons)
      ensures eventAssets == old(eventAssets) && eventTeams == old(eventTeams) && eventPersons == old(eventPersons)
    {
      if (team, member) !in teamMembers {
        return NotFound;
      }
      teamMembers := teamMembers[(team, member) := false];
      status := Success;
    }

    /** `add_asset_to_event`: 404 without the event, 422 on an overlap with a holder, else one new booking. */
    method AddAsset(ev: int, asset: int) returns (status: Status)
      requires Valid()
      modifies this
      ensures Valid()
      ensures ev !in old(events) ==> status == NotFound && unchanged(this)
      ensures ev in old(events) && old(Clashes(events, ev, Holders(events, eventAssets, asset))) ==>
        status == Unprocessable && unchanged(this)
      ensures ev in old(events) && !old(Clashes(events, ev, Holders(events, eventAssets, asset))) ==>
        status == Success && eventAssets == old(eventAssets) + {(ev, asset)}
      ensures events == old(events) && assets == old(assets) && teams == old(teams) && persons == old(persons)
      ensures eventTeams == old(eventTeams) && eventPersons == old(eventPersons) && teamMembers == old(teamMembers)
    {
      var holders := Holders(events, eventAssets, asset);
      if ev !in events {
        return NotFound;
      }
      var isOverlap := FindOverlap(events, ev, holders);
      if isOverlap {
        return Unprocessable;
      }
      eventAssets := eventAssets + {(ev, asset)};
      status := Success;
    }

    /** `add_event_team`: the same rule for teams. */
    method AddTeam(ev: int, team: int) returns (status: Status)
      requires Valid()
      modifies this
      ensures Valid()
      ensures ev !in old(events) ==> status == NotFound && unchanged(this)
      ensures ev in old(events) && old(Clashes(events, ev, Holders(events, eventTeams, team))) ==>
        status == Unprocessable && unchanged(this)
      ensures ev in old(events) && !old(Clashes(events, ev, Holders(events, eventTeams, team))) ==>
        status == Success && eventTeams == old(eventTeams) + {(ev, team)}
      ensures events == old(events) && assets == old(assets) && teams == old(teams) && persons == old(persons)
      ensures eventAssets == old(eventAssets) && eventPersons == old(eventPersons) && teamMembers == old(teamMembers)
    {
      var holders := Holders(events, eventTeams, team);
      if ev !in events {
        return NotFound;
      }
      var isOverlap := FindOverlap(events, ev, holders);
      if isOverlap {
        return Unprocessable;
      }
      eventTeams := eventTeams + {(ev, team)};
      status := Success;
    }

    /**
     * `add_event_persons`: a payload that fails validation (`None`) is 422
     * before anything else; then the same rule, the booking carrying the
     * payload's description.
     */
    method AddPerson(ev: int, person: int, payload: Option<string>) returns (status: Status)
      requires Valid()
      modifies this
      ensures Valid()
      ensures payload.None? ==> status == Unprocessable && unchanged(this)
      ensures payload.Some? && ev !in old(events) ==> status == NotFound && unchanged(this)
      ensures payload.Some? && ev in old(events) && old(Clashes(events, ev, Holders(events, eventPersons.Keys, person))) ==>
        status == Unprocessable && unchanged(this)
      ensures payload.Some? && ev in old(events) && !old(Clashes(events, ev, Holders(events, eventPersons.Keys, person))) ==>
        status == Success && eventPersons == old(eventPersons)[(ev, person) := payload.value]
      ensures events == old(events) && assets == old(assets) && teams == old(teams) && persons == old(persons)
      ensures eventAssets == old(eventAssets) && eventTeams == old(eventTeams) && teamMembers == old(teamMembers)
    {
      if payload.None? {
        return Unprocessable;
      }
      var holders := Holders(events, eventPersons.Keys, person);
      if ev !in events {
        return NotFound;
      }
      var isOverlap := FindOverlap(events, ev, holders);
      if isOverlap {
        return Unprocessable;
      }
      eventPersons := eventPersons[(ev, person) := payload.value];
      status := Success;
    }

    /**
     * `add_team_member`: 404 without the team, then 404 without the person;
     * a new membership (active) only when none exists, an existing one left
     * as it is, even when inactive.
     */
    method AddTeamMember(team: int, member: int) returns (status: Status)
      modifies this
      ensures team !in old(teams) ==> status == NotFound && unchanged(this)
      ensures team in old(teams) && member !in old(persons) ==> status == NotFound && unchanged(this)
      ensures team in old(teams) && member in old(persons) ==>
        status == Success &&
        teamMembers == (if (team, member) in old(teamMembers) then old(teamMembers) else old(teamMembers)[(team, member) := true])
      ensures events == old(events) && assets == old(assets) && teams == old(teams) && persons == old(persons)
      ensures eventAssets == old(eventAssets) && eventTeams == old(eventTeams) && eventPersons == old(eventPersons)
    {
      if team !in teams {
        return NotFound;
      }
      if member !in persons {
        return NotFound;
      }
      if (team, member) !in teamMembers {
        teamMembers := teamMembers[(team, member) := true];
      }
      status := Success;
    }

    /** The memberships of the teams in the team table. */
    function TeamPairs(): (ps: set<(int, int)>)
      reads this
      ensures ps <= teamMembers.Keys
    {
      set p | p in teamMembers && p.0 in teams
    }

    /**
     * `read_all_team_members`: for every team in query order and every member
     * of it, the member's entry is created on first sight with that
     * membership's flag, and the team is appended to its list.
     */
    method ReadAllTeamMembers() returns (out: map<int, MemberSummary>)
      ensures Summary(out, teamMembers, TeamPairs())
    {
      var order := Enumerate(teams.Keys);
      out := map[];
      ghost var visits: seq<(int, int)> := [];
      for ti := 0 to |order|
        invariant Enumerated(visits, set p | p in teamMembers && p.0 in order[..ti])
        invariant Within(visits, teamMembers)
        invariant out == Replay(visits, teamMembers)
      {
        var t := order[ti];
        assert t !in order[..ti] by {
          forall j | 0 <= j < ti ensures order[..ti][j] != t {
            assert order[..ti][j] == order[j];
          }
        }
        ghost var covered := set p | p in teamMembers && p.0 in order[..ti];
        ghost var ms;
        out, ms := RecordTeam(teamMembers, out, t, visits);
        assert covered !! PairsOf(teamMembers, t);
        EnumeratedAppend(visits, covered, Visits(t, ms), PairsOf(teamMembers, t));
        CoverNext(teamMembers, order, ti, covered);
        visits := visits + Visits(t, ms);
      }
      assert order[..|order|] == order;
      assert (set p | p in teamMembers && p.0 in order) == TeamPairs();
      ReplaySummary(visits, teamMembers, TeamPairs());
    }
  }

  /** Replaying one more member of team `t` is one more turn of the loop body. */
  lemma ReplayNext(visits: seq<(int, int)>, t: int, ms: seq<int>, mi: nat, members: map<(int, int), bool>)
    requires mi < |ms| && forall j :: 0 <= j < |ms| ==> (t, ms[j]) in members
    requires Within(visits + Visits(t, ms[..mi]), members)
    ensures Within(visits + Visits(t, ms[..mi + 1]), members)
    ensures Replay(visits + Visits(t, ms[..mi + 1]), members)
         == Record(Replay(visits + Visits(t, ms[..mi]), members), t, ms[mi], members[(t, ms[mi])])
  {
    var done := visits + Visits(t, ms[..mi]);
    var next := visits + Visits(t, ms[..mi + 1]);
    assert next == done + [(t, ms[mi])];
    assert next[..|next| - 1] == done;
  }

  /** The memberships of team `t`. */
  function PairsOf(members: map<(int, int), bool>, t: int): (ps: set<(int, int)>)
    ensures ps <= members.Keys
    ensures forall p :: p in ps <==> p in members && p.0 == t
  {
    set p | p in members && p.0 == t
  }

  lemma CoverNext(members: map<(int, int), bool>, order: seq<int>, ti: nat, covered: set<(int, int)>)
    requires ti < |order| && covered == set p | p in members && p.0 in order[..ti]
    ensures covered + PairsOf(members, order[ti]) == set p | p in members && p.0 in order[..ti + 1]
  {
    assert order[..ti + 1] == order[..ti] + [order[ti]];
  }

  /**
   * The inner loop of the overview: the members of team `t` in query order,
   * each applied with the loop body; `ms` is that order.
   */
  method RecordTeam(members: map<(int, int), bool>, out: map<int, MemberSummary>, t: int, ghost visits: seq<(int, int)>)
    returns (out': map<int, MemberSummary>, ghost ms: seq<int>)
    requires Within(visits, members)
    requires out == Replay(visits, members)
    ensures Enumerated(Visits(t, ms), PairsOf(members, t))
    ensures Within(visits + Visits(t, ms), members)
    ensures out' == Replay(visits + Visits(t, ms), members)
  {
    var onTeam := set p | p in members && p.0 == t :: p.1;
    var order := Enumerate(onTeam);
    ms := order;
    forall j | 0 <= j < |ms| ensures (t, ms[j]) in members {
      var m := ms[j];
      assert m in onTeam;
      var p :| p in members && p.0 == t && p.1 == m;
      assert p == (t, m);
    }
    out' := out;
    assert visits + Visits(t, ms[..0]) == visits;
    for mi := 0 to |order|
      invariant Within(visits + Visits(t, ms[..mi]), members)
      invariant out' == Replay(visits + Visits(t, ms[..mi]), members)
    {
      var m := order[mi];
      ghost var before := out';
      ReplayNext(visits, t, ms, mi, members);
      if m !in out' {
        out' := out'[m := MemberSummary(members[(t, m)], [])];
      }
      out' := out'[m := out'[m].(teams := out'[m].teams + [t])];
      assert out' == Record(before, t, m, members[(t, m)]);
    }
    assert ms[..|ms|] == ms;
    assert Enumerated(Visits(t, ms), PairsOf(members, t)) by {
      var vs := Visits(t, ms);
      forall p ensures p in vs <==> p in PairsOf(members, t) {
        if p in PairsOf(members, t) {
          assert p.1 in onTeam;
          var j :| 0 <= j < |ms| && ms[j] == p.1;
          assert vs[j] == p;
        }
      }
    }
  }
}
