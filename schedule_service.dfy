/** ScheduleService.GenerateSchedules: group the selected sections by course
    name, run the realtime-filtered search over the groups, keep the schedules
    every final filter accepts, and stop after the maxPages-th one. */
module Service {
  import opened Util
  import opened Catalog
  import opened Odometer
  import opened Generator

  /** A final filter judges a whole schedule. The concrete filters are not
      part of this model; any pure predicate may stand for one. */
  type FinalFilter = seq<Course> -> bool

  /** The default cap of the service's constructor. */
  const DefaultMaxPages: int := 50

  /** Why GenerateSchedules can fail: a negative cap is refused as the initial
      capacity of the result list. */
  datatype ServiceError = NegativeCapacity

  // ----- Grouping by name (GroupBy(c => c.Name)) -----

  /** The distinct names of the courses, in order of first appearance. */
  function Names(cs: seq<Course>): seq<string>
  {
    if |cs| == 0 then []
    else
      var prev := Names(cs[..|cs| - 1]);
      var name := cs[|cs| - 1].name;
      if name in prev then prev else prev + [name]
  }

  /** The courses with the given name, in input order. */
  function WithName(cs: seq<Course>, name: string): seq<Course>
  {
    if |cs| == 0 then []
    else WithName(cs[..|cs| - 1], name) + (if cs[|cs| - 1].name == name then [cs[|cs| - 1]] else [])
  }

  /** One group per distinct name, in order of first appearance. */
  function GroupByName(cs: seq<Course>): seq<seq<Course>>
  {
    seq(|Names(cs)|, i requires 0 <= i < |Names(cs)| => WithName(cs, Names(cs)[i]))
  }

  /** The concatenation of a list of groups. */
  function Flatten(gs: seq<seq<Course>>): seq<Course>
  {
    if |gs| == 0 then [] else Flatten(gs[..|gs| - 1]) + gs[|gs| - 1]
  }

  /** A name is listed exactly when some course carries it. */
  lemma {:induction false} NamesComplete(cs: seq<Course>, name: string)
    ensures name in Names(cs) <==> exists i :: 0 <= i < |cs| && cs[i].name == name
    decreases |cs|
  {
    if |cs| > 0 {
      var init := cs[..|cs| - 1];
      NamesComplete(init, name);
      if exists i :: 0 <= i < |cs| && cs[i].name == name {
        var i :| 0 <= i < |cs| && cs[i].name == name;
        if i < |init| {
          assert init[i].name == name;
        }
      }
      if exists i :: 0 <= i < |init| && init[i].name == name {
        var i :| 0 <= i < |init| && init[i].name == name;
        assert cs[i].name == name;
      }
    }
  }

  /** No name is listed twice. */
  lemma {:induction false} NamesDistinct(cs: seq<Course>)
    ensures NoDup(Names(cs))
    decreases |cs|
  {
    if |cs| > 0 {
      var init := cs[..|cs| - 1];
      NamesDistinct(init);
      NoDupSnoc(Names(init), cs[|cs| - 1].name);
    }
  }

  /** First-seen order: the names of a prefix of the input are a prefix of the
      names of the whole input. */
  lemma {:induction false} NamesFirstSeen(cs: seq<Course>, k: nat)
    requires k <= |cs|
    ensures Names(cs[..k]) <= Names(cs)
    decreases |cs|
  {
    if k < |cs| {
      var init := cs[..|cs| - 1];
      assert init[..k] == cs[..k];
      NamesFirstSeen(init, k);
    } else {
      assert cs[..k] == cs;
    }
  }

  /** WithName keeps exactly the courses of that name, with their multiplicity. */
  lemma {:induction false} WithNameCount(cs: seq<Course>, name: string, c: Course)
    ensures multiset(WithName(cs, name))[c] == if c.name == name then multiset(cs)[c] else 0
    decreases |cs|
  {
    if |cs| > 0 {
      var init := cs[..|cs| - 1];
      WithNameCount(init, name, c);
      assert cs == init + [cs[|cs| - 1]];
    }
  }

  lemma WithNameNonEmpty(cs: seq<Course>, name: string)
    requires exists i :: 0 <= i < |cs| && cs[i].name == name
    ensures |WithName(cs, name)| > 0
  {
    var i :| 0 <= i < |cs| && cs[i].name == name;
    WithNameCount(cs, name, cs[i]);
  }

  /** Every group is non-empty and holds courses of one name only, the name
      it is listed under. */
  lemma GroupsWellFormed(cs: seq<Course>)
    ensures |GroupByName(cs)| == |Names(cs)|
    ensures forall i :: 0 <= i < |GroupByName(cs)| ==> |GroupByName(cs)[i]| > 0
    ensures forall i, c :: 0 <= i < |GroupByName(cs)| && c in GroupByName(cs)[i] ==> c.name == Names(cs)[i]
  {
    var g := GroupByName(cs);
    forall i | 0 <= i < |g| ensures |g[i]| > 0 {
      NamesComplete(cs, Names(cs)[i]);
      WithNameNonEmpty(cs, Names(cs)[i]);
    }
    forall i, c: Course | 0 <= i < |g| && c in g[i] ensures c.name == Names(cs)[i] {
      WithNameCount(cs, Names(cs)[i], c);
    }
  }

  /** The groups of any input are a valid input for the generator. */
  lemma GroupsPositive(cs: seq<Course>)
    ensures Positive(Sizes(GroupByName(cs)))
  {
    GroupsWellFormed(cs);
  }

  lemma {:induction false} FlattenCount(gs: seq<seq<Course>>, c: Course, names: seq<string>)
    requires |gs| == |names| && NoDup(names)
    requires forall i, d :: 0 <= i < |gs| && d in gs[i] ==> d.name == names[i]
    ensures multiset(Flatten(gs))[c] ==
      if c.name in names then multiset(gs[IndexOf(names, c.name)])[c] else 0
    decreases |gs|
  {
    if |gs| > 0 {
      var n := |gs| - 1;
      NoDupPrefix(names[..n], names);
      FlattenCount(gs[..n], c, names[..n]);
      if c.name in names[..n] {
        IndexOfPrefix(names, n, c.name);
        assert names[IndexOf(names, c.name)] != names[n];
      } else if c.name in names {
        assert IndexOf(names, c.name) == n;
      }
    }
  }

  /** The position of a listed element. */
  function IndexOf(s: seq<string>, x: string): (k: nat)
    requires x in s
    ensures k < |s| && s[k] == x
  {
    if s[0] == x then 0 else 1 + IndexOf(s[1..], x)
  }

  lemma {:induction false} IndexOfPrefix(s: seq<string>, n: nat, x: string)
    requires n <= |s| && x in s[..n]
    ensures IndexOf(s[..n], x) == IndexOf(s, x)
    decreases n
  {
    if s[0] != x {
      assert s[..n][1..] == s[1..][..n - 1];
      IndexOfPrefix(s[1..], n - 1, x);
    }
  }

  /** Every input course lands in exactly one group: taken together, the
      groups are a rearrangement of the input. */
  lemma GroupsPartition(cs: seq<Course>)
    ensures multiset(Flatten(GroupByName(cs))) == multiset(cs)
  {
    var g := GroupByName(cs);
    var names := Names(cs);
    GroupsWellFormed(cs);
    NamesDistinct(cs);
    forall c: Course ensures multiset(Flatten(g))[c] == multiset(cs)[c] {
      FlattenCount(g, c, names);
      NamesComplete(cs, c.name);
      WithNameCount(cs, c.name, c);
    }
  }

  // ----- Final filters and the cap -----

  /** Every final filter accepts the schedule (the negation of
      finalFilters.Any(f => !f.Apply(schedule))). */
  predicate AcceptsFinal(finals: seq<FinalFilter>, s: seq<Course>) {
    forall j :: 0 <= j < |finals| ==> finals[j](s)
  }

  /** The schedules every final filter accepts, in generator order. */
  function FinalAccepted(all: seq<seq<Course>>, finals: seq<FinalFilter>): seq<seq<Course>>
  {
    if |all| == 0 then []
    else
      var s := all[|all| - 1];
      FinalAccepted(all[..|all| - 1], finals) + (if AcceptsFinal(finals, s) then [s] else [])
  }

  /** The number of results at which the loop stops: the check comes after the
      add, so a cap below one still lets one schedule through. */
  function Cap(maxPages: int): nat {
    if maxPages < 1 then 1 else maxPages
  }

  /** The first Cap(maxPages) accepted schedules. */
  function Capped(all: seq<seq<Course>>, finals: seq<FinalFilter>, maxPages: int): seq<seq<Course>>
  {
    var fa := FinalAccepted(all, finals);
    fa[..Min(|fa|, Cap(maxPages))]
  }

  /** Final filtering keeps exactly the accepted schedules, in order. */
  lemma {:induction false} FinalAcceptedSound(all: seq<seq<Course>>, finals: seq<FinalFilter>, s: seq<Course>)
    ensures s in FinalAccepted(all, finals) <==> s in all && AcceptsFinal(finals, s)
    decreases |all|
  {
    if |all| > 0 {
      var init := all[..|all| - 1];
      FinalAcceptedSound(init, finals, s);
      assert all == init + [all[|all| - 1]];
    }
  }

  /** Filtering a prefix of the schedules gives a prefix of the result. */
  lemma {:induction false} FinalAcceptedPrefix(all: seq<seq<Course>>, finals: seq<FinalFilter>, k: nat)
    requires k <= |all|
    ensures FinalAccepted(all[..k], finals) <= FinalAccepted(all, finals)
    decreases |all|
  {
    if k < |all| {
      var init := all[..|all| - 1];
      assert init[..k] == all[..k];
      FinalAcceptedPrefix(init, finals, k);
    } else {
      assert all[..k] == all;
    }
  }

  /** With no final filters, everything is accepted. */
  lemma {:induction false} NoFinalsAcceptAll(all: seq<seq<Course>>)
    ensures FinalAccepted(all, []) == all
    decreases |all|
  {
    if |all| > 0 {
      NoFinalsAcceptAll(all[..|all| - 1]);
    }
  }

  /** The cap: the result is a prefix of the accepted schedules, all of them
      when there are fewer than the cap, and never more than maxPages of them
      when maxPages is at least one. */
  lemma CappedBounds(all: seq<seq<Course>>, finals: seq<FinalFilter>, maxPages: int)
    ensures Capped(all, finals, maxPages) <= FinalAccepted(all, finals)
    ensures |FinalAccepted(all, finals)| <= Cap(maxPages) ==>
      Capped(all, finals, maxPages) == FinalAccepted(all, finals)
    ensures maxPages >= 1 ==> |Capped(all, finals, maxPages)| <= maxPages
    ensures |Capped(all, finals, maxPages)| == Min(|FinalAccepted(all, finals)|, Cap(maxPages))
  {
  }

  /** What GenerateSchedules returns for a non-empty selection and a valid cap. */
  function Scheduled(cs: seq<Course>, realtime: seq<RealtimeFilter>, finals: seq<FinalFilter>, maxPages: int)
    : seq<seq<Course>>
  {
    GroupsPositive(cs);
    Capped(Generated(GroupByName(cs), realtime), finals, maxPages)
  }

  /** Under the constructor's default cap at most 50 schedules come back,
      and fewer only when fewer pass the final filters. */
  lemma DefaultCapBounds(cs: seq<Course>, realtime: seq<RealtimeFilter>, finals: seq<FinalFilter>)
    ensures Positive(Sizes(GroupByName(cs))) &&
      |Scheduled(cs, realtime, finals, DefaultMaxPages)| ==
        Min(|FinalAccepted(Generated(GroupByName(cs), realtime), finals)|, 50)
  {
    GroupsPositive(cs);
    CappedBounds(Generated(GroupByName(cs), realtime), finals, DefaultMaxPages);
  }

  /** Every returned schedule takes one section of each selected course name,
      passes the realtime filters and every final filter. */
  lemma ScheduledSound(cs: seq<Course>, realtime: seq<RealtimeFilter>, finals: seq<FinalFilter>,
                       maxPages: int, s: seq<Course>)
    requires |cs| > 0 && s in Scheduled(cs, realtime, finals, maxPages)
    ensures RealtimeOk(realtime, s) && AcceptsFinal(finals, s)
    ensures |s| == |Names(cs)|
    ensures forall i :: 0 <= i < |s| ==> s[i] in cs && s[i].name == Names(cs)[i]
  {
    var g := GroupByName(cs);
    GroupsPositive(cs);
    GroupsWellFormed(cs);
    var all := Generated(g, realtime);
    CappedBounds(all, finals, maxPages);
    assert s in FinalAccepted(all, finals);
    FinalAcceptedSound(all, finals, s);
    NamesComplete(cs, cs[0].name);
    var k :| 0 <= k < |all| && all[k] == s;
    GeneratedMembers(g, realtime, s);
    GeneratedShape(g, realtime, k);
    forall i | 0 <= i < |s| ensures s[i] in cs && s[i].name == Names(cs)[i] {
      WithNameCount(cs, Names(cs)[i], s[i]);
    }
  }

  // ----- The service -----

  /** The loop of GenerateSchedules over the generated schedules: skip those
      a final filter rejects, add the others, and stop once the list holds
      maxPages of them. */
  method TakeAccepted(all: seq<seq<Course>>, finals: seq<FinalFilter>, maxPages: int)
    returns (list: seq<seq<Course>>)
    ensures list == Capped(all, finals, maxPages)
  {
    list := [];
    var i := 0;
    while i < |all|
      invariant 0 <= i <= |all|
      invariant list == FinalAccepted(all[..i], finals)
      invariant |list| < Cap(maxPages)
    {
      var s := all[i];
      assert all[..i + 1][..i] == all[..i];
      i := i + 1;
      if !AcceptsFinal(finals, s) {
        continue;
      }
      list := list + [s];
      if |list| >= maxPages {
        FinalAcceptedPrefix(all, finals, i);
        return;
      }
    }
    assert all[..i] == all;
  }

  /** ScheduleService.GenerateSchedules. `selected` is None for a null list. */
  method GenerateSchedules(maxPages: int, selected: Option<seq<Course>>,
                           realtime: seq<RealtimeFilter>, finals: seq<FinalFilter>)
    returns (result: Result<seq<seq<Course>>, ServiceError>)
    ensures selected.None? || |selected.value| == 0 ==> result == Success([])
    ensures selected.Some? && |selected.value| > 0 && maxPages < 0 ==> result == Failure(NegativeCapacity)
    ensures selected.Some? && |selected.value| > 0 && maxPages >= 0 ==>
      result == Success(Scheduled(selected.value, realtime, finals, maxPages))
  {
    if selected.None? || |selected.value| == 0 {
      return Success([]);
    }
    var cs := selected.value;
    var groups := GroupByName(cs);
    GroupsPositive(cs);
    if maxPages < 0 {
      return Failure(NegativeCapacity);
    }
    var all, _ := Generate(groups, realtime);
    var list := TakeAccepted(all, finals, maxPages);
    return Success(list);
  }
}
