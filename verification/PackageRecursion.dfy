/**
 The recursion of `require` and `build` as a function of a depth bound, and exactly when it ends.
 */
module PackageRecursion {
  import opened Basics
  import opened PackageRepository
  import opened PackageGraph

  /** How a call ends: normally, or with the error the source raises. */
  datatype Outcome =
    | Done
    | Missing(pkg: Id)
    | NothingToBuild
    | NotBuilt(pkg: Id)
    | SubmoduleFailed(group: nat)
    | BuildFailed(group: nat)

  /** What a call that ends leaves behind. */
  datatype End = End(outcome: Outcome, repo: set<Id>)

  // ----- The recursion, cut off at a depth ---------------------------------------------------

  /** A call of `require`; nothing if it nests calls of itself deeper than `fuel`. */
  ghost function RequireN(groups: seq<Group>, repo: set<Id>, p: Id, force: bool, buildMissing: bool,
                          skipMissing: bool, fuel: nat): Option<End>
    decreases fuel, 3
  {
    if fuel == 0 then None
    else if !Known(groups, p) then Some(End(if skipMissing then Done else Missing(p), repo))
    else
      var r := if force || (p !in repo && buildMissing) then BuildN(groups, repo, p, false, false, 0, false, fuel)
               else if p in repo then BuildN(groups, repo, p, false, true, 0, false, fuel)
               else Some(End(Done, repo));
      if r.Some? && r.value.outcome.Done? && p !in r.value.repo then Some(End(NotBuilt(p), r.value.repo)) else r
  }

  /** The loop of `build` from group `i` on. */
  ghost function BuildN(groups: seq<Group>, repo: set<Id>, p: Id, filtered: bool, prereqsOnly: bool,
                        i: nat, built: bool, fuel: nat): Option<End>
    requires i <= |groups| && fuel > 0
    decreases fuel, 2, |groups| - i
  {
    if i == |groups| then Some(End(if built then Done else Missing(p), repo))
    else if p !in groups[i].packages || (filtered && groups[i].filtered) then
      BuildN(groups, repo, p, filtered, prereqsOnly, i + 1, built, fuel)
    else
      var r := OneN(groups, repo, i, prereqsOnly, fuel);
      if r.None? || !r.value.outcome.Done? then r
      else BuildN(groups, r.value.repo, p, filtered, prereqsOnly, i + 1, true, fuel)
  }

  /** What `build` does for group `g`. */
  ghost function OneN(groups: seq<Group>, repo: set<Id>, g: nat, prereqsOnly: bool, fuel: nat): Option<End>
    requires g < |groups| && fuel > 0
    decreases fuel, 1
  {
    if !prereqsOnly && !groups[g].submodules then Some(End(SubmoduleFailed(g), repo))
    else
      var r := PrerequisitesN(groups, repo, groups[g].prerequisites, fuel);
      if r.None? || !r.value.outcome.Done? || prereqsOnly then r
      else if groups[g].products.None? then Some(End(BuildFailed(g), r.value.repo))
      else Some(End(Done, r.value.repo + ProductIds(groups[g])))
  }

  /** The loop over the prerequisites. */
  ghost function PrerequisitesN(groups: seq<Group>, repo: set<Id>, prereqs: seq<Id>, fuel: nat): Option<End>
    requires fuel > 0
    decreases fuel, 0, |prereqs|
  {
    if prereqs == [] then Some(End(Done, repo))
    else
      var r := RequireN(groups, repo, prereqs[0], false, true, false, fuel - 1);
      if r.None? || !r.value.outcome.Done? then r else PrerequisitesN(groups, r.value.repo, prereqs[1..], fuel)
  }

  // ----- Acyclic graphs: it ends -------------------------------------------------------------

  /** Deep enough for every package that `p` leads to. */
  ghost predicate DeepEnough(groups: seq<Group>, p: Id, fuel: nat) {
    AcyclicFrom(groups, p) && fuel > |Reach(groups, p)|
  }

  lemma DeepEnoughBehind(groups: seq<Group>, p: Id, q: Id, fuel: nat)
    requires DeepEnough(groups, p, fuel) && Edge(groups, p, q)
    ensures DeepEnough(groups, q, fuel - 1)
  {
    ReachShrinks(groups, p, q);
    SmallerSet(Reach(groups, q), Reach(groups, p));
  }

  lemma {:induction false} RequireEnds(groups: seq<Group>, repo: set<Id>, p: Id, force: bool, buildMissing: bool,
                                       skipMissing: bool, fuel: nat)
    requires DeepEnough(groups, p, fuel)
    ensures RequireN(groups, repo, p, force, buildMissing, skipMissing, fuel).Some?
    decreases fuel, 3
  {
    if Known(groups, p) {
      BuildEnds(groups, repo, p, false, false, 0, false, fuel);
      BuildEnds(groups, repo, p, false, true, 0, false, fuel);
    }
  }

  lemma {:induction false} BuildEnds(groups: seq<Group>, repo: set<Id>, p: Id, filtered: bool, prereqsOnly: bool,
                                     i: nat, built: bool, fuel: nat)
    requires DeepEnough(groups, p, fuel) && i <= |groups|
    ensures BuildN(groups, repo, p, filtered, prereqsOnly, i, built, fuel).Some?
    decreases fuel, 2, |groups| - i
  {
    hide Reach, AcyclicFrom, OneN;
    if i < |groups| {
      if p !in groups[i].packages || (filtered && groups[i].filtered) {
        BuildEnds(groups, repo, p, filtered, prereqsOnly, i + 1, built, fuel);
      } else {
        OneEnds(groups, repo, p, i, prereqsOnly, fuel);
        var r := OneN(groups, repo, i, prereqsOnly, fuel).value;
        if r.outcome.Done? {
          BuildEnds(groups, r.repo, p, filtered, prereqsOnly, i + 1, true, fuel);
        }
      }
    }
  }

  lemma {:induction false} OneEnds(groups: seq<Group>, repo: set<Id>, p: Id, g: nat, prereqsOnly: bool, fuel: nat)
    requires DeepEnough(groups, p, fuel) && g < |groups| && p in groups[g].packages
    ensures OneN(groups, repo, g, prereqsOnly, fuel).Some?
    decreases fuel, 1
  {
    forall q | q in groups[g].prerequisites ensures Edge(groups, p, q) {
    }
    PrerequisitesEnd(groups, repo, p, groups[g].prerequisites, fuel);
  }

  lemma {:induction false} PrerequisitesEnd(groups: seq<Group>, repo: set<Id>, p: Id, prereqs: seq<Id>, fuel: nat)
    requires DeepEnough(groups, p, fuel) && forall q :: q in prereqs ==> Edge(groups, p, q)
    ensures PrerequisitesN(groups, repo, prereqs, fuel).Some?
    decreases fuel, 0, |prereqs|
  {
    hide DeepEnough, Edge, RequireN;
    if prereqs != [] {
      DeepEnoughBehind(groups, p, prereqs[0], fuel);
      RequireEnds(groups, repo, prereqs[0], false, true, false, fuel - 1);
      var r := RequireN(groups, repo, prereqs[0], false, true, false, fuel - 1).value;
      if r.outcome.Done? {
        PrerequisitesEnd(groups, r.repo, p, prereqs[1..], fuel);
      }
    }
  }

  // ----- Complete graphs: what ends has succeeded --------------------------------------------

  lemma ScopeBehind(groups: seq<Group>, p: Id, q: Id)
    requires Edge(groups, p, q)
    ensures Scope(groups, q) <= Scope(groups, p)
    ensures Complete(groups, p) ==> Complete(groups, q)
  {
    EdgeReaches(groups, p, q);
    forall r | r in Reach(groups, q) ensures r in Reach(groups, p) {
      ReachesTransitive(groups, p, q, r);
    }
  }

  /** The call builds, or at least visits the prerequisites. */
  predicate Recurses(repo: set<Id>, p: Id, force: bool, buildMissing: bool) {
    force || buildMissing || p in repo
  }

  lemma {:induction false} RequireSucceeds(groups: seq<Group>, repo: set<Id>, p: Id, force: bool, buildMissing: bool,
                                           skipMissing: bool, fuel: nat)
    requires Complete(groups, p) && Recurses(repo, p, force, buildMissing)
    ensures var r := RequireN(groups, repo, p, force, buildMissing, skipMissing, fuel);
            r.Some? ==> r.value.outcome.Done? && repo <= r.value.repo
    decreases fuel, 3
  {
    hide Complete, BuildN;
    if fuel > 0 {
      KnownWhenComplete(groups, p);
      var g :| 0 <= g < |groups| && p in groups[g].packages;
      BuildSucceeds(groups, repo, p, false, 0, false, fuel);
      BuildSucceeds(groups, repo, p, true, 0, false, fuel);
    }
  }

  lemma KnownWhenComplete(groups: seq<Group>, p: Id)
    requires Complete(groups, p)
    ensures Known(groups, p) && exists g :: 0 <= g < |groups| && p in groups[g].packages
  {
    assert p in Scope(groups, p);
    var g :| g in groups && p in g.packages;
    var i :| 0 <= i < |groups| && groups[i] == g;
  }

  lemma {:induction false} BuildSucceeds(groups: seq<Group>, repo: set<Id>, p: Id, prereqsOnly: bool,
                                         i: nat, built: bool, fuel: nat)
    requires Complete(groups, p) && i <= |groups| && fuel > 0
    ensures var r := BuildN(groups, repo, p, false, prereqsOnly, i, built, fuel);
            var ahead := exists j :: i <= j < |groups| && p in groups[j].packages;
            r.Some? && (built || ahead) ==>
              && r.value.outcome.Done? && repo <= r.value.repo
              && (ahead && !prereqsOnly ==> p in r.value.repo)
    decreases fuel, 2, |groups| - i
  {
    hide Complete, OneN;
    if i < |groups| {
      if p !in groups[i].packages {
        BuildSucceeds(groups, repo, p, prereqsOnly, i + 1, built, fuel);
      } else {
        OneSucceeds(groups, repo, p, i, prereqsOnly, fuel);
        var r := OneN(groups, repo, i, prereqsOnly, fuel);
        if r.Some? {
          BuildSucceeds(groups, r.value.repo, p, prereqsOnly, i + 1, true, fuel);
        }
      }
    }
  }

  lemma {:induction false} OneSucceeds(groups: seq<Group>, repo: set<Id>, p: Id, g: nat, prereqsOnly: bool, fuel: nat)
    requires Complete(groups, p) && g < |groups| && p in groups[g].packages && fuel > 0
    ensures var r := OneN(groups, repo, g, prereqsOnly, fuel);
            r.Some? ==>
              && r.value.outcome.Done? && repo <= r.value.repo
              && (!prereqsOnly ==> p in r.value.repo)
    decreases fuel, 1
  {
    assert p in Scope(groups, p) && groups[g] in groups;
    forall q | q in groups[g].prerequisites ensures Edge(groups, p, q) {
    }
    PrerequisitesSucceed(groups, repo, p, groups[g].prerequisites, fuel);
  }

  lemma {:induction false} PrerequisitesSucceed(groups: seq<Group>, repo: set<Id>, p: Id, prereqs: seq<Id>, fuel: nat)
    requires Complete(groups, p) && fuel > 0 && forall q :: q in prereqs ==> Edge(groups, p, q)
    ensures var r := PrerequisitesN(groups, repo, prereqs, fuel);
            r.Some? ==> r.value.outcome.Done? && repo <= r.value.repo
    decreases fuel, 0, |prereqs|
  {
    hide Complete, Edge, RequireN;
    if prereqs != [] {
      ScopeBehind(groups, p, prereqs[0]);
      RequireSucceeds(groups, repo, prereqs[0], false, true, false, fuel - 1);
      var r := RequireN(groups, repo, prereqs[0], false, true, false, fuel - 1);
      if r.Some? {
        PrerequisitesSucceed(groups, r.value.repo, p, prereqs[1..], fuel);
      }
    }
  }

  // ----- Cycles ahead: it does not end -------------------------------------------------------

  /** A cycle ahead of a package is ahead of one of its prerequisites. */
  lemma CycleBehind(groups: seq<Group>, p: Id) returns (q: Id)
    requires !AcyclicFrom(groups, p)
    ensures Edge(groups, p, q) && !AcyclicFrom(groups, q)
  {
    var c :| c in Scope(groups, p) && Reaches(groups, c, c);
    ReachesIsReach(groups, c, c);
    q := ReachSplits(groups, p, c);
  }

  lemma {:induction false} RequireNeverEnds(groups: seq<Group>, repo: set<Id>, p: Id, force: bool, buildMissing: bool,
                                            skipMissing: bool, fuel: nat)
    requires Complete(groups, p) && Recurses(repo, p, force, buildMissing) && !AcyclicFrom(groups, p)
    ensures RequireN(groups, repo, p, force, buildMissing, skipMissing, fuel).None?
    decreases fuel, 3
  {
    hide Complete, BuildN, AcyclicFrom;
    if fuel > 0 {
      KnownWhenComplete(groups, p);
      var q := CycleBehind(groups, p);
      var g :| g in groups && p in g.packages && q in g.prerequisites;
      var k :| 0 <= k < |groups| && groups[k] == g;
      BuildNeverEnds(groups, repo, p, false, 0, false, fuel, k, q);
      BuildNeverEnds(groups, repo, p, true, 0, false, fuel, k, q);
    }
  }

  lemma {:induction false} BuildNeverEnds(groups: seq<Group>, repo: set<Id>, p: Id, prereqsOnly: bool,
                                          i: nat, built: bool, fuel: nat, k: nat, q: Id)
    requires Complete(groups, p) && fuel > 0 && !AcyclicFrom(groups, q)
    requires i <= k < |groups| && p in groups[k].packages && q in groups[k].prerequisites
    ensures BuildN(groups, repo, p, false, prereqsOnly, i, built, fuel).None?
    decreases fuel, 2, |groups| - i
  {
    hide Complete, OneN, AcyclicFrom;
    if p !in groups[i].packages {
      BuildNeverEnds(groups, repo, p, prereqsOnly, i + 1, built, fuel, k, q);
    } else if i == k {
      OneNeverEnds(groups, repo, p, k, prereqsOnly, fuel, q);
    } else {
      OneSucceeds(groups, repo, p, i, prereqsOnly, fuel);
      var r := OneN(groups, repo, i, prereqsOnly, fuel);
      if r.Some? {
        BuildNeverEnds(groups, r.value.repo, p, prereqsOnly, i + 1, true, fuel, k, q);
      }
    }
  }

  lemma {:induction false} OneNeverEnds(groups: seq<Group>, repo: set<Id>, p: Id, g: nat, prereqsOnly: bool,
                                        fuel: nat, q: Id)
    requires Complete(groups, p) && fuel > 0 && !AcyclicFrom(groups, q)
    requires g < |groups| && p in groups[g].packages && q in groups[g].prerequisites
    ensures OneN(groups, repo, g, prereqsOnly, fuel).None?
    decreases fuel, 1
  {
    assert p in Scope(groups, p) && groups[g] in groups;
    forall r | r in groups[g].prerequisites ensures Edge(groups, p, r) {
    }
    PrerequisitesNeverEnd(groups, repo, p, groups[g].prerequisites, fuel, q);
  }

  lemma {:induction false} PrerequisitesNeverEnd(groups: seq<Group>, repo: set<Id>, p: Id, prereqs: seq<Id>,
                                                 fuel: nat, q: Id)
    requires Complete(groups, p) && fuel > 0 && forall r :: r in prereqs ==> Edge(groups, p, r)
    requires q in prereqs && !AcyclicFrom(groups, q)
    ensures PrerequisitesN(groups, repo, prereqs, fuel).None?
    decreases fuel, 0, |prereqs|
  {
    hide Complete, Edge, RequireN, AcyclicFrom;
    ScopeBehind(groups, p, prereqs[0]);
    if prereqs[0] == q {
      RequireNeverEnds(groups, repo, q, false, true, false, fuel - 1);
    } else {
      RequireSucceeds(groups, repo, prereqs[0], false, true, false, fuel - 1);
      var r := RequireN(groups, repo, prereqs[0], false, true, false, fuel - 1);
      if r.Some? {
        PrerequisitesNeverEnd(groups, r.value.repo, p, prereqs[1..], fuel, q);
      }
    }
  }

  // ----- Exactly when it ends ----------------------------------------------------------------

  ghost predicate Ends(groups: seq<Group>, repo: set<Id>, p: Id, force: bool, buildMissing: bool, skipMissing: bool) {
    exists fuel: nat :: RequireN(groups, repo, p, force, buildMissing, skipMissing, fuel).Some?
  }

  /**
   Where every package ahead is declared and every build yields it, a call ends exactly when no package ahead
   leads back to itself, or when it has nothing to do but to report that the package is not built.
   */
  lemma RequireEndsIffAcyclic(groups: seq<Group>, repo: set<Id>, p: Id, force: bool, buildMissing: bool,
                              skipMissing: bool)
    requires Complete(groups, p)
    ensures Ends(groups, repo, p, force, buildMissing, skipMissing)
       <==> AcyclicFrom(groups, p) || !Recurses(repo, p, force, buildMissing)
  {
    hide AcyclicFrom, Complete, BuildN;
    if AcyclicFrom(groups, p) {
      RequireEndsWhenAcyclic(groups, repo, p, force, buildMissing, skipMissing);
    } else if Recurses(repo, p, force, buildMissing) {
      forall fuel: nat ensures RequireN(groups, repo, p, force, buildMissing, skipMissing, fuel).None? {
        RequireNeverEnds(groups, repo, p, force, buildMissing, skipMissing, fuel);
      }
    } else {
      assert RequireN(groups, repo, p, force, buildMissing, skipMissing, 1).Some?;
    }
  }

  /** Without a cycle ahead every call ends, whatever is missing or fails. */
  lemma RequireEndsWhenAcyclic(groups: seq<Group>, repo: set<Id>, p: Id, force: bool, buildMissing: bool,
                               skipMissing: bool)
    requires AcyclicFrom(groups, p)
    ensures Ends(groups, repo, p, force, buildMissing, skipMissing)
  {
    RequireEnds(groups, repo, p, force, buildMissing, skipMissing, |Reach(groups, p)| + 1);
  }

  /** Two packages, each in a group of its own that needs the other. */
  function MutualNeed(a: Deb, b: Deb): seq<Group> {
    [Group([a.id], [b.id], false, true, Some([a])),
     Group([b.id], [a.id], false, true, Some([b]))]
  }

  /** No call that builds the one ever ends. */
  lemma MutualNeedNeverEnds(a: Deb, b: Deb, repo: set<Id>, fuel: nat)
    requires a.id != b.id
    ensures RequireN(MutualNeed(a, b), repo, a.id, false, true, false, fuel).None?
  {
    var groups := MutualNeed(a, b);
    assert Edge(groups, a.id, b.id) && Edge(groups, b.id, a.id) by {
      assert groups[0] in groups && groups[1] in groups;
    }
    EdgeReaches(groups, a.id, b.id);
    EdgeReaches(groups, b.id, a.id);
    ReachesTransitive(groups, a.id, b.id, a.id);
    assert a.id in Scope(groups, a.id);
    assert Complete(groups, a.id) by {
      MutualNeedIsComplete(a, b);
    }
    RequireNeverEnds(groups, repo, a.id, false, true, false, fuel);
  }

  lemma MutualNeedIsComplete(a: Deb, b: Deb)
    requires a.id != b.id
    ensures Complete(MutualNeed(a, b), a.id)
  {
    var groups := MutualNeed(a, b);
    forall q | q in Scope(groups, a.id) ensures Known(groups, q) {
      assert q == a.id || q == b.id;
      assert groups[0] in groups && groups[1] in groups;
    }
  }

  /** Elsewhere a cycle ahead need not be reached: here the first prerequisite is missing. */
  lemma CycleBehindAnErrorEnds(p: Id, m: Id, products: Option<seq<Deb>>, repo: set<Id>)
    requires m != p
    ensures var groups := [Group([p], [m, p], false, true, products)];
            && !AcyclicFrom(groups, p)
            && RequireN(groups, repo, p, true, false, false, 2) == Some(End(Missing(m), repo))
  {
    var groups := [Group([p], [m, p], false, true, products)];
    assert groups[0] in groups;
    assert Edge(groups, p, p);
    EdgeReaches(groups, p, p);
    assert p in Scope(groups, p);
    assert RequireN(groups, repo, m, false, true, false, 1) == Some(End(Missing(m), repo));
    assert PrerequisitesN(groups, repo, [m, p], 2) == Some(End(Missing(m), repo));
  }

  // ----- What the methods compute ------------------------------------------------------------

  /** At every depth that is enough, a call of `require` is this one. */
  ghost predicate RequireIs(groups: seq<Group>, repo: set<Id>, p: Id, force: bool, buildMissing: bool,
                            skipMissing: bool, end: End) {
    forall fuel: nat :: DeepEnough(groups, p, fuel) ==>
      RequireN(groups, repo, p, force, buildMissing, skipMissing, fuel) == Some(end)
  }

  ghost predicate BuildIs(groups: seq<Group>, repo: set<Id>, p: Id, filtered: bool, prereqsOnly: bool,
                          i: nat, built: bool, end: End)
    requires i <= |groups|
  {
    forall fuel: nat :: DeepEnough(groups, p, fuel) ==>
      BuildN(groups, repo, p, filtered, prereqsOnly, i, built, fuel) == Some(end)
  }

  /** The loop has come from its start to group `i`. */
  ghost predicate BuildAt(groups: seq<Group>, repo0: set<Id>, p: Id, filtered: bool, prereqsOnly: bool,
                          repo: set<Id>, i: nat, built: bool)
    requires i <= |groups|
  {
    forall fuel: nat :: DeepEnough(groups, p, fuel) ==>
      BuildN(groups, repo0, p, filtered, prereqsOnly, 0, false, fuel)
      == BuildN(groups, repo, p, filtered, prereqsOnly, i, built, fuel)
  }

  ghost predicate OneIs(groups: seq<Group>, repo: set<Id>, p: Id, g: nat, prereqsOnly: bool, end: End)
    requires g < |groups|
  {
    forall fuel: nat :: DeepEnough(groups, p, fuel) ==> OneN(groups, repo, g, prereqsOnly, fuel) == Some(end)
  }

  ghost predicate PrerequisitesAre(groups: seq<Group>, repo: set<Id>, p: Id, prereqs: seq<Id>, end: End) {
    forall fuel: nat :: DeepEnough(groups, p, fuel) ==> PrerequisitesN(groups, repo, prereqs, fuel) == Some(end)
  }

  /** The loop over the prerequisites has come to those that are left. */
  ghost predicate PrerequisitesAt(groups: seq<Group>, repo0: set<Id>, p: Id, prereqs: seq<Id>,
                                  repo: set<Id>, rest: seq<Id>) {
    forall fuel: nat :: DeepEnough(groups, p, fuel) ==>
      PrerequisitesN(groups, repo0, prereqs, fuel) == PrerequisitesN(groups, repo, rest, fuel)
  }

  lemma NextPrerequisite(groups: seq<Group>, repo0: set<Id>, p: Id, prereqs: seq<Id>, repo: set<Id>, rest: seq<Id>,
                         end: End)
    requires PrerequisitesAt(groups, repo0, p, prereqs, repo, rest)
    requires rest != [] && Edge(groups, p, rest[0])
    requires RequireIs(groups, repo, rest[0], false, true, false, end)
    ensures end.outcome.Done? ==> PrerequisitesAt(groups, repo0, p, prereqs, end.repo, rest[1..])
    ensures !end.outcome.Done? ==> PrerequisitesAre(groups, repo0, p, prereqs, end)
  {
    hide Edge, RequireN, DeepEnough;
    forall fuel: nat | DeepEnough(groups, p, fuel)
      ensures fuel > 0 && PrerequisitesN(groups, repo0, prereqs, fuel) ==
              if end.outcome.Done? then PrerequisitesN(groups, end.repo, rest[1..], fuel) else Some(end)
    {
      DeepEnoughBehind(groups, p, rest[0], fuel);
    }
  }

  lemma NoPrerequisiteLeft(groups: seq<Group>, repo0: set<Id>, p: Id, prereqs: seq<Id>, repo: set<Id>)
    requires PrerequisitesAt(groups, repo0, p, prereqs, repo, [])
    ensures PrerequisitesAre(groups, repo0, p, prereqs, End(Done, repo))
  {
  }

  lemma OneAfterPrerequisites(groups: seq<Group>, repo: set<Id>, p: Id, g: nat, prereqsOnly: bool, end: End)
    requires g < |groups| && (prereqsOnly || groups[g].submodules)
    requires PrerequisitesAre(groups, repo, p, groups[g].prerequisites, end)
    ensures OneIs(groups, repo, p, g, prereqsOnly,
                  if !end.outcome.Done? || prereqsOnly then end
                  else if groups[g].products.None? then End(BuildFailed(g), end.repo)
                  else End(Done, end.repo + ProductIds(groups[g])))
  {
    hide DeepEnough, PrerequisitesN;
  }

  lemma OneWithoutSubmodules(groups: seq<Group>, repo: set<Id>, p: Id, g: nat)
    requires g < |groups| && !groups[g].submodules
    ensures OneIs(groups, repo, p, g, false, End(SubmoduleFailed(g), repo))
  {
  }

  lemma NextGroup(groups: seq<Group>, repo0: set<Id>, p: Id, filtered: bool, prereqsOnly: bool,
                  repo: set<Id>, i: nat, built: bool, end: End)
    requires i < |groups| && BuildAt(groups, repo0, p, filtered, prereqsOnly, repo, i, built)
    ensures p !in groups[i].packages || (filtered && groups[i].filtered) ==>
              BuildAt(groups, repo0, p, filtered, prereqsOnly, repo, i + 1, built)
    ensures p in groups[i].packages && !(filtered && groups[i].filtered)
            && OneIs(groups, repo, p, i, prereqsOnly, end) ==>
              if end.outcome.Done? then BuildAt(groups, repo0, p, filtered, prereqsOnly, end.repo, i + 1, true)
              else BuildIs(groups, repo0, p, filtered, prereqsOnly, 0, false, end)
  {
    hide DeepEnough, OneN;
  }

  lemma NoGroupLeft(groups: seq<Group>, repo0: set<Id>, p: Id, filtered: bool, prereqsOnly: bool,
                    repo: set<Id>, built: bool)
    requires BuildAt(groups, repo0, p, filtered, prereqsOnly, repo, |groups|, built)
    ensures BuildIs(groups, repo0, p, filtered, prereqsOnly, 0, false, End(if built then Done else Missing(p), repo))
  {
  }

  lemma RequireUnknown(groups: seq<Group>, repo: set<Id>, p: Id, force: bool, buildMissing: bool, skipMissing: bool)
    requires !Known(groups, p)
    ensures RequireIs(groups, repo, p, force, buildMissing, skipMissing,
                      End(if skipMissing then Done else Missing(p), repo))
  {
  }

  lemma RequireAfterBuild(groups: seq<Group>, repo: set<Id>, p: Id, force: bool, buildMissing: bool,
                          skipMissing: bool, end: End)
    requires Known(groups, p)
    requires if force || (p !in repo && buildMissing) then BuildIs(groups, repo, p, false, false, 0, false, end)
             else if p in repo then BuildIs(groups, repo, p, false, true, 0, false, end)
             else end == End(Done, repo)
    ensures RequireIs(groups, repo, p, force, buildMissing, skipMissing,
                      if end.outcome.Done? && p !in end.repo then End(NotBuilt(p), end.repo) else end)
  {
    hide BuildN, Known;
  }
}
