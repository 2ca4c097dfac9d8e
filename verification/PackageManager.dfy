/**
 The package manager of onlpm: `require` and `build` call each other over the dependency graph and
 fill the repository as they go. Each method also returns, as a ghost, the groups it built.
 */
module PackageManager {
  import opened PackageRepository
  import opened PackageGraph
  import opened PackageRecursion

  /** An error says something true about what `pkg` needs. */
  ghost predicate Explained(groups: seq<Group>, pkg: Id, repo: set<Id>, r: Outcome) {
    match r
    case Done => true
    case Missing(p) => p in Scope(groups, pkg) && !Known(groups, p)
    case NothingToBuild => false
    case NotBuilt(p) => p in Scope(groups, pkg) && p !in repo
    case SubmoduleFailed(g) =>
      g < |groups| && !groups[g].submodules && exists p :: p in Scope(groups, pkg) && p in groups[g].packages
    case BuildFailed(g) =>
      g < |groups| && groups[g].products.None? && exists p :: p in Scope(groups, pkg) && p in groups[g].packages
  }

  lemma FailureExplained(groups: seq<Group>, pkg: Id, g: nat, repo: set<Id>)
    requires g < |groups| && pkg in groups[g].packages
    ensures groups[g].products.None? ==> Explained(groups, pkg, repo, BuildFailed(g))
    ensures !groups[g].submodules ==> Explained(groups, pkg, repo, SubmoduleFailed(g))
  {
  }

  lemma SimpleOutcomesExplained(groups: seq<Group>, pkg: Id, repo: set<Id>)
    ensures Explained(groups, pkg, repo, Done)
    ensures !Known(groups, pkg) ==> Explained(groups, pkg, repo, Missing(pkg))
  {
  }

  lemma ExplainedBehind(groups: seq<Group>, pkg: Id, pr: Id, repo: set<Id>, r: Outcome)
    requires Edge(groups, pkg, pr) && AcyclicFrom(groups, pkg) && Explained(groups, pr, repo, r)
    ensures Explained(groups, pkg, repo, r)
  {
    ReachShrinks(groups, pkg, pr);
  }

  lemma CompleteBehind(groups: seq<Group>, pkg: Id, pr: Id)
    requires Edge(groups, pkg, pr) && AcyclicFrom(groups, pkg) && Complete(groups, pkg)
    ensures Complete(groups, pr) && Known(groups, pr)
  {
    ReachShrinks(groups, pkg, pr);
  }

  lemma CompleteGroups(groups: seq<Group>, pkg: Id)
    requires Complete(groups, pkg)
    ensures Known(groups, pkg)
    ensures forall g :: g in groups && pkg in g.packages ==> g.submodules && g.products.Some? && pkg in ProductIds(g)
  {
  }

  /** The package and all it needs are declared somewhere, and in the repository. */
  ghost predicate Satisfied(groups: seq<Group>, p: Id, repo: set<Id>) {
    forall q :: q in Scope(groups, p) ==> q in repo && Known(groups, q)
  }

  lemma SatisfiedFacts(groups: seq<Group>, p: Id, repo: set<Id>)
    requires Satisfied(groups, p, repo)
    ensures p in repo && Known(groups, p) && Scope(groups, p) <= repo
    ensures forall q :: Edge(groups, p, q) ==> Satisfied(groups, q, repo)
    ensures forall more: set<Id> :: repo <= more ==> Satisfied(groups, p, more)
  {
    assert p in Scope(groups, p);
    forall q | Edge(groups, p, q) ensures Satisfied(groups, q, repo) {
      ScopeBehind(groups, p, q);
    }
  }

  lemma GrewNothing(groups: seq<Group>, scope: set<Id>, r0: set<Id>, r1: set<Id>, run: seq<nat>)
    requires Grew(groups, scope, r0, r1, run)
    ensures run == [] ==> r1 == r0
  {
  }

  lemma SatisfiedLater(groups: seq<Group>, p: Id, repo: set<Id>, more: set<Id>)
    requires repo <= more
    ensures Satisfied(groups, p, repo) ==> Satisfied(groups, p, more)
  {
    hide Scope, Known;
  }

  /** A package is satisfied if it is there and every prerequisite of every group that has it is satisfied. */
  lemma SatisfiedByPrerequisites(groups: seq<Group>, p: Id, repo: set<Id>)
    requires p in repo && Known(groups, p)
    requires forall q :: Edge(groups, p, q) ==> Satisfied(groups, q, repo)
    ensures Satisfied(groups, p, repo)
  {
    forall q | q in Reach(groups, p) ensures q in repo && Known(groups, q) {
      var x := ReachSplits(groups, p, q);
    }
  }

  lemma CompleteAt(groups: seq<Group>, pkg: Id)
    requires Complete(groups, pkg)
    ensures exists i :: 0 <= i < |groups| && Chosen(groups[i], pkg, false) && pkg in ProductIds(groups[i])
  {
    CompleteGroups(groups, pkg);
    var g :| g in groups && pkg in g.packages;
    var i :| 0 <= i < |groups| && groups[i] == g;
  }

  /** A group that a build does not skip. */
  predicate Selected(g: Group, filtered: bool) {
    !(filtered && g.filtered)
  }

  predicate Chosen(g: Group, pkg: Id, filtered: bool) {
    pkg in g.packages && Selected(g, filtered)
  }

  /** Of the first `i` groups, those chosen are built, or at least their prerequisites are closed. */
  ghost predicate ClosedUpTo(groups: seq<Group>, pkg: Id, repo: set<Id>, filtered: bool, prereqsOnly: bool,
                             run: seq<nat>, i: nat)
    requires i <= |groups|
  {
    forall j :: 0 <= j < i && Chosen(groups[j], pkg, filtered) ==>
      && (forall q :: q in groups[j].prerequisites ==> Satisfied(groups, q, repo))
      && (!prereqsOnly ==> ProductIds(groups[j]) <= repo && j in run)
  }

  lemma ClosedStep(groups: seq<Group>, pkg: Id, repo0: set<Id>, repo: set<Id>, filtered: bool, prereqsOnly: bool,
                   run: seq<nat>, more: seq<nat>, i: nat)
    requires i < |groups| && repo0 <= repo && ClosedUpTo(groups, pkg, repo0, filtered, prereqsOnly, run, i)
    requires Chosen(groups[i], pkg, filtered) ==>
               && (forall q :: q in groups[i].prerequisites ==> Satisfied(groups, q, repo))
               && (!prereqsOnly ==> ProductIds(groups[i]) <= repo && i in more)
    ensures ClosedUpTo(groups, pkg, repo, filtered, prereqsOnly, run + more, i + 1)
  {
    hide ProductIds, Chosen, Satisfied;
    forall q ensures Satisfied(groups, q, repo0) ==> Satisfied(groups, q, repo) {
      SatisfiedLater(groups, q, repo0, repo);
    }
  }

  lemma ClosedAll(groups: seq<Group>, pkg: Id, repo: set<Id>, prereqsOnly: bool, run: seq<nat>)
    requires ClosedUpTo(groups, pkg, repo, false, prereqsOnly, run, |groups|)
    ensures forall q :: Edge(groups, pkg, q) ==> Satisfied(groups, q, repo)
  {
    hide Satisfied;
    forall q | Edge(groups, pkg, q) ensures Satisfied(groups, q, repo) {
      var g :| g in groups && pkg in g.packages && q in g.prerequisites;
      var j :| 0 <= j < |groups| && groups[j] == g;
    }
  }

  lemma BuildStart(groups: seq<Group>, pkg: Id, repo: set<Id>, filtered: bool, prereqsOnly: bool)
    ensures ClosedUpTo(groups, pkg, repo, filtered, prereqsOnly, [], 0)
    ensures BuildAt(groups, repo, pkg, filtered, prereqsOnly, repo, 0, false)
  {
  }

  lemma NothingStored(groups: seq<Group>, s: State)
    ensures Stored(groups, s, s, [])
  {
  }

  lemma EmptyHasNoDuplicates()
    ensures NoDuplicates([])
  {
  }

  /** A call so far: what it built, in which order, and how its loop over the groups stands. */
  ghost predicate Standing(groups: seq<Group>, pkg: Id, filtered: bool, prereqsOnly: bool,
                           repo0: set<Id>, repo: set<Id>, run: seq<nat>, i: nat, built: bool)
    requires i <= |groups|
  {
    && Built(groups, pkg, prereqsOnly, repo0, repo, run)
    && (built ==> Known(groups, pkg))
    && (!built ==> run == [] && repo == repo0)
    && (prereqsOnly && Satisfied(groups, pkg, repo0) ==> run == [] && repo == repo0)
    && (built <==> exists j :: 0 <= j < i && Chosen(groups[j], pkg, filtered))
    && ClosedUpTo(groups, pkg, repo, filtered, prereqsOnly, run, i)
    && BuildAt(groups, repo0, pkg, filtered, prereqsOnly, repo, i, built)
  }

  /** The builds are ordered, never repeat in a tidy tree, and each was called for if the package was not there. */
  ghost predicate Built(groups: seq<Group>, pkg: Id, prereqsOnly: bool, repo0: set<Id>, repo: set<Id>, run: seq<nat>) {
    && Grew(groups, Scope(groups, pkg), repo0, repo, run)
    && (prereqsOnly ==> Grew(groups, Reach(groups, pkg), repo0, repo, run))
    && (Tidy(groups) ==> NoDuplicates(run))
    && (Tidy(groups) && (prereqsOnly || pkg !in repo0) ==> Needed(groups, Scope(groups, pkg), repo0, run))
  }

  lemma StandingStart(groups: seq<Group>, pkg: Id, filtered: bool, prereqsOnly: bool, repo: set<Id>)
    ensures Standing(groups, pkg, filtered, prereqsOnly, repo, repo, [], 0, false)
  {
    NothingBuilt(groups, Scope(groups, pkg), repo);
    NothingBuilt(groups, Reach(groups, pkg), repo);
    BuildStart(groups, pkg, repo, filtered, prereqsOnly);
  }

  lemma StandingSkipped(groups: seq<Group>, pkg: Id, filtered: bool, prereqsOnly: bool,
                        repo0: set<Id>, repo: set<Id>, run: seq<nat>, i: nat, built: bool)
    requires i < |groups| && Standing(groups, pkg, filtered, prereqsOnly, repo0, repo, run, i, built)
    requires pkg !in groups[i].packages || (filtered && groups[i].filtered)
    ensures Standing(groups, pkg, filtered, prereqsOnly, repo0, repo, run, i + 1, built)
  {
    hide Built, BuildAt, ClosedUpTo, BuildIs, OneIs;
    NextGroup(groups, repo0, pkg, filtered, prereqsOnly, repo, i, built, End(Done, repo));
    ClosedStep(groups, pkg, repo, repo, filtered, prereqsOnly, run, [], i);
    assert run + [] == run;
  }

  lemma BuiltAppend(groups: seq<Group>, pkg: Id, prereqsOnly: bool, repo0: set<Id>, repo1: set<Id>, repo2: set<Id>,
                    run: seq<nat>, more: seq<nat>)
    requires Built(groups, pkg, prereqsOnly, repo0, repo1, run) && Built(groups, pkg, prereqsOnly, repo1, repo2, more)
    requires Tidy(groups) ==> run == [] && repo0 == repo1
    ensures Built(groups, pkg, prereqsOnly, repo0, repo2, run + more) && repo1 <= repo2
  {
    hide Grew, Needed, Tidy, NoDuplicates, Scope, Reach;
    GrewFacts(groups, Scope(groups, pkg), repo1, repo2, more);
    GrewAppend(groups, Scope(groups, pkg), Scope(groups, pkg), Scope(groups, pkg),
               repo0, repo1, repo2, run, more);
    if prereqsOnly {
      GrewAppend(groups, Reach(groups, pkg), Reach(groups, pkg), Reach(groups, pkg),
                 repo0, repo1, repo2, run, more);
    }
    assert run == [] ==> run + more == more;
  }

  /** One more group, with what `BuildOne` promises of it. */
  lemma StandingBuilt(groups: seq<Group>, pkg: Id, filtered: bool, prereqsOnly: bool, repo0: set<Id>, repo1: set<Id>,
                      repo2: set<Id>, run: seq<nat>, more: seq<nat>, i: nat, built: bool, r: Outcome)
    requires i < |groups| && Standing(groups, pkg, filtered, prereqsOnly, repo0, repo1, run, i, built)
    requires pkg in groups[i].packages && !(filtered && groups[i].filtered)
    requires Built(groups, pkg, prereqsOnly, repo1, repo2, more)
    requires r.Done? ==> forall q :: q in groups[i].prerequisites ==> Satisfied(groups, q, repo2)
    requires prereqsOnly && Satisfied(groups, pkg, repo1) ==> r.Done? && more == [] && repo2 == repo1
    requires r.Done? && !prereqsOnly ==> ProductIds(groups[i]) <= repo2 && i in more
    requires OneIs(groups, repo1, pkg, i, prereqsOnly, End(r, repo2))
    ensures Built(groups, pkg, prereqsOnly, repo0, repo2, run + more)
    ensures r.Done? ==> Standing(groups, pkg, filtered, prereqsOnly, repo0, repo2, run + more, i + 1, true)
    ensures !r.Done? ==> BuildIs(groups, repo0, pkg, filtered, prereqsOnly, 0, false, End(r, repo2))
    ensures prereqsOnly && Satisfied(groups, pkg, repo0) ==> r.Done?
  {
    hide Built, BuildAt, BuildIs, OneIs, ClosedUpTo, Scope, ProductIds, Satisfied;
    NextGroup(groups, repo0, pkg, filtered, prereqsOnly, repo1, i, built, End(r, repo2));
    if Tidy(groups) {
      OnlyGroup(groups, pkg, i);
    }
    BuiltAppend(groups, pkg, prereqsOnly, repo0, repo1, repo2, run, more);
    if r.Done? {
      ClosedStep(groups, pkg, repo1, repo2, filtered, prereqsOnly, run, more, i);
    }
  }

  lemma StandingEnd(groups: seq<Group>, pkg: Id, filtered: bool, prereqsOnly: bool, repo0: set<Id>, repo: set<Id>,
                    run: seq<nat>, built: bool)
    requires Standing(groups, pkg, filtered, prereqsOnly, repo0, repo, run, |groups|, built)
    ensures Built(groups, pkg, prereqsOnly, repo0, repo, run)
    ensures built ==> Known(groups, pkg)
    ensures !built ==> run == [] && repo == repo0
    ensures built <==> exists g :: g in groups && Chosen(g, pkg, filtered)
    ensures forall i :: 0 <= i < |groups| && Chosen(groups[i], pkg, filtered) ==>
              && (forall q :: q in groups[i].prerequisites ==> Satisfied(groups, q, repo))
              && (!prereqsOnly ==> ProductIds(groups[i]) <= repo && i in run)
    ensures !filtered ==> forall q :: Edge(groups, pkg, q) ==> Satisfied(groups, q, repo)
    ensures prereqsOnly && Satisfied(groups, pkg, repo0) ==> run == []
    ensures BuildIs(groups, repo0, pkg, filtered, prereqsOnly, 0, false,
                    End(if built then Done else Missing(pkg), repo))
  {
    hide Built, BuildAt, BuildIs, Reach, ProductIds, Scope, Satisfied, Edge;
    NoGroupLeft(groups, repo0, pkg, filtered, prereqsOnly, repo, built);
    if !filtered {
      ClosedAll(groups, pkg, repo, prereqsOnly, run);
    }
    if built {
      var j :| 0 <= j < |groups| && Chosen(groups[j], pkg, filtered);
      assert groups[j] in groups;
    }
    if g :| g in groups && Chosen(g, pkg, filtered) {
      var j :| 0 <= j < |groups| && groups[j] == g;
    }
  }

  ghost predicate Buildable(groups: seq<Group>, g: Group) {
    g.submodules && g.products.Some? && forall q :: q in g.prerequisites ==> Complete(groups, q)
  }

  lemma OrderedNone(groups: seq<Group>, repo: set<Id>)
    ensures Ordered(groups, repo, repo, [])
  {
  }

  lemma GrewIsOrdered(groups: seq<Group>, scope: set<Id>, r0: set<Id>, r1: set<Id>, run: seq<nat>)
    requires Grew(groups, scope, r0, r1, run)
    ensures Ordered(groups, r0, r1, run)
  {
  }

  /** A build of group `k` serves the package or something it needs. */
  ghost predicate Serves(groups: seq<Group>, q: Id, k: nat) {
    k < |groups| && exists p :: p in Scope(groups, q) && p in groups[k].packages
  }

  lemma GrewServes(groups: seq<Group>, q: Id, r0: set<Id>, r1: set<Id>, run: seq<nat>)
    requires Grew(groups, Scope(groups, q), r0, r1, run)
    ensures forall k :: k in run ==> Serves(groups, q, k)
  {
    forall k | k in run ensures Serves(groups, q, k) {
      var i :| 0 <= i < |run| && run[i] == k;
      assert groups[run[i]].products.Some?;
    }
  }

  /** A build of everything builds a group because it is selected, or for a prerequisite of one that is. */
  ghost predicate CalledFor(groups: seq<Group>, filtered: bool, prereqsOnly: bool, k: nat) {
    || (k < |groups| && Selected(groups[k], filtered) && !prereqsOnly)
    || exists g, q :: g in groups && Selected(g, filtered) && q in g.prerequisites && Serves(groups, q, k)
  }

  /** An error of a build of everything is one of a selected group, or of a prerequisite of one. */
  ghost predicate ExplainedAll(groups: seq<Group>, filtered: bool, prereqsOnly: bool, repo: set<Id>, r: Outcome) {
    || r.Done? || r.NothingToBuild?
    || (exists i :: 0 <= i < |groups| && Selected(groups[i], filtered) && !prereqsOnly
          && if groups[i].submodules then r == BuildFailed(i) && groups[i].products.None?
             else r == SubmoduleFailed(i))
    || (exists g, q :: g in groups && Selected(g, filtered) && q in g.prerequisites && Explained(groups, q, repo, r))
  }

  class PackageManager {
    const groups: seq<Group>
    const opr: Repository

    constructor (groups: seq<Group>, opr: Repository)
      ensures this.groups == groups && this.opr == opr
    {
      this.groups, this.opr := groups, opr;
    }

    /** The identifiers in the repository. */
    ghost function Repo(): set<Id>
      reads opr
    {
      opr.files.Keys
    }

    /**
     Makes sure that the package and everything it needs is in the repository, building what is
     missing (or, with `force`, the package's own group in any case).
     */
    method Require(pkg: Id, force: bool, buildMissing: bool, skipMissing: bool)
      returns (r: Outcome, ghost run: seq<nat>)
      requires AcyclicFrom(groups, pkg)
      modifies opr
      decreases Reach(groups, pkg), 3
      ensures Grew(groups, Scope(groups, pkg), old(Repo()), Repo(), run)
      ensures !Known(groups, pkg) ==> run == [] && r == if skipMissing then Done else Missing(pkg)
      ensures Known(groups, pkg) && r.Done? ==> Satisfied(groups, pkg, Repo())
      ensures Satisfied(groups, pkg, old(Repo())) && !force ==> r.Done? && run == []
      ensures Explained(groups, pkg, Repo(), r)
      ensures Complete(groups, pkg) && (force || buildMissing || pkg in old(Repo())) ==> r.Done?
      ensures Tidy(groups) ==> NoDuplicates(run)
      ensures Tidy(groups) && !force ==> Needed(groups, Scope(groups, pkg), old(Repo()), run)
      ensures RequireIs(groups, old(Repo()), pkg, force, buildMissing, skipMissing, End(r, Repo()))
      ensures Stored(groups, old(opr.Current()), opr.Current(), run)
      ensures Known(groups, pkg) && r.Done? && (force || pkg !in old(Repo())) ==>
                forall i :: 0 <= i < |groups| && pkg in groups[i].packages ==> i in run
      ensures !force && pkg in old(Repo()) ==> Grew(groups, Reach(groups, pkg), old(Repo()), Repo(), run)
      ensures Known(groups, pkg) && !force && !buildMissing && pkg !in old(Repo()) ==> run == [] && r == NotBuilt(pkg)
    {
      hide RequireIs, BuildIs, Stored, Grew, Needed, Tidy, Satisfied, Edge;
      if Satisfied(groups, pkg, Repo()) {
        SatisfiedFacts(groups, pkg, Repo());
      }
      NothingStored(groups, opr.Current());
      NothingBuilt(groups, Scope(groups, pkg), Repo());
      NothingBuilt(groups, Reach(groups, pkg), Repo());
      EmptyHasNoDuplicates();
      ghost var r0 := Repo();
      run := [];
      if !Known(groups, pkg) {
        RequireUnknown(groups, r0, pkg, force, buildMissing, skipMissing);
        if skipMissing {
          return Done, [];
        }
        return Missing(pkg), [];
      }
      if force || (pkg !in opr.files && buildMissing) {
        r, run := Build(pkg, false, false);
      } else {
        r := Done;
        if pkg in opr.files {
          r, run := Build(pkg, false, true);
        }
      }
      RequireAfterBuild(groups, r0, pkg, force, buildMissing, skipMissing, End(r, Repo()));
      GrewFacts(groups, Scope(groups, pkg), r0, Repo(), run);
      if Complete(groups, pkg) {
        CompleteAt(groups, pkg);
      }
      if !r.Done? {
        return;
      }
      if pkg !in opr.files {
        r := NotBuilt(pkg);
      } else {
        SatisfiedByPrerequisites(groups, pkg, Repo());
      }
    }

    /** Requires the prerequisites of one group that contains the package, in order. */
    method RequirePrerequisites(pkg: Id, g: nat) returns (r: Outcome, ghost run: seq<nat>)
      requires AcyclicFrom(groups, pkg) && g < |groups| && pkg in groups[g].packages
      modifies opr
      decreases Reach(groups, pkg), 0
      ensures Grew(groups, Reach(groups, pkg), old(Repo()), Repo(), run)
      ensures r.Done? ==> forall q :: q in groups[g].prerequisites ==> Satisfied(groups, q, Repo())
      ensures Satisfied(groups, pkg, old(Repo())) ==> r.Done? && run == [] && Repo() == old(Repo())
      ensures Explained(groups, pkg, Repo(), r)
      ensures Complete(groups, pkg) ==> r.Done?
      ensures Tidy(groups) ==> Needed(groups, Reach(groups, pkg), old(Repo()), run)
      ensures PrerequisitesAre(groups, old(Repo()), pkg, groups[g].prerequisites, End(r, Repo()))
      ensures Stored(groups, old(opr.Current()), opr.Current(), run)
    {
      hide Stored, Grew, Needed, Complete, AcyclicFrom, Reaches, Edge, Tidy, RepoAfter, RequireIs, PrerequisitesAre;
      hide Satisfied;
      r, run := Done, [];
      NothingBuilt(groups, Reach(groups, pkg), Repo());
      NothingStored(groups, opr.Current());
      var prereqs := groups[g].prerequisites;
      assert prereqs[0..] == prereqs;
      for j := 0 to |prereqs|
        invariant Grew(groups, Reach(groups, pkg), old(Repo()), Repo(), run)
        invariant r.Done? && forall k :: 0 <= k < j ==> Satisfied(groups, prereqs[k], Repo())
        invariant Satisfied(groups, pkg, old(Repo())) ==> run == [] && Repo() == old(Repo())
        invariant Tidy(groups) ==> Needed(groups, Reach(groups, pkg), old(Repo()), run)
        invariant PrerequisitesAt(groups, old(Repo()), pkg, prereqs, Repo(), prereqs[j..])
        invariant Stored(groups, old(opr.Current()), opr.Current(), run)
      {
        ghost var r1, pr, s1 := Repo(), prereqs[j], opr.Current();
        PrerequisiteIsEdge(groups, pkg, g, j);
        ReachShrinks(groups, pkg, pr);
        if Complete(groups, pkg) {
          CompleteBehind(groups, pkg, pr);
        }
        ghost var more;
        if Satisfied(groups, pkg, r1) {
          SatisfiedFacts(groups, pkg, r1);
        }
        r, more := Require(prereqs[j], false, true, false);
        NextPrerequisite(groups, old(Repo()), pkg, prereqs, r1, prereqs[j..], End(r, Repo()));
        assert prereqs[j..][1..] == prereqs[j + 1..];
        StoredAppend(groups, old(opr.Current()), s1, opr.Current(), run, more);
        ExplainedBehind(groups, pkg, pr, Repo(), r);
        GrewFacts(groups, Reach(groups, pkg), old(Repo()), r1, run);
        GrewFacts(groups, Scope(groups, pr), r1, Repo(), more);
        GrewNothing(groups, Scope(groups, pr), r1, Repo(), more);
        forall k | 0 <= k < j ensures Satisfied(groups, prereqs[k], Repo()) {
          SatisfiedLater(groups, prereqs[k], r1, Repo());
        }
        GrewAppend(groups, Reach(groups, pkg), Reach(groups, pkg), Scope(groups, pr),
                   old(Repo()), r1, Repo(), run, more);
        if Tidy(groups) {
          NeededAppend(groups, Reach(groups, pkg), Reach(groups, pkg), Scope(groups, pr), old(Repo()), r1, run, more);
        }
        run := run + more;
        if !r.Done? {
          return;
        }
      }
      assert prereqs[|prereqs|..] == [];
      NoPrerequisiteLeft(groups, old(Repo()), pkg, prereqs, Repo());
    }

    /** Builds one group and adds its products to the repository. */
    method BuildGroup(g: nat) returns (ok: bool)
      requires g < |groups|
      modifies opr
      ensures ok <==> groups[g].products.Some?
      ensures opr.Current() == if ok then AddAll(old(opr.Current()), groups[g].products.value) else old(opr.Current())
      ensures Repo() == if ok then old(Repo()) + ProductIds(groups[g]) else old(Repo())
    {
      if groups[g].products.None? {
        return false;
      }
      AddAllIds(opr.Current(), groups[g].products.value);
      opr.AddPackages(groups[g].products.value);
      return true;
    }

    /** What `build` does for one group that contains the package. */
    method BuildOne(pkg: Id, g: nat, prereqsOnly: bool) returns (r: Outcome, ghost run: seq<nat>)
      requires AcyclicFrom(groups, pkg) && g < |groups| && pkg in groups[g].packages
      modifies opr
      decreases Reach(groups, pkg), 1
      ensures Built(groups, pkg, prereqsOnly, old(Repo()), Repo(), run)
      ensures Explained(groups, pkg, Repo(), r)
      ensures r.Done? ==> forall q :: q in groups[g].prerequisites ==> Satisfied(groups, q, Repo())
      ensures prereqsOnly && Satisfied(groups, pkg, old(Repo())) ==> r.Done? && run == [] && Repo() == old(Repo())
      ensures r.Done? && !prereqsOnly ==> ProductIds(groups[g]) <= Repo()
      ensures Complete(groups, pkg) ==> r.Done?
      ensures OneIs(groups, old(Repo()), pkg, g, prereqsOnly, End(r, Repo()))
      ensures Stored(groups, old(opr.Current()), opr.Current(), run)
      ensures r.Done? && !prereqsOnly ==> run != [] && run[|run| - 1] == g
      ensures !prereqsOnly && !groups[g].submodules ==> r == SubmoduleFailed(g) && run == []
      ensures prereqsOnly ==> PrerequisitesAre(groups, old(Repo()), pkg, groups[g].prerequisites, End(r, Repo()))
    {
      hide Stored, Grew, Needed, Complete, AcyclicFrom, Reaches, RepoAfter, Reach, Tidy, NoDuplicates, Explained;
      hide OneIs, PrerequisitesAre, Satisfied;
      EmptyHasNoDuplicates();
      if Complete(groups, pkg) {
        CompleteGroups(groups, pkg);
      }
      ghost var r0 := Repo();
      if !prereqsOnly && !groups[g].submodules {
        NothingBuilt(groups, Scope(groups, pkg), r0);
        NothingStored(groups, opr.Current());
        FailureExplained(groups, pkg, g, r0);
        OneWithoutSubmodules(groups, r0, pkg, g);
        return SubmoduleFailed(g), [];
      }
      r, run := RequirePrerequisites(pkg, g);
      ghost var r1 := Repo();
      OneAfterPrerequisites(groups, r0, pkg, g, prereqsOnly, End(r, r1));
      WiderScope(groups, Reach(groups, pkg), Scope(groups, pkg), r0, r1, run);
      if Tidy(groups) {
        NeededBuildsAreDistinct(groups, Reach(groups, pkg), r0, run);
      }
      if r.Done? && !prereqsOnly {
        ghost var s1 := opr.Current();
        var ok := BuildGroup(g);
        if ok {
          StoredOne(groups, s1, g);
          StoredAppend(groups, old(opr.Current()), s1, opr.Current(), run, [g]);
          forall q | q in groups[g].prerequisites ensures q in r1 && Satisfied(groups, q, Repo()) {
            SatisfiedFacts(groups, q, r1);
          }
          OwnBuild(groups, pkg, g, r0, r1, run);
          if Tidy(groups) {
            OwnBuildIsNew(groups, pkg, g, r0, run);
          }
          run := run + [g];
          SimpleOutcomesExplained(groups, pkg, Repo());
        } else {
          r := BuildFailed(g);
          FailureExplained(groups, pkg, g, Repo());
        }
      }
    }

    /**
     Builds every group that contains the package, after requiring the group's prerequisites; with
     `prereqsOnly` it stops short of the groups themselves.
     */
    method Build(pkg: Id, filtered: bool, prereqsOnly: bool) returns (r: Outcome, ghost run: seq<nat>)
      requires AcyclicFrom(groups, pkg)
      modifies opr
      decreases Reach(groups, pkg), 2
      ensures Built(groups, pkg, prereqsOnly, old(Repo()), Repo(), run)
      ensures r.Done? ==> Known(groups, pkg)
      ensures !filtered ==> Explained(groups, pkg, Repo(), r)
      ensures !filtered && r.Done? ==> forall q :: Edge(groups, pkg, q) ==> Satisfied(groups, q, Repo())
      ensures prereqsOnly && Satisfied(groups, pkg, old(Repo())) && !filtered ==> r.Done? && run == []
      ensures r.Done? ==> forall i :: 0 <= i < |groups| && Chosen(groups[i], pkg, filtered) ==>
                && (forall q :: q in groups[i].prerequisites ==> Satisfied(groups, q, Repo()))
                && (!prereqsOnly ==> ProductIds(groups[i]) <= Repo() && i in run)
      ensures (forall g :: g in groups && pkg in g.packages ==> filtered && g.filtered) ==>
                r == Missing(pkg) && run == []
      ensures !filtered && Complete(groups, pkg) ==> r.Done?
      ensures BuildIs(groups, old(Repo()), pkg, filtered, prereqsOnly, 0, false, End(r, Repo()))
      ensures Stored(groups, old(opr.Current()), opr.Current(), run)
    {
      hide Stored, Complete, AcyclicFrom, Reach, Scope, ProductIds, Explained, BuildIs, OneIs, Standing, Built;
      hide Satisfied, Edge;
      if Satisfied(groups, pkg, Repo()) {
        SatisfiedFacts(groups, pkg, Repo());
      }
      ghost var repo0 := Repo();
      run := [];
      StandingStart(groups, pkg, filtered, prereqsOnly, repo0);
      NothingStored(groups, opr.Current());
      if Complete(groups, pkg) {
        CompleteGroups(groups, pkg);
      }
      var built := false;
      for i := 0 to |groups|
        invariant Standing(groups, pkg, filtered, prereqsOnly, repo0, Repo(), run, i, built)
        invariant Stored(groups, old(opr.Current()), opr.Current(), run)
      {
        ghost var repo1, s1 := Repo(), opr.Current();
        if pkg !in groups[i].packages || (filtered && groups[i].filtered) {
          StandingSkipped(groups, pkg, filtered, prereqsOnly, repo0, repo1, run, i, built);
        }
        if pkg in groups[i].packages {
          if filtered && groups[i].filtered {
            continue;
          }
          ghost var more;
          r, more := BuildOne(pkg, i, prereqsOnly);
          StandingBuilt(groups, pkg, filtered, prereqsOnly, repo0, repo1, Repo(), run, more, i, built, r);
          StoredAppend(groups, old(opr.Current()), s1, opr.Current(), run, more);
          run := run + more;
          if !r.Done? {
            return;
          }
          built := true;
        }
      }
      SimpleOutcomesExplained(groups, pkg, Repo());
      r := if built then Done else Missing(pkg);
      StandingEnd(groups, pkg, filtered, prereqsOnly, repo0, Repo(), run, built);
    }

    /** Requires each package of a list, building what is missing. */
    method RequireAll(pkgs: seq<Id>) returns (r: Outcome, ghost run: seq<nat>)
      requires forall q :: q in pkgs ==> AcyclicFrom(groups, q)
      modifies opr
      ensures Ordered(groups, old(Repo()), Repo(), run)
      ensures r.Done? ==> forall q :: q in pkgs ==> Satisfied(groups, q, Repo())
      ensures (forall q :: q in pkgs ==> Complete(groups, q)) ==> r.Done?
      ensures !r.NothingToBuild?
      ensures Stored(groups, old(opr.Current()), opr.Current(), run)
      ensures forall k :: k in run ==> exists q :: q in pkgs && Serves(groups, q, k)
      ensures !r.Done? ==> exists q :: q in pkgs && Explained(groups, q, Repo(), r)
    {
      hide Satisfied, Stored, Ordered, Serves, AcyclicFrom, Reach, RequireIs, Complete, Scope;
      r, run := Done, [];
      OrderedNone(groups, Repo());
      NothingStored(groups, opr.Current());
      for j := 0 to |pkgs|
        invariant Stored(groups, old(opr.Current()), opr.Current(), run)
        invariant forall k :: k in run ==> exists q :: q in pkgs && Serves(groups, q, k)
        invariant Ordered(groups, old(Repo()), Repo(), run)
        invariant r.Done? && forall k :: 0 <= k < j ==> Satisfied(groups, pkgs[k], Repo())
      {
        ghost var r1, s1, more := Repo(), opr.Current(), [];
        assert pkgs[j] in pkgs;
        if Complete(groups, pkgs[j]) {
          CompleteGroups(groups, pkgs[j]);
        }
        r, more := Require(pkgs[j], false, true, false);
        GrewFacts(groups, Scope(groups, pkgs[j]), r1, Repo(), more);
        forall k | 0 <= k < j ensures Satisfied(groups, pkgs[k], Repo()) {
          SatisfiedLater(groups, pkgs[k], r1, Repo());
        }
        assert Ordered(groups, r1, Repo(), more) by {
          GrewIsOrdered(groups, Scope(groups, pkgs[j]), r1, Repo(), more);
        }
        GrewServes(groups, pkgs[j], r1, Repo(), more);
        StoredAppend(groups, old(opr.Current()), s1, opr.Current(), run, more);
        OrderedAppend(groups, old(Repo()), r1, Repo(), run, more);
        run := run + more;
        if !r.Done? {
          return;
        }
      }
    }

    /**
     What `build` does when no package is named: every group that is not filtered out is built, after its
     prerequisites, also one that was built for an earlier group.
     */
    method BuildAll(filtered: bool, prereqsOnly: bool) returns (r: Outcome, ghost run: seq<nat>)
      requires forall g, q :: g in groups && q in g.prerequisites ==> AcyclicFrom(groups, q)
      modifies opr
      ensures Ordered(groups, old(Repo()), Repo(), run)
      ensures r.Done? ==> forall g :: g in groups && Selected(g, filtered) ==>
                && (forall q :: q in g.prerequisites ==> Satisfied(groups, q, Repo()))
                && (!prereqsOnly ==> ProductIds(g) <= Repo())
      ensures r.Done? && !prereqsOnly ==> forall i :: 0 <= i < |groups| && Selected(groups[i], filtered) ==> i in run
      ensures r.NothingToBuild? <==> forall g :: g in groups ==> !Selected(g, filtered)
      ensures r.NothingToBuild? ==> run == []
      ensures (forall g :: g in groups && Selected(g, filtered) ==> Buildable(groups, g)) ==>
                r.Done? || r.NothingToBuild?
      ensures Stored(groups, old(opr.Current()), opr.Current(), run)
      ensures forall k :: k in run ==> CalledFor(groups, filtered, prereqsOnly, k)
      ensures ExplainedAll(groups, filtered, prereqsOnly, Repo(), r)
    {
      hide Satisfied, Stored, Serves, Explained, Ordered, AcyclicFrom, Reach, Complete, Scope, ProductIds;
      run := [];
      OrderedNone(groups, Repo());
      NothingStored(groups, opr.Current());
      var built := false;
      for i := 0 to |groups|
        invariant Stored(groups, old(opr.Current()), opr.Current(), run)
        invariant forall k :: k in run ==> CalledFor(groups, filtered, prereqsOnly, k)
        invariant Ordered(groups, old(Repo()), Repo(), run)
        invariant built <==> exists j :: 0 <= j < i && Selected(groups[j], filtered)
        invariant !built ==> run == []
        invariant forall j :: 0 <= j < i && Selected(groups[j], filtered) ==>
                    && (forall q :: q in groups[j].prerequisites ==> Satisfied(groups, q, Repo()))
                    && (!prereqsOnly ==> ProductIds(groups[j]) <= Repo() && j in run)
      {
        if filtered && groups[i].filtered {
          continue;
        }
        assert groups[i] in groups && Selected(groups[i], filtered);
        ghost var r1, s1, more := Repo(), opr.Current(), [];
        if !prereqsOnly && !groups[i].submodules {
          return SubmoduleFailed(i), run;
        }
        r, more := RequireAll(groups[i].prerequisites);
        StoredAppend(groups, old(opr.Current()), s1, opr.Current(), run, more);
        OrderedAppend(groups, old(Repo()), r1, Repo(), run, more);
        run := run + more;
        if !r.Done? {
          return;
        }
        ghost var r3 := Repo();
        if !prereqsOnly {
          ghost var r2, s2 := Repo(), opr.Current();
          var ok := BuildGroup(i);
          if !ok {
            return BuildFailed(i), run;
          }
          StoredOne(groups, s2, i);
          StoredAppend(groups, old(opr.Current()), s2, opr.Current(), run, [i]);
          forall q | q in groups[i].prerequisites ensures q in r2 {
            SatisfiedFacts(groups, q, r2);
          }
          OrderedOne(groups, r2, i);
          OrderedAppend(groups, old(Repo()), r2, Repo(), run, [i]);
          run := run + [i];
        }
        forall q ensures Satisfied(groups, q, r1) ==> Satisfied(groups, q, Repo()) {
          SatisfiedLater(groups, q, r1, Repo());
        }
        forall q | q in groups[i].prerequisites ensures Satisfied(groups, q, Repo()) {
          SatisfiedLater(groups, q, r3, Repo());
        }
        built := true;
      }
      r := if built then Done else NothingToBuild;
    }

    /** Once a package has been required, requiring it again without force builds nothing. */
    method RequireAgain(pkg: Id, force: bool, buildMissing: bool)
      returns (first: Outcome, second: Outcome, ghost again: seq<nat>)
      requires AcyclicFrom(groups, pkg)
      modifies opr
      ensures old(Repo()) <= Repo()
      ensures Known(groups, pkg) && first.Done? ==> second.Done? && again == []
    {
      ghost var run;
      ghost var r0 := Repo();
      first, run := Require(pkg, force, buildMissing, false);
      ghost var r1 := Repo();
      second, again := Require(pkg, false, true, false);
      GrewFacts(groups, Scope(groups, pkg), r0, r1, run);
      GrewFacts(groups, Scope(groups, pkg), r1, Repo(), again);
    }
  }
}
