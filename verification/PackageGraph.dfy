/**
 The dependency graph of the package groups: which identifiers a package needs, when the recursion
 over prerequisites ends, and what it means for a series of group builds to be well ordered.
 */
module PackageGraph {
  import opened Basics
  import opened PackageRepository

  /**
   A package group: the identifiers it declares, its prerequisite packages, whether its prerequisite
   submodules can be had, and what its build step yields, or nothing when that step fails.
   */
  datatype Group = Group(packages: seq<Id>, prerequisites: seq<Id>, filtered: bool, submodules: bool,
                         products: Option<seq<Deb>>)

  /** Some group declares the package. */
  predicate Known(groups: seq<Group>, p: Id) {
    exists g :: g in groups && p in g.packages
  }

  /** A group that contains `p` has `q` as a prerequisite. */
  ghost predicate Edge(groups: seq<Group>, p: Id, q: Id) {
    exists g :: g in groups && p in g.packages && q in g.prerequisites
  }

  ghost predicate IsPath(groups: seq<Group>, path: seq<Id>) {
    |path| >= 2 && forall i :: 0 <= i < |path| - 1 ==> Edge(groups, path[i], path[i + 1])
  }

  ghost predicate Joins(groups: seq<Group>, p: Id, q: Id, path: seq<Id>) {
    IsPath(groups, path) && path[0] == p && path[|path| - 1] == q
  }

  /** `q` is a direct or transitive prerequisite of `p`. */
  ghost predicate Reaches(groups: seq<Group>, p: Id, q: Id) {
    exists path :: Joins(groups, p, q, path)
  }

  function AllPrerequisites(groups: seq<Group>): set<Id> {
    set g, q | g in groups && q in g.prerequisites :: q
  }

  ghost function Reach(groups: seq<Group>, p: Id): set<Id> {
    set q | q in AllPrerequisites(groups) && Reaches(groups, p, q)
  }

  /** The package and all it needs. */
  ghost function Scope(groups: seq<Group>, p: Id): set<Id> {
    {p} + Reach(groups, p)
  }

  /** Nothing that `p` leads to leads back to itself. */
  ghost predicate AcyclicFrom(groups: seq<Group>, p: Id) {
    forall q :: q in Scope(groups, p) ==> !Reaches(groups, q, q)
  }

  // ----- Reachability ------------------------------------------------------------------------

  lemma PrerequisiteIsEdge(groups: seq<Group>, p: Id, g: nat, j: nat)
    requires g < |groups| && p in groups[g].packages && j < |groups[g].prerequisites|
    ensures Edge(groups, p, groups[g].prerequisites[j])
  {
  }

  lemma EdgeReaches(groups: seq<Group>, p: Id, q: Id)
    requires Edge(groups, p, q)
    ensures Reaches(groups, p, q) && q in Reach(groups, p)
  {
    assert Joins(groups, p, q, [p, q]);
  }

  lemma ReachesIsReach(groups: seq<Group>, p: Id, q: Id)
    requires Reaches(groups, p, q)
    ensures q in Reach(groups, p)
  {
    var path :| Joins(groups, p, q, path);
    assert Edge(groups, path[|path| - 2], path[|path| - 1]);
  }

  lemma ReachesTransitive(groups: seq<Group>, p: Id, q: Id, r: Id)
    requires Reaches(groups, p, q) && Reaches(groups, q, r)
    ensures Reaches(groups, p, r) && r in Reach(groups, p)
  {
    var a :| Joins(groups, p, q, a);
    var b :| Joins(groups, q, r, b);
    var path := a + b[1..];
    forall i | 0 <= i < |path| - 1 ensures Edge(groups, path[i], path[i + 1]) {
      if i >= |a| - 1 {
        assert path[i] == b[i - (|a| - 1)] && path[i + 1] == b[i + 1 - (|a| - 1)];
      }
    }
    assert Joins(groups, p, r, path);
    ReachesIsReach(groups, p, r);
  }

  /** Along an edge the set of what lies ahead gets strictly smaller: the recursion's measure. */
  lemma ReachShrinks(groups: seq<Group>, p: Id, q: Id)
    requires Edge(groups, p, q) && AcyclicFrom(groups, p)
    ensures Reach(groups, q) < Reach(groups, p)
    ensures Scope(groups, q) <= Reach(groups, p)
    ensures AcyclicFrom(groups, q)
  {
    EdgeReaches(groups, p, q);
    forall r | r in Reach(groups, q) ensures r in Reach(groups, p) {
      ReachesTransitive(groups, p, q, r);
    }
    assert q in Scope(groups, p);
    assert q in Reach(groups, p) && q !in Reach(groups, q);
  }

  /** Everything needed lies behind some direct prerequisite. */
  lemma ReachSplits(groups: seq<Group>, p: Id, r: Id) returns (q: Id)
    requires r in Reach(groups, p)
    ensures Edge(groups, p, q) && r in Scope(groups, q)
  {
    var path :| Joins(groups, p, r, path);
    q := path[1];
    assert Edge(groups, path[0], path[1]);
    if |path| > 2 {
      forall i | 0 <= i < |path[1..]| - 1 ensures Edge(groups, path[1..][i], path[1..][i + 1]) {
        assert Edge(groups, path[i + 1], path[i + 1 + 1]);
      }
      assert Joins(groups, q, r, path[1..]);
      ReachesIsReach(groups, q, r);
    }
  }

  /** A measure that every recursive step decreases. */
  ghost predicate Decreasing(groups: seq<Group>, p: Id, rank: Id -> nat) {
    forall a, b :: a in Scope(groups, p) && Edge(groups, a, b) ==> rank(b) < rank(a)
  }

  lemma {:induction false} RankFallsAlongPath(groups: seq<Group>, p: Id, rank: Id -> nat, path: seq<Id>)
    requires Decreasing(groups, p, rank) && IsPath(groups, path) && path[0] in Scope(groups, p)
    ensures rank(path[|path| - 1]) < rank(path[0])
  {
    assert Edge(groups, path[0], path[1]);
    if |path| > 2 {
      var rest := path[1..];
      forall i | 0 <= i < |rest| - 1 ensures Edge(groups, rest[i], rest[i + 1]) {
        assert Edge(groups, path[i + 1], path[i + 1 + 1]);
      }
      EdgeReaches(groups, path[0], path[1]);
      if path[0] != p {
        ReachesTransitive(groups, p, path[0], path[1]);
      }
      RankFallsAlongPath(groups, p, rank, rest);
    }
  }

  /** The recursion of `require` has a measure exactly when the graph ahead has no cycle. */
  lemma MeasureExistsIffAcyclic(groups: seq<Group>, p: Id)
    ensures AcyclicFrom(groups, p) <==> exists rank: Id -> nat :: Decreasing(groups, p, rank)
  {
    if AcyclicFrom(groups, p) {
      var rank: Id -> nat := q => |Reach(groups, q)|;
      forall a, b | a in Scope(groups, p) && Edge(groups, a, b) ensures rank(b) < rank(a) {
        AcyclicBehind(groups, p, a);
        ReachShrinks(groups, a, b);
        SmallerSet(Reach(groups, b), Reach(groups, a));
      }
      assert Decreasing(groups, p, rank);
    }
    if rank: Id -> nat :| Decreasing(groups, p, rank) {
      forall q | q in Scope(groups, p) ensures !Reaches(groups, q, q) {
        if Reaches(groups, q, q) {
          var path :| Joins(groups, q, q, path);
          RankFallsAlongPath(groups, p, rank, path);
        }
      }
    }
  }

  lemma AcyclicBehind(groups: seq<Group>, p: Id, q: Id)
    requires AcyclicFrom(groups, p) && q in Scope(groups, p)
    ensures AcyclicFrom(groups, q)
  {
    forall r | r in Scope(groups, q) ensures r in Scope(groups, p) {
      if q != p && r != q {
        ReachesTransitive(groups, p, q, r);
      }
    }
  }

  lemma SmallerSet(a: set<Id>, b: set<Id>)
    requires a < b
    ensures |a| < |b|
  {
    assert b == a + (b - a) && |b| == |a| + |b - a|;
  }

  // ----- Series of group builds --------------------------------------------------------------

  function Ids(debs: seq<Deb>): set<Id> {
    set deb | deb in debs :: deb.id
  }

  function ProductIds(g: Group): set<Id> {
    if g.products.Some? then Ids(g.products.value) else {}
  }

  predicate Builds(groups: seq<Group>, run: seq<nat>) {
    forall i :: 0 <= i < |run| ==> run[i] < |groups| && groups[run[i]].products.Some?
  }

  /** The identifiers in the repository after a series of builds. */
  function RepoAfter(groups: seq<Group>, repo: set<Id>, run: seq<nat>): (r: set<Id>)
    requires Builds(groups, run)
    ensures repo <= r
  {
    if run == [] then repo
    else RepoAfter(groups, repo, run[..|run| - 1]) + ProductIds(groups[run[|run| - 1]])
  }

  /** What the repository holds after a series of builds: the products of each, added in turn. */
  function ContentsAfter(groups: seq<Group>, s: State, run: seq<nat>): State
    requires Builds(groups, run)
  {
    if run == [] then s
    else
      var k := |run| - 1;
      AddAll(ContentsAfter(groups, s, run[..k]), groups[run[k]].products.value)
  }

  ghost predicate Stored(groups: seq<Group>, s0: State, s: State, run: seq<nat>) {
    Builds(groups, run) && s == ContentsAfter(groups, s0, run)
  }

  lemma {:induction false} StoredAppend(groups: seq<Group>, s0: State, s1: State, s2: State, a: seq<nat>, b: seq<nat>)
    requires Stored(groups, s0, s1, a) && Stored(groups, s1, s2, b)
    ensures Stored(groups, s0, s2, a + b)
    decreases |b|
  {
    hide AddAll;
    if b == [] {
      assert a + b == a;
    } else {
      var k := |b| - 1;
      assert (a + b)[..|a| + k] == a + b[..k];
      StoredAppend(groups, s0, s1, ContentsAfter(groups, s1, b[..k]), a, b[..k]);
    }
  }

  lemma StoredOne(groups: seq<Group>, s: State, g: nat)
    requires g < |groups| && groups[g].products.Some?
    ensures Stored(groups, s, s, []) && Stored(groups, s, AddAll(s, groups[g].products.value), [g])
  {
    assert [g][..0] == [];
  }

  /** A series of builds inside `scope`, each made only when all its prerequisites were there. */
  ghost predicate Grew(groups: seq<Group>, scope: set<Id>, repo: set<Id>, repo': set<Id>, run: seq<nat>) {
    && Builds(groups, run)
    && repo' == RepoAfter(groups, repo, run)
    && forall i :: 0 <= i < |run| ==>
         && (exists p :: p in scope && p in groups[run[i]].packages)
         && (forall q :: q in groups[run[i]].prerequisites ==> q in RepoAfter(groups, repo, run[..i]))
  }

  /** Each build was called for: a package of the group, in scope, was not there yet. */
  ghost predicate Needed(groups: seq<Group>, scope: set<Id>, repo: set<Id>, run: seq<nat>) {
    && Builds(groups, run)
    && forall i :: 0 <= i < |run| ==>
         exists p :: p in scope && p in groups[run[i]].packages && p !in RepoAfter(groups, repo, run[..i])
  }

  lemma NothingBuilt(groups: seq<Group>, scope: set<Id>, repo: set<Id>)
    ensures Grew(groups, scope, repo, repo, []) && Needed(groups, scope, repo, [])
  {
  }

  lemma GrewFacts(groups: seq<Group>, scope: set<Id>, r0: set<Id>, r1: set<Id>, run: seq<nat>)
    requires Grew(groups, scope, r0, r1, run)
    ensures Builds(groups, run) && r1 == RepoAfter(groups, r0, run) && r0 <= r1
  {
  }

  lemma RepoAfterAppend(groups: seq<Group>, repo: set<Id>, a: seq<nat>, b: seq<nat>)
    requires Builds(groups, a) && Builds(groups, b)
    ensures Builds(groups, a + b)
    ensures RepoAfter(groups, repo, a + b) == RepoAfter(groups, RepoAfter(groups, repo, a), b)
  {
    if b == [] {
      assert a + b == a;
    } else {
      assert (a + b)[..|a + b| - 1] == a + b[..|b| - 1];
      RepoAfterAppend(groups, repo, a, b[..|b| - 1]);
    }
  }

  lemma PrefixOfAppend(groups: seq<Group>, repo: set<Id>, a: seq<nat>, b: seq<nat>, i: nat)
    requires Builds(groups, a) && Builds(groups, b) && i < |a + b|
    ensures Builds(groups, (a + b)[..i])
    ensures RepoAfter(groups, repo, (a + b)[..i]) ==
            if i < |a| then RepoAfter(groups, repo, a[..i])
            else RepoAfter(groups, RepoAfter(groups, repo, a), b[..i - |a|])
  {
    if i < |a| {
      assert (a + b)[..i] == a[..i];
    } else {
      assert (a + b)[..i] == a + b[..i - |a|];
      RepoAfterAppend(groups, repo, a, b[..i - |a|]);
    }
  }

  lemma GrewAppend(groups: seq<Group>, scope: set<Id>, s1: set<Id>, s2: set<Id>,
                   r0: set<Id>, r1: set<Id>, r2: set<Id>, a: seq<nat>, b: seq<nat>)
    requires Grew(groups, s1, r0, r1, a) && Grew(groups, s2, r1, r2, b) && s1 <= scope && s2 <= scope
    ensures Grew(groups, scope, r0, r2, a + b)
  {
    RepoAfterAppend(groups, r0, a, b);
    forall i | 0 <= i < |a + b|
      ensures (exists p :: p in scope && p in groups[(a + b)[i]].packages)
      ensures forall q :: q in groups[(a + b)[i]].prerequisites ==> q in RepoAfter(groups, r0, (a + b)[..i])
    {
      PrefixOfAppend(groups, r0, a, b, i);
      if i < |a| {
        var p :| p in s1 && p in groups[a[i]].packages;
        assert p in scope;
      } else {
        var p :| p in s2 && p in groups[b[i - |a|]].packages;
        assert p in scope;
      }
    }
  }

  lemma NeededAppend(groups: seq<Group>, scope: set<Id>, s1: set<Id>, s2: set<Id>,
                     r0: set<Id>, r1: set<Id>, a: seq<nat>, b: seq<nat>)
    requires Needed(groups, s1, r0, a) && Needed(groups, s2, r1, b) && s1 <= scope && s2 <= scope
    requires r1 == RepoAfter(groups, r0, a)
    ensures Needed(groups, scope, r0, a + b)
  {
    RepoAfterAppend(groups, r0, a, b);
    forall i | 0 <= i < |a + b|
      ensures exists p :: p in scope && p in groups[(a + b)[i]].packages && p !in RepoAfter(groups, r0, (a + b)[..i])
    {
      PrefixOfAppend(groups, r0, a, b, i);
      var p := if i < |a| then NeededAt(groups, s1, r0, a, i) else NeededAt(groups, s2, r1, b, i - |a|);
    }
  }

  ghost function NeededAt(groups: seq<Group>, scope: set<Id>, repo: set<Id>, run: seq<nat>, i: nat): (p: Id)
    requires Needed(groups, scope, repo, run) && i < |run|
    ensures p in scope && p in groups[run[i]].packages && p !in RepoAfter(groups, repo, run[..i])
  {
    assert groups[run[i]].products.Some?;
    var p :| p in scope && p in groups[run[i]].packages && p !in RepoAfter(groups, repo, run[..i]);
    p
  }

  /** A series of builds, each made only when all its prerequisites were there, called for or not. */
  ghost predicate Ordered(groups: seq<Group>, repo: set<Id>, repo': set<Id>, run: seq<nat>) {
    && Builds(groups, run)
    && repo' == RepoAfter(groups, repo, run)
    && forall i :: 0 <= i < |run| ==>
         forall q :: q in groups[run[i]].prerequisites ==> q in RepoAfter(groups, repo, run[..i])
  }

  lemma OrderedAppend(groups: seq<Group>, r0: set<Id>, r1: set<Id>, r2: set<Id>, a: seq<nat>, b: seq<nat>)
    requires Ordered(groups, r0, r1, a) && Ordered(groups, r1, r2, b)
    ensures Ordered(groups, r0, r2, a + b) && r0 <= r1 <= r2
  {
    RepoAfterAppend(groups, r0, a, b);
    forall i | 0 <= i < |a + b|
      ensures forall q :: q in groups[(a + b)[i]].prerequisites ==> q in RepoAfter(groups, r0, (a + b)[..i])
    {
      PrefixOfAppend(groups, r0, a, b, i);
    }
  }

  lemma OrderedOne(groups: seq<Group>, repo: set<Id>, g: nat)
    requires g < |groups| && groups[g].products.Some? && forall q :: q in groups[g].prerequisites ==> q in repo
    ensures Ordered(groups, repo, repo + ProductIds(groups[g]), [g]) && Ordered(groups, repo, repo, [])
  {
    assert [g][..0] == [];
  }

  // ----- Well-kept package trees -------------------------------------------------------------

  /** No identifier belongs to two groups, and a group's build yields the packages it declares. */
  ghost predicate Tidy(groups: seq<Group>) {
    && (forall i, j, p :: 0 <= i < j < |groups| && p in groups[i].packages ==> p !in groups[j].packages)
    && (forall i :: 0 <= i < |groups| && groups[i].products.Some? ==>
          ProductIds(groups[i]) == set p | p in groups[i].packages)
  }

  lemma OnlyGroup(groups: seq<Group>, p: Id, i: nat)
    requires Tidy(groups) && i < |groups| && p in groups[i].packages
    ensures forall j :: 0 <= j < |groups| && j != i ==> p !in groups[j].packages
  {
  }

  predicate NoDuplicates(s: seq<nat>) {
    forall i, j :: 0 <= i < j < |s| ==> s[i] != s[j]
  }

  lemma {:induction false} BuiltStaysBuilt(groups: seq<Group>, repo: set<Id>, run: seq<nat>, i: nat)
    requires Builds(groups, run) && i < |run|
    ensures ProductIds(groups[run[i]]) <= RepoAfter(groups, repo, run)
  {
    if i < |run| - 1 {
      BuiltStaysBuilt(groups, repo, run[..|run| - 1], i);
    }
  }

  /** In a tidy tree builds that were called for never repeat. */
  lemma NeededBuildsAreDistinct(groups: seq<Group>, scope: set<Id>, repo: set<Id>, run: seq<nat>)
    requires Tidy(groups) && Needed(groups, scope, repo, run)
    ensures NoDuplicates(run)
  {
    forall i, j | 0 <= i < j < |run| ensures run[i] != run[j] {
      assert groups[run[j]].products.Some?;
      var p :| p in scope && p in groups[run[j]].packages && p !in RepoAfter(groups, repo, run[..j]);
      BuiltStaysBuilt(groups, repo, run[..j], i);
      assert run[..j][i] == run[i];
    }
  }

  /** The groups behind the prerequisites of `p` do not contain `p`'s own group. */
  lemma OwnGroupIsNotBehind(groups: seq<Group>, p: Id, g: nat, q: Id)
    requires Tidy(groups) && AcyclicFrom(groups, p) && g < |groups| && p in groups[g].packages
    requires q in Reach(groups, p)
    ensures q !in groups[g].packages
  {
    if q in groups[g].packages {
      assert q in Scope(groups, p);
      var x := ReachSplits(groups, p, q);
      var h :| h in groups && p in h.packages && x in h.prerequisites;
      var k :| 0 <= k < |groups| && groups[k] == h;
      assert k == g;
      assert Edge(groups, q, x);
      EdgeReaches(groups, q, x);
      if x != q {
        ReachesTransitive(groups, q, x, q);
      }
    }
  }

  /** Everything in scope is declared somewhere, by groups whose builds succeed and yield it. */
  ghost predicate Complete(groups: seq<Group>, p: Id) {
    forall q :: q in Scope(groups, p) ==>
      && Known(groups, q)
      && forall g :: g in groups && q in g.packages ==> g.submodules && g.products.Some? && q in ProductIds(g)
  }

  lemma {:induction false} NotProduced(groups: seq<Group>, repo: set<Id>, run: seq<nat>, p: Id)
    requires Builds(groups, run) && p !in repo
    requires forall i :: 0 <= i < |run| ==> p !in ProductIds(groups[run[i]])
    ensures p !in RepoAfter(groups, repo, run)
  {
    if run != [] {
      NotProduced(groups, repo, run[..|run| - 1], p);
    }
  }

  /** A group's own build closes the builds of what it needs. */
  lemma OwnBuild(groups: seq<Group>, p: Id, g: nat, r0: set<Id>, r1: set<Id>, run: seq<nat>)
    requires g < |groups| && p in groups[g].packages && groups[g].products.Some?
    requires Grew(groups, Reach(groups, p), r0, r1, run)
    requires forall q :: q in groups[g].prerequisites ==> q in r1
    ensures Grew(groups, Scope(groups, p), r0, r1 + ProductIds(groups[g]), run + [g])
  {
    var own := [g];
    assert own[..0] == [];
    assert Builds(groups, own) && RepoAfter(groups, r1, own) == r1 + ProductIds(groups[g]);
    assert Grew(groups, Scope(groups, p), r1, r1 + ProductIds(groups[g]), own);
    GrewAppend(groups, Scope(groups, p), Reach(groups, p), Scope(groups, p),
               r0, r1, r1 + ProductIds(groups[g]), run, own);
  }

  lemma OwnGroupNotBuilt(groups: seq<Group>, p: Id, g: nat, r0: set<Id>, run: seq<nat>, i: nat)
    requires Tidy(groups) && AcyclicFrom(groups, p)
    requires g < |groups| && p in groups[g].packages
    requires Needed(groups, Reach(groups, p), r0, run) && 0 <= i < |run|
    ensures run[i] != g && p !in ProductIds(groups[run[i]])
  {
    assert groups[run[i]].products.Some?;
    var q :| q in Reach(groups, p) && q in groups[run[i]].packages && q !in RepoAfter(groups, r0, run[..i]);
    OwnGroupIsNotBehind(groups, p, g, q);
  }

  lemma OwnBuildNeeded(groups: seq<Group>, p: Id, g: nat, r: set<Id>)
    requires g < |groups| && p in groups[g].packages && groups[g].products.Some? && p !in r
    ensures Needed(groups, Scope(groups, p), r, [g])
  {
  }

  /** In a tidy tree that own build is new, and called for if the package was not there. */
  lemma OwnBuildIsNew(groups: seq<Group>, p: Id, g: nat, r0: set<Id>, run: seq<nat>)
    requires Tidy(groups) && AcyclicFrom(groups, p)
    requires g < |groups| && p in groups[g].packages && groups[g].products.Some?
    requires Needed(groups, Reach(groups, p), r0, run)
    ensures NoDuplicates(run + [g])
    ensures p !in r0 ==> Needed(groups, Scope(groups, p), r0, run + [g])
  {
    assert Builds(groups, run);
    NeededBuildsAreDistinct(groups, Reach(groups, p), r0, run);
    hide Needed, AcyclicFrom, Tidy, Reaches, ProductIds;
    forall i | 0 <= i < |run| ensures run[i] != g && p !in ProductIds(groups[run[i]]) {
      OwnGroupNotBuilt(groups, p, g, r0, run, i);
    }
    if p !in r0 {
      NotProduced(groups, r0, run, p);
      OwnBuildNeeded(groups, p, g, RepoAfter(groups, r0, run));
      NeededAppend(groups, Scope(groups, p), Reach(groups, p), Scope(groups, p),
                   r0, RepoAfter(groups, r0, run), run, [g]);
    }
  }

  lemma WiderScope(groups: seq<Group>, scope: set<Id>, wide: set<Id>, r0: set<Id>, r1: set<Id>, run: seq<nat>)
    requires scope <= wide
    ensures Grew(groups, scope, r0, r1, run) ==> Grew(groups, wide, r0, r1, run)
    ensures Needed(groups, scope, r0, run) ==> Needed(groups, wide, r0, run)
  {
  }
}
