/**
 The package repository of onlpm: one Debian file per package identifier, and beside it a cache of
 extracted packages whose freshness is decided by comparing timestamps.
 */
module PackageRepository {
  import opened Basics

  /** A package identifier, `name:arch`. */
  datatype Id = Id(name: string, arch: string)

  /** File contents by path. */
  type Tree = map<string, string>

  /** A package file, with the modification time that the copy in the repository gets. */
  datatype Deb = Deb(id: Id, contents: Tree, mtime: int)

  /** A directory of the extract cache, with the timestamp file's time if there is one. */
  datatype Extract = Extract(files: Tree, stamp: Option<int>)

  datatype State = State(files: map<Id, Deb>, extracts: map<string, Extract>)

  /** Debian names and architectures hold no underscore: file names are split at them. */
  predicate Parsable(id: Id) {
    '_' !in id.name && '_' !in id.arch
  }

  /** The directory that `extract` uses, below the cache root. */
  function ExtractDir(id: Id): string {
    id.name + ['_'] + id.arch
  }

  // ----- The operations on values ------------------------------------------------------------

  predicate Under(path: string, dir: string) {
    dir + ['/'] <= path
  }

  /** `add_packages` clears `<arch>/<name>` below the cache root. */
  function Cleared(extracts: map<string, Extract>, id: Id): map<string, Extract> {
    if id.arch in extracts then
      var e := extracts[id.arch];
      extracts[id.arch := e.(files := map p | p in e.files && !Under(p, id.name) :: e.files[p])]
    else extracts
  }

  function AddOne(s: State, deb: Deb): State {
    State(s.files[deb.id := deb], Cleared(s.extracts, deb.id))
  }

  function AddAll(s: State, debs: seq<Deb>): State {
    if debs == [] then s else AddOne(AddAll(s, debs[..|debs| - 1]), debs[|debs| - 1])
  }

  function RemoveOne(s: State, id: Id): State {
    s.(files := s.files - {id})
  }

  /** Whether `extract` leaves an existing directory alone. */
  predicate Reused(s: State, id: Id, force: bool)
    requires id in s.files
  {
    !force && ExtractDir(id) in s.extracts && s.extracts[ExtractDir(id)].stamp == Some(s.files[id].mtime)
  }

  function ExtractOne(s: State, id: Id, force: bool, removeStamp: bool): State {
    if id !in s.files then s else
      var dir := ExtractDir(id);
      var deb := s.files[id];
      var e := if Reused(s, id, force) then s.extracts[dir] else Extract(deb.contents, Some(deb.mtime));
      s.(extracts := s.extracts[dir := if removeStamp then e.(stamp := None) else e])
  }

  // ----- The repository object ---------------------------------------------------------------

  class Repository {
    var files: map<Id, Deb>
    var extracts: map<string, Extract>

    constructor ()
      ensures Current() == State(map[], map[])
    {
      files, extracts := map[], map[];
    }

    ghost function Current(): State
      reads this
    {
      State(files, extracts)
    }

    method AddPackages(debs: seq<Deb>)
      modifies this
      ensures Current() == AddAll(old(Current()), debs)
    {
      assert debs[..|debs|] == debs;
      for i := 0 to |debs|
        invariant Current() == AddAll(old(Current()), debs[..i])
      {
        var deb := debs[i];
        assert debs[..i + 1][..i] == debs[..i];
        files := files[deb.id := deb];
        if deb.id.arch in extracts {
          var e := extracts[deb.id.arch];
          extracts := extracts[deb.id.arch :=
            e.(files := map p | p in e.files && !Under(p, deb.id.name) :: e.files[p])];
        }
      }
    }

    method RemovePackages(ids: seq<Id>)
      modifies this
      ensures extracts == old(extracts)
      ensures files == old(files) - set id | id in ids
    {
      for i := 0 to |ids|
        invariant extracts == old(extracts)
        invariant files == old(files) - set id | id in ids[..i]
      {
        if ids[i] in files {
          files := files - {ids[i]};
        }
        assert ids[..i + 1] == ids[..i] + [ids[i]];
      }
      assert ids[..|ids|] == ids;
    }

    method ExtractPackage(id: Id, force: bool, removeStamp: bool) returns (dir: Option<string>)
      modifies this
      ensures Current() == ExtractOne(old(Current()), id, force, removeStamp)
      ensures files == old(files)
      ensures id !in files ==> dir == None && extracts == old(extracts)
      ensures id in files ==>
                var edir := id.name + "_" + id.arch;
                var now := Some(files[id].mtime);
                && dir == Some(edir)
                && extracts.Keys == old(extracts).Keys + {edir}
                && (forall d :: d in extracts && d != edir ==> extracts[d] == old(extracts)[d])
                && extracts[edir].stamp == (if removeStamp then None else now)
                && extracts[edir].files == if !force && edir in old(extracts) && old(extracts)[edir].stamp == now
                                           then old(extracts)[edir].files else files[id].contents
    {
      if id !in files {
        return None;
      }
      var edir := id.name + ['_'] + id.arch;
      var forced := force;
      if !force && edir in extracts && extracts[edir].stamp.Some? {
        if extracts[edir].stamp.value != files[id].mtime {
          forced := true;
        }
      } else {
        forced := true;
      }
      if forced {
        extracts := extracts - {edir};
        extracts := extracts[edir := Extract(files[id].contents, None)];
        extracts := extracts[edir := extracts[edir].(stamp := Some(files[id].mtime))];
      }
      if removeStamp && extracts[edir].stamp.Some? {
        extracts := extracts[edir := extracts[edir].(stamp := None)];
      }
      dir := Some(edir);
    }
  }

  // ----- Agreement of the cache with the repository ------------------------------------------

  lemma AddAllIds(s: State, debs: seq<Deb>)
    ensures AddAll(s, debs).files.Keys == s.files.Keys + set deb | deb in debs :: deb.id
  {
  }

  /** Of several files with one identifier the last one stays, */
  lemma {:induction false} AddAllKeepsLast(s: State, debs: seq<Deb>, k: nat)
    requires k < |debs| && forall j :: k < j < |debs| ==> debs[j].id != debs[k].id
    ensures debs[k].id in AddAll(s, debs).files && AddAll(s, debs).files[debs[k].id] == debs[k]
  {
    hide Cleared;
    if k < |debs| - 1 {
      AddAllKeepsLast(s, debs[..|debs| - 1], k);
    }
  }

  /** and other identifiers keep what they have. */
  lemma {:induction false} AddAllKeepsOthers(s: State, debs: seq<Deb>, id: Id)
    requires forall j :: 0 <= j < |debs| ==> debs[j].id != id
    ensures var g := AddAll(s, debs).files;
            (id in g <==> id in s.files) && (id in g ==> g[id] == s.files[id])
  {
    hide Cleared;
    if debs != [] {
      AddAllKeepsOthers(s, debs[..|debs| - 1], id);
    }
  }

  /** Clearing takes away exactly what lies below the package's name in the directory of its architecture. */
  lemma ClearedMeaning(extracts: map<string, Extract>, id: Id)
    ensures var g := Cleared(extracts, id);
            && g.Keys == extracts.Keys
            && (forall d :: d in g ==> g[d].stamp == extracts[d].stamp && (d != id.arch ==> g[d] == extracts[d]))
            && (id.arch in g ==>
                  forall p :: p in extracts[id.arch].files ==>
                    if id.name + "/" <= p then p !in g[id.arch].files
                    else p in g[id.arch].files && g[id.arch].files[p] == extracts[id.arch].files[p])
            && (id.arch in g ==> g[id.arch].files.Keys <= extracts[id.arch].files.Keys)
  {
  }

  /** Once the stamp is removed, the next extract makes the directory anew. */
  lemma NoStampMeansAnew(s: State, id: Id, force: bool, files: Tree)
    requires id in s.files
    ensures var s1 := ExtractOne(s, id, force, true);
            && s1.extracts[ExtractDir(id)].stamp == None
            && ExtractOne(s1, id, false, false).extracts[ExtractDir(id)]
               == Extract(s.files[id].contents, Some(s.files[id].mtime))
    ensures var spoiled := s.(extracts := s.extracts[ExtractDir(id) := Extract(files, None)]);
            ExtractOne(spoiled, id, false, false).extracts[ExtractDir(id)].files == s.files[id].contents
  {
  }

  /** Directory names tell identifiers apart. */
  lemma ExtractDirInjective(a: Id, b: Id)
    requires Parsable(a) && Parsable(b) && ExtractDir(a) == ExtractDir(b)
    ensures a == b
  {
    var d := ExtractDir(a);
    assert d[|a.name|] == '_' && d[|b.name|] == '_';
    assert |a.name| == |b.name|;
    assert a.name == d[..|a.name|] && a.arch == d[|a.name| + 1..];
    assert b.name == d[..|b.name|] && b.arch == d[|b.name| + 1..];
  }

  /** Two versions of one package that carry the same time are the same version. */
  ghost predicate DistinctTimes(seen: set<Deb>) {
    forall a, b :: a in seen && b in seen && a.id == b.id && a.mtime == b.mtime ==> a.contents == b.contents
  }

  ghost predicate StampedBy(seen: set<Deb>, dir: string, e: Extract) {
    e.stamp.Some? ==>
      exists deb :: deb in seen && ExtractDir(deb.id) == dir && deb.mtime == e.stamp.value && deb.contents == e.files
  }

  /** What every run keeps: each stamped directory holds some version that was added, at its time. */
  ghost predicate Traceable(s: State, seen: set<Deb>) {
    && (forall deb :: deb in seen ==> Parsable(deb.id))
    && (forall id :: id in s.files ==> s.files[id].id == id && s.files[id] in seen)
    && (forall dir :: dir in s.extracts ==> '_' in dir && StampedBy(seen, dir, s.extracts[dir]))
  }

  datatype Op =
    | AddOp(debs: seq<Deb>)
    | RemoveOp(id: Id)
    | ExtractOp(id: Id, force: bool, removeStamp: bool)

  function Apply(s: State, op: Op): State {
    match op
    case AddOp(debs) => AddAll(s, debs)
    case RemoveOp(id) => RemoveOne(s, id)
    case ExtractOp(id, force, removeStamp) => ExtractOne(s, id, force, removeStamp)
  }

  function Run(s: State, ops: seq<Op>): State {
    if ops == [] then s else Apply(Run(s, ops[..|ops| - 1]), ops[|ops| - 1])
  }

  function Added(ops: seq<Op>): set<Deb> {
    set op, deb | op in ops && op.AddOp? && deb in op.debs :: deb
  }

  /** Clearing `<arch>/<name>` never touches a directory that `extract` made. */
  lemma ClearingIsIdle(s: State, seen: set<Deb>, id: Id)
    requires Traceable(s, seen) && Parsable(id)
    ensures Cleared(s.extracts, id) == s.extracts
  {
  }

  lemma {:induction false} AddAllTraceable(s: State, seen: set<Deb>, debs: seq<Deb>)
    requires Traceable(s, seen) && forall deb :: deb in debs ==> deb in seen
    ensures Traceable(AddAll(s, debs), seen)
  {
    if debs != [] {
      var k := |debs| - 1;
      AddAllTraceable(s, seen, debs[..k]);
      ClearingIsIdle(AddAll(s, debs[..k]), seen, debs[k].id);
    }
  }

  lemma ExtractTraceable(s: State, seen: set<Deb>, id: Id, force: bool, removeStamp: bool)
    requires Traceable(s, seen)
    ensures Traceable(ExtractOne(s, id, force, removeStamp), seen)
  {
  }

  lemma {:induction false} RunTraceable(s: State, seen: set<Deb>, ops: seq<Op>)
    requires Traceable(s, seen) && Added(ops) <= seen
    ensures Traceable(Run(s, ops), seen)
  {
    if ops != [] {
      var k := |ops| - 1;
      assert Added(ops[..k]) <= Added(ops);
      RunTraceable(s, seen, ops[..k]);
      var before := Run(s, ops[..k]);
      match ops[k]
      case AddOp(debs) =>
        forall deb | deb in debs ensures deb in seen {
          assert ops[k] in ops && deb in Added(ops);
        }
        AddAllTraceable(before, seen, debs);
      case RemoveOp(id) =>
      case ExtractOp(id, force, removeStamp) =>
        ExtractTraceable(before, seen, id, force, removeStamp);
    }
  }

  /**
   Over every run of adds, removals and extracts in which versions have distinct times, extracting a
   package yields exactly the contents that the repository now holds for it.
   */
  lemma ExtractYieldsCurrentContents(s: State, seen: set<Deb>, ops: seq<Op>, id: Id, force: bool, removeStamp: bool)
    requires Traceable(s, seen) && Added(ops) <= seen && DistinctTimes(seen)
    ensures var now := Run(s, ops);
            id in now.files ==>
              ExtractOne(now, id, force, removeStamp).extracts[ExtractDir(id)].files == now.files[id].contents
  {
    RunTraceable(s, seen, ops);
    var now := Run(s, ops);
    if id in now.files && Reused(now, id, force) {
      var dir := ExtractDir(id);
      assert StampedBy(seen, dir, now.extracts[dir]);
      var deb :| deb in seen && ExtractDir(deb.id) == dir && deb.mtime == now.files[id].mtime
                 && deb.contents == now.extracts[dir].files;
      ExtractDirInjective(deb.id, id);
    }
  }

  /** Times are what it rests on: after an update, the cache is right exactly if they tell it so. */
  lemma UpdateIsSeenIffTimesDiffer(s: State, seen: set<Deb>, id: Id, v1: Deb, v2: Deb)
    requires Traceable(s, seen) && v1 in seen && v2 in seen && v1.id == v2.id == id
    ensures var ops := [AddOp([v1]), ExtractOp(id, true, false), AddOp([v2]), ExtractOp(id, false, false)];
            var end := Run(s, ops);
            && ExtractDir(id) in end.extracts
            && (end.extracts[ExtractDir(id)].files == v2.contents
                <==> v1.mtime != v2.mtime || v1.contents == v2.contents)
  {
    var a1, x1, a2, x2 := AddOp([v1]), ExtractOp(id, true, false), AddOp([v2]), ExtractOp(id, false, false);
    var ops := [a1, x1, a2, x2];
    assert ops[..3] == [a1, x1, a2] && ops[..3][..2] == [a1, x1] && [a1, x1][..1] == [a1] && [a1][..0] == [];
    assert [v1][..0] == [] && [v2][..0] == [];
    assert AddAll(s, [v1]) == AddOne(s, v1);
    var s1 := AddOne(s, v1);
    ClearingIsIdle(s, seen, id);
    var s2 := ExtractOne(s1, id, true, false);
    assert s2.extracts[ExtractDir(id)] == Extract(v1.contents, Some(v1.mtime));
    assert Traceable(s1, seen);
    ExtractTraceable(s1, seen, id, true, false);
    ClearingIsIdle(s2, seen, id);
    var s3 := AddOne(s2, v2);
    assert AddAll(s2, [v2]) == s3;
    assert Run(s, [a1]) == s1;
    assert Run(s, [a1, x1]) == s2;
    assert Run(s, [a1, x1, a2]) == s3;
    assert Run(s, ops) == ExtractOne(s3, id, false, false);
  }
}
