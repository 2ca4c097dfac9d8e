/**
 Default package keys: the walk from a package file up the directory tree, the layering of the
 defaults found on the way, and the precedence of package over common over default keys.
 */
module PackageDefaults {
  import opened Basics

  type Dict = map<string, string>

  // ----- os.path.dirname ---------------------------------------------------------------------

  function HeadLength(p: string): (n: nat)
    ensures n <= |p|
    ensures n > 0 ==> p[n - 1] == '/'
    ensures forall i :: n <= i < |p| ==> p[i] != '/'
  {
    if p == "" || p[|p| - 1] == '/' then |p| else HeadLength(p[..|p| - 1])
  }

  predicate AllSlashes(s: string) {
    forall c :: c in s ==> c == '/'
  }

  function StripSlashes(s: string): (r: string)
    ensures r <= s
    ensures r != "" ==> r[|r| - 1] != '/'
    ensures forall i :: |r| <= i < |s| ==> s[i] == '/'
  {
    if s != "" && s[|s| - 1] == '/' then StripSlashes(s[..|s| - 1]) else s
  }

  function DirName(p: string): string {
    var head := p[..HeadLength(p)];
    if AllSlashes(head) then head else StripSlashes(head)
  }

  /** An absolute path that starts with one slash, not two. */
  predicate SingleRooted(p: string) {
    |p| > 0 && p[0] == '/' && (|p| > 1 ==> p[1] != '/')
  }

  lemma DirNameClimbs(p: string)
    requires SingleRooted(p)
    ensures SingleRooted(DirName(p))
    ensures p != "/" ==> |DirName(p)| < |p|
  {
    var n := HeadLength(p);
    var head := p[..n];
    assert p[0] == '/' && n > 0;
    if AllSlashes(head) {
      if n > 1 {
        assert head[1] in head;
      }
    } else {
      var c :| c in head && c != '/';
      var i :| 0 <= i < n && head[i] == c;
      var r := StripSlashes(head);
      assert |r| > i;
      assert r[0] == p[0];
      if n == |p| {
        assert p[|p| - 1] == '/';
        assert r[|r| - 1] == head[|r| - 1];
      }
    }
  }

  lemma DirNameStaysOutside(p: string)
    requires !SingleRooted(p)
    ensures !SingleRooted(DirName(p))
  {
  }

  function Climb(p: string, n: nat): string
    decreases n
  {
    if n == 0 then p else Climb(DirName(p), n - 1)
  }

  lemma {:induction false} ClimbArrives(p: string) returns (n: nat)
    requires SingleRooted(p)
    ensures Climb(p, n) == "/"
    decreases |p|
  {
    if p == "/" {
      n := 0;
    } else {
      DirNameClimbs(p);
      var m := ClimbArrives(DirName(p));
      n := m + 1;
    }
  }

  lemma {:induction false} ClimbNeverArrives(p: string, n: nat)
    requires !SingleRooted(p)
    ensures Climb(p, n) != "/"
    decreases n
  {
    if n > 0 {
      DirNameStaysOutside(p);
      ClimbNeverArrives(DirName(p), n - 1);
    }
  }

  /** The walk to `/` ends exactly for absolute paths that start with a single slash. */
  lemma WalkEndsIffSingleRooted(p: string)
    ensures (exists n: nat :: Climb(p, n) == "/") <==> SingleRooted(p)
  {
    if SingleRooted(p) {
      var n := ClimbArrives(p);
    } else {
      forall n: nat ensures Climb(p, n) != "/" {
        ClimbNeverArrives(p, n);
      }
    }
  }

  // ----- The walk in terms of path components ------------------------------------------------

  predicate NoSlash(name: string) {
    forall c :: c in name ==> c != '/'
  }

  lemma {:induction false} HeadEnds(d: string, name: string)
    requires NoSlash(name)
    ensures HeadLength(d + "/" + name) == |d| + 1
  {
    var p := d + "/" + name;
    if name != "" {
      var short := name[..|name| - 1];
      assert forall c :: c in short ==> c in name;
      assert name[|name| - 1] in name;
      assert p[..|p| - 1] == d + "/" + short;
      HeadEnds(d, short);
    }
  }

  /** A step up drops one name, and no more. */
  lemma DirNameDropsOne(d: string, name: string)
    requires NoSlash(name) && (d != "" ==> d[|d| - 1] != '/')
    ensures DirName(d + "/" + name) == if d == "" then "/" else d
  {
    var p := d + "/" + name;
    HeadEnds(d, name);
    assert p[..|d| + 1] == d + "/";
    if d != "" {
      assert (d + "/")[|d| - 1] in d + "/";
      assert (d + "/")[..|d|] == d;
    }
  }

  predicate Names(names: seq<string>) {
    forall name :: name in names ==> name != "" && NoSlash(name)
  }

  /** The absolute path of these names. */
  function PathOf(names: seq<string>): string {
    if names == [] then "/" else Under(names)
  }

  function Under(names: seq<string>): string {
    if names == [] then "" else Under(names[..|names| - 1]) + "/" + names[|names| - 1]
  }

  lemma {:induction false} UnderIsPath(names: seq<string>)
    requires Names(names)
    ensures SingleRooted(PathOf(names))
    ensures names != [] ==> SingleRooted(Under(names)) && |Under(names)| > 1 && Under(names)[|Under(names)| - 1] != '/'
  {
    if names != [] {
      var k := |names| - 1;
      assert names[k] in names && names[k][0] in names[k] && names[k][|names[k]| - 1] in names[k];
      assert forall name :: name in names[..k] ==> name in names;
      UnderIsPath(names[..k]);
    }
  }

  lemma ClimbOne(names: seq<string>)
    requires Names(names) && names != []
    ensures DirName(PathOf(names)) == PathOf(names[..|names| - 1]) && PathOf(names) != "/"
  {
    hide DirName, SingleRooted;
    var k := |names| - 1;
    assert names[k] in names && forall name :: name in names[..k] ==> name in names;
    UnderIsPath(names);
    UnderIsPath(names[..k]);
    DirNameDropsOne(Under(names[..k]), names[k]);
  }

  /** From a path of `n` names the walk is at its first `n - k` names after `k` steps. */
  lemma {:induction false} ClimbDropsNames(names: seq<string>, k: nat)
    requires Names(names) && k <= |names|
    ensures Climb(PathOf(names), k) == PathOf(names[..|names| - k])
    decreases k
  {
    hide DirName, PathOf, NoSlash;
    if k == 0 {
      assert names[..|names|] == names;
    } else {
      var up := names[..|names| - 1];
      ClimbOne(names);
      assert forall name :: name in up ==> name in names;
      ClimbDropsNames(up, k - 1);
      assert up[..|up| - (k - 1)] == names[..|names| - k];
    }
  }

  // ----- What the walk collects --------------------------------------------------------------

  const CANDIDATES: seq<string> := ["PKG_DEFAULTS.yml", "PKG_DEFAULTS", ".PKG_DEFAULTS.yml", ".PKG_DEFAULTS"]

  function Join(dir: string, name: string): string {
    if dir == "" || dir[|dir| - 1] == '/' then dir + name else dir + "/" + name
  }

  /** The defaults files of one directory, those present, in the order they are looked for. */
  function Found(files: map<string, Dict>, dir: string, n: nat): seq<Dict>
    requires n <= |CANDIDATES|
  {
    if n == 0 then []
    else
      var f := Join(dir, CANDIDATES[n - 1]);
      Found(files, dir, n - 1) + if f in files then [files[f]] else []
  }

  function Collected(files: map<string, Dict>, dir: string): seq<Dict>
    requires SingleRooted(dir)
    decreases |dir|
  {
    if dir == "/" then []
    else
      DirNameClimbs(dir);
      Found(files, dir, |CANDIDATES|) + Collected(files, DirName(dir))
  }

  /** The files of each directory on the path, the deepest first. */
  function FoundAlong(files: map<string, Dict>, names: seq<string>): seq<Dict> {
    if names == [] then []
    else Found(files, PathOf(names), 4) + FoundAlong(files, names[..|names| - 1])
  }

  /** Every directory of the path is searched once, and no other. */
  lemma {:induction false} CollectedAlongPath(files: map<string, Dict>, names: seq<string>)
    requires Names(names)
    ensures SingleRooted(PathOf(names)) && Collected(files, PathOf(names)) == FoundAlong(files, names)
  {
    hide Found, DirName, SingleRooted;
    UnderIsPath(names);
    if names != [] {
      ClimbOne(names);
      assert forall name :: name in names[..|names| - 1] ==> name in names;
      CollectedAlongPath(files, names[..|names| - 1]);
    }
  }

  /** Later layers first: `results[0]` ends on top. */
  function Layered(base: Dict, results: seq<Dict>): Dict {
    if results == [] then base else Layered(base, results[1..]) + results[0]
  }

  method PackageDefaultsGet(builtin: Dict, files: map<string, Dict>, pkg: string) returns (ddict: Dict)
    requires SingleRooted(pkg)
    ensures SingleRooted(DirName(pkg))
    ensures ddict == Layered(builtin, Collected(files, DirName(pkg)))
  {
    hide DirName, Found, Layered, SingleRooted;
    DirNameClimbs(pkg);
    var searchdir := DirName(pkg);
    var results: seq<Dict> := [];
    while searchdir != "/"
      invariant SingleRooted(searchdir)
      invariant results + Collected(files, searchdir) == Collected(files, DirName(pkg))
      decreases |searchdir|
    {
      var here := SearchDirectory(files, searchdir);
      DirNameClimbs(searchdir);
      assert results + (here + Collected(files, DirName(searchdir)))
          == (results + here) + Collected(files, DirName(searchdir));
      results := results + here;
      searchdir := DirName(searchdir);
    }
    assert results + [] == results;
    ddict := ApplyReversed(builtin, results);
  }

  /** The inner loop: the defaults files of one directory. */
  method SearchDirectory(files: map<string, Dict>, dir: string) returns (results: seq<Dict>)
    ensures results == Found(files, dir, |CANDIDATES|)
  {
    results := [];
    for k := 0 to |CANDIDATES|
      invariant results == Found(files, dir, k)
    {
      var f := Join(dir, CANDIDATES[k]);
      if f in files {
        results := results + [files[f]];
      }
    }
  }

  /** The final loop: shallow defaults first, deeper ones over them, empty ones skipped. */
  method ApplyReversed(builtin: Dict, results: seq<Dict>) returns (ddict: Dict)
    ensures ddict == Layered(builtin, results)
  {
    ddict := builtin;
    assert results[|results|..] == [];
    for i := |results| downto 0
      invariant ddict == Layered(builtin, results[i..])
    {
      assert results[i..][1..] == results[i + 1..];
      if results[i] != map[] {
        ddict := ddict + results[i];
      } else {
        assert ddict + results[i] == ddict;
      }
    }
    assert results[0..] == results;
  }

  // ----- Which value wins --------------------------------------------------------------------

  function Lookup(d: Dict, key: string): Option<string> {
    if key in d then Some(d[key]) else None
  }

  /** What one directory says of a key: the plain files win over the dotted ones, yml over program. */
  function DirectoryValue(files: map<string, Dict>, dir: string, key: string, n: nat): Option<string>
    requires n <= |CANDIDATES|
    decreases |CANDIDATES| - n
  {
    if n == |CANDIDATES| then None
    else
      var f := Join(dir, CANDIDATES[n]);
      if f in files && key in files[f] then Some(files[f][key]) else DirectoryValue(files, dir, key, n + 1)
  }

  /** The four files by name, the first that defines the key deciding. */
  lemma FourFiles(files: map<string, Dict>, dir: string, key: string)
    requires dir != "" && dir[|dir| - 1] != '/'
    ensures DirectoryValue(files, dir, key, 0)
         == OrElse(FileValue(files, dir + "/PKG_DEFAULTS.yml", key),
            OrElse(FileValue(files, dir + "/PKG_DEFAULTS", key),
            OrElse(FileValue(files, dir + "/.PKG_DEFAULTS.yml", key),
                   FileValue(files, dir + "/.PKG_DEFAULTS", key))))
  {
    assert dir + "/" + "PKG_DEFAULTS.yml" == dir + "/PKG_DEFAULTS.yml";
    assert dir + "/" + "PKG_DEFAULTS" == dir + "/PKG_DEFAULTS";
    assert dir + "/" + ".PKG_DEFAULTS.yml" == dir + "/.PKG_DEFAULTS.yml";
    assert dir + "/" + ".PKG_DEFAULTS" == dir + "/.PKG_DEFAULTS";
  }

  function FileValue(files: map<string, Dict>, f: string, key: string): Option<string> {
    if f in files then Lookup(files[f], key) else None
  }

  /** The value from the nearest directory, at or above `dir` but below `/`, that defines the key. */
  function Nearest(files: map<string, Dict>, dir: string, key: string): Option<string>
    requires SingleRooted(dir)
    decreases |dir|
  {
    if dir == "/" then None
    else
      DirNameClimbs(dir);
      var here := DirectoryValue(files, dir, key, 0);
      if here.Some? then here else Nearest(files, DirName(dir), key)
  }

  function OrElse(a: Option<string>, b: Option<string>): Option<string> {
    if a.Some? then a else b
  }

  function FirstDefining(results: seq<Dict>, key: string): Option<string> {
    if results == [] then None else OrElse(Lookup(results[0], key), FirstDefining(results[1..], key))
  }

  lemma {:induction false} LayeredLookup(base: Dict, results: seq<Dict>, key: string)
    ensures Lookup(Layered(base, results), key) == OrElse(FirstDefining(results, key), Lookup(base, key))
  {
    if results != [] {
      LayeredLookup(base, results[1..], key);
    }
  }

  lemma {:induction false} FirstDefiningAppend(a: seq<Dict>, b: seq<Dict>, key: string)
    ensures FirstDefining(a + b, key) == OrElse(FirstDefining(a, key), FirstDefining(b, key))
  {
    if a == [] {
      assert a + b == b;
    } else {
      assert (a + b)[1..] == a[1..] + b;
      FirstDefiningAppend(a[1..], b, key);
    }
  }

  lemma {:induction false} FoundMeaning(files: map<string, Dict>, dir: string, key: string, n: nat)
    requires n <= |CANDIDATES|
    ensures OrElse(FirstDefining(Found(files, dir, n), key), DirectoryValue(files, dir, key, n))
         == DirectoryValue(files, dir, key, 0)
  {
    if n > 0 {
      FoundMeaning(files, dir, key, n - 1);
      var f := Join(dir, CANDIDATES[n - 1]);
      var last := if f in files then [files[f]] else [];
      FirstDefiningAppend(Found(files, dir, n - 1), last, key);
      if f in files {
        assert [files[f]][1..] == [];
        assert FirstDefining(last, key) == Lookup(files[f], key);
      }
    }
  }

  lemma {:induction false} CollectedMeaning(files: map<string, Dict>, dir: string, key: string)
    requires SingleRooted(dir)
    ensures FirstDefining(Collected(files, dir), key) == Nearest(files, dir, key)
    decreases |dir|
  {
    if dir != "/" {
      DirNameClimbs(dir);
      CollectedMeaning(files, DirName(dir), key);
      FoundMeaning(files, dir, key, |CANDIDATES|);
      FirstDefiningAppend(Found(files, dir, |CANDIDATES|), Collected(files, DirName(dir)), key);
    }
  }

  /** Each default key has its value from the nearest directory defining it, else the built-in one. */
  lemma DefaultsComeFromNearest(builtin: Dict, files: map<string, Dict>, dir: string, key: string)
    requires SingleRooted(dir)
    ensures Lookup(Layered(builtin, Collected(files, dir)), key)
         == OrElse(Nearest(files, dir, key), Lookup(builtin, key))
  {
    LayeredLookup(builtin, Collected(files, dir), key);
    CollectedMeaning(files, dir, key);
  }

  /** The package dictionary: default items, then common items, then the package's own. */
  function PackageKeys(pdict: Dict, cdict: Option<Dict>, ddict: Dict): Dict {
    ddict + (if cdict.Some? then cdict.value else map[]) + pdict
  }

  /** Package over common over nearest directory over built-in, for every key. */
  lemma KeyPrecedence(pdict: Dict, cdict: Option<Dict>, builtin: Dict, files: map<string, Dict>,
                      dir: string, key: string)
    requires SingleRooted(dir)
    ensures var common := if cdict.Some? then Lookup(cdict.value, key) else None;
            Lookup(PackageKeys(pdict, cdict, Layered(builtin, Collected(files, dir))), key)
            == OrElse(Lookup(pdict, key), OrElse(common, OrElse(Nearest(files, dir, key), Lookup(builtin, key))))
  {
    DefaultsComeFromNearest(builtin, files, dir, key);
  }
}
