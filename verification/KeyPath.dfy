/** Dotted key paths into nested dictionaries. */
module KeyPath {
  import opened Basics

  // ----- Splitting ---------------------------------------------------------------------------

  /** Python's `s.split('.')` */
  function Split(s: string): (p: seq<string>)
    ensures p != []
  {
    if s == "" then [""]
    else
      var rest := Split(s[1..]);
      if s[0] == '.' then [""] + rest else [[s[0]] + rest[0]] + rest[1..]
  }

  function Join(p: seq<string>): string {
    if p == [] then "" else if |p| == 1 then p[0] else p[0] + "." + Join(p[1..])
  }

  /** Splitting loses nothing, and yields no dots. */
  lemma {:induction false} JoinSplit(s: string)
    ensures Join(Split(s)) == s
    ensures forall k :: 0 <= k < |Split(s)| ==> '.' !in Split(s)[k]
  {
    if s != "" {
      JoinSplit(s[1..]);
      var rest := Split(s[1..]);
      if s[0] == '.' {
        assert ([""] + rest)[1..] == rest;
        assert s == "" + "." + s[1..];
      } else {
        var first := [s[0]] + rest[0];
        assert ([first] + rest[1..])[1..] == rest[1..];
        assert s == [s[0]] + s[1..];
        if |rest| > 1 {
          assert first + "." + Join(rest[1..]) == [s[0]] + (rest[0] + "." + Join(rest[1..]));
        }
      }
    }
  }

  /** Every path of names without dots is the split of its dotted form. */
  lemma {:induction false} SplitJoin(p: seq<string>)
    requires p != [] && forall k :: 0 <= k < |p| ==> '.' !in p[k]
    ensures Split(Join(p)) == p
    decreases |p|, |p[0]|
  {
    var s := Join(p);
    if p[0] != "" {
      var q := p[0 := p[0][1..]];
      assert q[1..] == p[1..];
      assert s[0] == p[0][0] && s[1..] == Join(q);
      SplitJoin(q);
      assert [p[0][0]] + q[0] == p[0];
      assert [p[0]] + p[1..] == p;
    } else if |p| > 1 {
      assert s[0] == '.' && s[1..] == Join(p[1..]);
      SplitJoin(p[1..]);
      assert [""] + p[1..] == p;
    }
  }

  // ----- Trees -------------------------------------------------------------------------------

  datatype Tree = Leaf(n: int) | Dict(items: map<string, Tree>)

  type Path = p: seq<string> | p != [] witness [""]

  function Get(t: Tree, p: seq<string>): Option<Tree> {
    if p == [] then Some(t)
    else if t.Dict? && p[0] in t.items then Get(t.items[p[0]], p[1..])
    else None
  }

  /** The dictionary or leaf under a key, or a new dictionary. */
  function Child(items: map<string, Tree>, k: string): Tree {
    if k in items then items[k] else Dict(map[])
  }

  /** The update at a path; fails on a leaf where a dictionary is needed. */
  function Assign(t: Tree, p: Path, v: Tree): Option<Tree>
    decreases |p|
  {
    if t.Leaf? then None
    else if |p| == 1 then Some(Dict(t.items[p[0] := v]))
    else
      var c := Assign(Child(t.items, p[0]), p[1..], v);
      if c.None? then None else Some(Dict(t.items[p[0] := c.value]))
  }

  lemma {:induction false} GetAppend(t: Tree, p: seq<string>, q: seq<string>)
    ensures Get(t, p + q) == if Get(t, p).Some? then Get(Get(t, p).value, q) else None
  {
    if p == [] {
      assert p + q == q;
    } else {
      assert (p + q)[1..] == p[1..] + q;
      if t.Dict? && p[0] in t.items {
        GetAppend(t.items[p[0]], p[1..], q);
      }
    }
  }

  /** What is on the way is a dictionary, or not there. */
  predicate Open(t: Tree, p: seq<string>) {
    forall n :: 0 <= n < |p| && Get(t, p[..n]).Some? ==> Get(t, p[..n]).value.Dict?
  }

  lemma OpenChild(t: Tree, p: Path)
    requires t.Dict?
    ensures Open(t, p) <==> Open(Child(t.items, p[0]), p[1..])
  {
    var c := Child(t.items, p[0]);
    forall n | 0 <= n < |p| - 1
      ensures Get(t, p[..n + 1]) == if p[0] in t.items then Get(c, p[1..][..n]) else None
    {
      assert p[..n + 1][1..] == p[1..][..n];
    }
    if p[0] !in t.items {
      forall n | 0 <= n < |p| - 1 ensures Get(c, p[1..][..n]).Some? ==> n == 0 {
      }
    }
    if Open(t, p) {
      forall n | 0 <= n < |p| - 1 && Get(c, p[1..][..n]).Some?
        ensures Get(c, p[1..][..n]).value.Dict?
      {
        assert Get(t, p[..n + 1]) == if p[0] in t.items then Get(c, p[1..][..n]) else None;
      }
    }
    if Open(c, p[1..]) {
      forall n | 0 <= n < |p| && Get(t, p[..n]).Some?
        ensures Get(t, p[..n]).value.Dict?
      {
        if n > 0 {
          assert Get(t, p[..n - 1 + 1]) == if p[0] in t.items then Get(c, p[1..][..n - 1]) else None;
        }
      }
    }
  }

  lemma {:induction false} AssignSucceedsIffOpen(t: Tree, p: Path, v: Tree)
    ensures Assign(t, p, v).Some? <==> Open(t, p)
    decreases |p|
  {
    if t.Leaf? {
      assert Get(t, p[..0]) == Some(t);
    } else {
      OpenChild(t, p);
      if |p| > 1 {
        AssignSucceedsIffOpen(Child(t.items, p[0]), p[1..], v);
      }
    }
  }

  // ----- Laws of the update ------------------------------------------------------------------

  lemma {:induction false} GetAssign(t: Tree, p: Path, v: Tree)
    requires Assign(t, p, v).Some?
    ensures Get(Assign(t, p, v).value, p) == Some(v)
    decreases |p|
  {
    if |p| > 1 {
      GetAssign(Child(t.items, p[0]), p[1..], v);
    }
  }

  predicate Apart(p: seq<string>, q: seq<string>) {
    !(p <= q) && !(q <= p)
  }

  lemma ApartTails(p: seq<string>, q: seq<string>)
    requires Apart(p, q)
    ensures p != [] && q != [] && (p[0] == q[0] ==> Apart(p[1..], q[1..]))
  {
  }

  lemma {:induction false} GetElsewhere(t: Tree, p: Path, v: Tree, q: seq<string>)
    requires Assign(t, p, v).Some? && Apart(p, q)
    ensures Get(Assign(t, p, v).value, q) == Get(t, q)
    decreases |p|
  {
    ApartTails(p, q);
    if p[0] == q[0] {
      GetElsewhere(Child(t.items, p[0]), p[1..], v, q[1..]);
    }
  }

  lemma {:induction false} AssignAssign(t: Tree, p: Path, v: Tree, w: Tree)
    requires Assign(t, p, v).Some?
    ensures Assign(Assign(t, p, v).value, p, w) == Assign(t, p, w)
    decreases |p|
  {
    var r := Assign(t, p, v).value;
    if |p| == 1 {
      assert t.items[p[0] := v][p[0] := w] == t.items[p[0] := w];
    } else {
      var c := Child(t.items, p[0]);
      AssignAssign(c, p[1..], v, w);
      var cv, cw := Assign(c, p[1..], v).value, Assign(c, p[1..], w);
      assert cw.Some? ==> t.items[p[0] := cv][p[0] := cw.value] == t.items[p[0] := cw.value];
    }
  }

  lemma {:induction false} AssignWhatIsThere(t: Tree, p: Path, v: Tree)
    requires Get(t, p) == Some(v)
    ensures Assign(t, p, v) == Some(t)
    decreases |p|
  {
    if |p| > 1 {
      AssignWhatIsThere(t.items[p[0]], p[1..], v);
    }
    assert t.items[p[0] := t.items[p[0]]] == t.items;
  }

  lemma {:induction false} AssignsCommute(t: Tree, p: Path, v: Tree, q: Path, w: Tree)
    requires Assign(t, p, v).Some? && Assign(t, q, w).Some? && Apart(p, q)
    ensures Assign(Assign(t, p, v).value, q, w).Some?
    ensures Assign(Assign(t, p, v).value, q, w) == Assign(Assign(t, q, w).value, p, v)
    decreases |p|
  {
    ApartTails(p, q);
    var items := t.items;
    if p[0] == q[0] {
      var c := Child(items, p[0]);
      AssignsCommute(c, p[1..], v, q[1..], w);
      var a, b := Assign(c, p[1..], v).value, Assign(c, q[1..], w).value;
      var ab := Assign(a, q[1..], w).value;
      assert items[p[0] := a][p[0] := ab] == items[p[0] := ab] == items[p[0] := b][p[0] := ab];
    } else {
      var a := Assign(t, p, v).value.items[p[0]];
      var b := Assign(t, q, w).value.items[q[0]];
      assert items[p[0] := a][q[0] := b] == items[q[0] := b][p[0] := a];
    }
  }

  // ----- What setkeypath does ----------------------------------------------------------------

  /** The walk of the code, which takes a key for the last one when it has the same name. */
  function SetPath(t: Tree, p: Path, v: Tree): Option<Tree>
    decreases |p|
  {
    if t.Leaf? then None
    else if p[0] == p[|p| - 1] then Some(Dict(t.items[p[0] := v]))
    else
      var c := SetPath(Child(t.items, p[0]), p[1..], v);
      if c.None? then None else Some(Dict(t.items[p[0] := c.value]))
  }

  /** The path up to the first key with the name of the last one. */
  function Effective(p: Path): (e: Path)
    ensures e <= p && e[|e| - 1] == p[|p| - 1] && p[|p| - 1] !in e[..|e| - 1]
  {
    if p[0] == p[|p| - 1] then [p[0]] else [p[0]] + Effective(p[1..])
  }

  /** The last key does not occur earlier. */
  predicate LastIsNew(p: Path) {
    p[|p| - 1] !in p[..|p| - 1]
  }

  lemma EffectiveIsAllIff(p: Path)
    ensures Effective(p) == p <==> LastIsNew(p)
  {
  }

  /** The code updates at the effective path, whatever the path. */
  lemma {:induction false} SetPathIsAssign(t: Tree, p: Path, v: Tree)
    ensures SetPath(t, p, v) == Assign(t, Effective(p), v)
    decreases |p|
  {
    if p[0] != p[|p| - 1] {
      assert Effective(p)[1..] == Effective(p[1..]);
      if t.Dict? {
        SetPathIsAssign(Child(t.items, p[0]), p[1..], v);
      }
    }
  }

  /** A tree is not a proper part of itself. */
  lemma {:induction false} NotItsOwnPart(v: Tree, p: Path)
    ensures Get(v, p) != Some(v)
    decreases v
  {
    if Get(v, p) == Some(v) {
      var c := v.items[p[0]];
      GetAppend(c, p[1..], [p[0]]);
      assert Get(v, [p[0]]) == Some(c);
      NotItsOwnPart(c, p[1..] + [p[0]]);
    }
  }

  /** Reading a path back gives the value exactly when the last key occurs nowhere earlier in it. */
  lemma GetAfterSetIff(t: Tree, p: Path, v: Tree)
    requires SetPath(t, p, v).Some?
    ensures Get(SetPath(t, p, v).value, p) == Some(v) <==> LastIsNew(p)
  {
    SetPathIsAssign(t, p, v);
    EffectiveIsAllIff(p);
    var e := Effective(p);
    GetAssign(t, e, v);
    if e != p {
      assert p == e + p[|e|..];
      GetAppend(SetPath(t, p, v).value, e, p[|e|..]);
      NotItsOwnPart(v, p[|e|..]);
    }
  }

  /** The laws of a lens, for a path whose last key is new in it. */
  lemma SetPathLaws(t: Tree, p: Path, v: Tree, w: Tree, q: seq<string>)
    requires LastIsNew(p)
    ensures SetPath(t, p, v).Some? <==> Open(t, p)
    ensures SetPath(t, p, v).Some? ==>
              var r := SetPath(t, p, v).value;
              && Get(r, p) == Some(v)
              && SetPath(r, p, w) == SetPath(t, p, w)
              && (Apart(p, q) ==> Get(r, q) == Get(t, q))
    ensures Get(t, p) == Some(v) ==> SetPath(t, p, v) == Some(t)
  {
    EffectiveIsAllIff(p);
    SetPathIsAssign(t, p, v);
    SetPathIsAssign(t, p, w);
    AssignSucceedsIffOpen(t, p, v);
    if Get(t, p) == Some(v) {
      AssignWhatIsThere(t, p, v);
    }
    if Assign(t, p, v).Some? {
      GetAssign(t, p, v);
      SetPathIsAssign(SetPath(t, p, v).value, p, w);
      AssignAssign(t, p, v, w);
      if Apart(p, q) {
        GetElsewhere(t, p, v, q);
      }
    }
  }

  /** A key path that names its first and its last key alike is cut short. */
  lemma CutShort(v: Tree)
    ensures var p := Split("a.b.a");
            var r := SetPath(Dict(map[]), p, v);
            r.Some? && r.value == Dict(map["a" := v]) && Get(r.value, p) != Some(v)
  {
    SplitJoin(["a", "b", "a"]);
    assert Join(["a", "b", "a"]) == "a.b.a";
    GetAfterSetIff(Dict(map[]), ["a", "b", "a"], v);
  }
}
