/** The loop of setkeypath over dictionaries that are shared by reference and changed in place. */
module KeyPathHeap {
  import opened Basics
  import opened KeyPath

  type Ref = nat

  datatype Value = Scalar(n: int) | Object(ref: Ref)

  type Cells = map<Ref, map<string, Value>>

  // ----- Trees in the heap -------------------------------------------------------------------

  /** The value stands for the tree. */
  ghost predicate Rep(h: Cells, v: Value, t: Tree)
    decreases t
  {
    match t
    case Leaf(n) => v == Scalar(n)
    case Dict(items) =>
      && v.Object? && v.ref in h && h[v.ref].Keys == items.Keys
      && forall k :: k in items ==> Rep(h, h[v.ref][k], items[k])
  }

  /** The dictionaries that the tree is made of. */
  ghost function Foot(h: Cells, v: Value, t: Tree): set<Ref>
    requires Rep(h, v, t)
    decreases t
  {
    if t.Leaf? then {} else {v.ref} + Below(h, v, t)
  }

  ghost function Below(h: Cells, v: Value, t: Tree): set<Ref>
    requires Rep(h, v, t) && t.Dict?
    decreases t, 0
  {
    set k, r | k in t.items && r in Foot(h, h[v.ref][k], t.items[k]) :: r
  }

  /** No dictionary is shared or contained in itself. */
  ghost predicate Unshared(h: Cells, v: Value, t: Tree)
    requires Rep(h, v, t)
    decreases t
  {
    t.Dict? ==>
      && v.ref !in Below(h, v, t)
      && (forall k :: k in t.items ==> Unshared(h, h[v.ref][k], t.items[k]))
      && (forall j, k :: j in t.items && k in t.items && j != k ==>
            Foot(h, h[v.ref][j], t.items[j]) !! Foot(h, h[v.ref][k], t.items[k]))
  }

  ghost predicate Tidy(h: Cells, v: Value, t: Tree) {
    Rep(h, v, t) && Unshared(h, v, t)
  }

  /** The other heap has these dictionaries as they are here. */
  predicate Agree(h: Cells, g: Cells, rs: set<Ref>) {
    forall r :: r in rs && r in h ==> r in g && g[r] == h[r]
  }

  lemma FootIsAllocated(h: Cells, v: Value, t: Tree)
    requires Rep(h, v, t)
    ensures forall r :: r in Foot(h, v, t) ==> r in h
    decreases t
  {
    if t.Dict? {
      forall k | k in t.items {
        FootIsAllocated(h, h[v.ref][k], t.items[k]);
      }
    }
  }

  /** A tree is not touched by changes elsewhere. */
  lemma {:induction false} Frame(h: Cells, g: Cells, v: Value, t: Tree)
    requires Tidy(h, v, t) && Agree(h, g, Foot(h, v, t))
    ensures Tidy(g, v, t) && Foot(g, v, t) == Foot(h, v, t)
    decreases t
  {
    if t.Dict? {
      assert v.ref in Foot(h, v, t);
      forall k | k in t.items
        ensures Tidy(g, g[v.ref][k], t.items[k])
        ensures Foot(g, g[v.ref][k], t.items[k]) == Foot(h, h[v.ref][k], t.items[k])
      {
        Frame(h, g, h[v.ref][k], t.items[k]);
      }
      assert Rep(g, v, t);
      assert Below(g, v, t) == Below(h, v, t);
    }
  }

  lemma ChildFoot(h: Cells, v: Value, t: Tree, k: string)
    requires Rep(h, v, t) && t.Dict? && k in t.items
    ensures Foot(h, h[v.ref][k], t.items[k]) <= Below(h, v, t) <= Foot(h, v, t)
  {
  }

  /** What the tree is made of, without what is under one key. */
  ghost function Rest(h: Cells, d: Ref, items: map<string, Tree>, k: string): set<Ref>
    requires Rep(h, Object(d), Dict(items))
  {
    set j, r | j in items && j != k && r in Foot(h, h[d][j], items[j]) :: r
  }

  lemma KeepSibling(h: Cells, g: Cells, d: Ref, items: map<string, Tree>, k: string, j: string)
    requires Tidy(h, Object(d), Dict(items)) && Agree(h, g, Rest(h, d, items, k)) && j in items && j != k
    ensures Tidy(g, h[d][j], items[j]) && Foot(g, h[d][j], items[j]) == Foot(h, h[d][j], items[j])
    ensures Foot(h, h[d][j], items[j]) <= Rest(h, d, items, k) && d !in Foot(h, h[d][j], items[j])
  {
    ChildFoot(h, Object(d), Dict(items), j);
    Frame(h, g, h[d][j], items[j]);
  }

  /** The heap after another tree was put under a key, apart from what stays. */
  ghost predicate Replaced(h: Cells, g: Cells, d: Ref, items: map<string, Tree>, k: string, c: Value, ct: Tree) {
    && Tidy(h, Object(d), Dict(items)) && Tidy(g, c, ct)
    && d in g && g[d] == h[d][k := c]
    && Agree(h, g, Rest(h, d, items, k))
    && d !in Foot(g, c, ct) && Rest(h, d, items, k) !! Foot(g, c, ct)
  }

  lemma ReplacedRep(h: Cells, g: Cells, d: Ref, items: map<string, Tree>, k: string, c: Value, ct: Tree)
    requires Replaced(h, g, d, items, k, c, ct)
    ensures Rep(g, Object(d), Dict(items[k := ct]))
    ensures Below(g, Object(d), Dict(items[k := ct])) == Rest(h, d, items, k) + Foot(g, c, ct)
  {
    var v, t := Object(d), Dict(items[k := ct]);
    forall j | j in items && j != k
      ensures g[d][j] == h[d][j] && Rep(g, g[d][j], items[j])
      ensures Foot(g, g[d][j], items[j]) == Foot(h, h[d][j], items[j])
    {
      KeepSibling(h, g, d, items, k, j);
    }
    assert Rep(g, v, t);
    assert Below(g, v, t) == Rest(h, d, items, k) + Foot(g, c, ct) by {
      ChildFoot(g, v, t, k);
    }
  }

  /** Putting another tree under a key. */
  lemma ReplaceChild(h: Cells, g: Cells, d: Ref, items: map<string, Tree>, k: string, c: Value, ct: Tree)
    requires Replaced(h, g, d, items, k, c, ct)
    ensures Tidy(g, Object(d), Dict(items[k := ct]))
    ensures Foot(g, Object(d), Dict(items[k := ct])) == {d} + Rest(h, d, items, k) + Foot(g, c, ct)
  {
    hide Below;
    ReplacedRep(h, g, d, items, k, c, ct);
    forall j | j in items && j != k
      ensures g[d][j] == h[d][j] && Unshared(g, g[d][j], items[j])
      ensures Foot(g, g[d][j], items[j]) == Foot(h, h[d][j], items[j])
      ensures Foot(h, h[d][j], items[j]) <= Rest(h, d, items, k) && d !in Foot(h, h[d][j], items[j])
    {
      KeepSibling(h, g, d, items, k, j);
    }
    OwnRefNotBelow(h, d, items, k);
  }

  lemma OwnRefNotBelow(h: Cells, d: Ref, items: map<string, Tree>, k: string)
    requires Tidy(h, Object(d), Dict(items))
    ensures d !in Rest(h, d, items, k)
  {
  }

  // ----- The walk ----------------------------------------------------------------------------

  datatype Heap = Heap(cells: Cells, next: Ref) {
    /** References lead to dictionaries, and the next one is not in use. */
    ghost predicate Closed() {
      && (forall r :: r in cells ==> r < next)
      && (forall r, k :: r in cells && k in cells[r] ==> Leads(cells[r][k]))
    }

    predicate Leads(v: Value) {
      v.Object? ==> v.ref in cells
    }

    /** `d[k] = v` */
    function Put(d: Ref, k: string, v: Value): (h: Heap)
      requires d in cells
      ensures Closed() && Leads(v) ==> h.Closed()
    {
      this.(cells := cells[d := cells[d][k := v]])
    }

    /** `d[k] = {}` */
    function PutNew(d: Ref, k: string): (h: Heap)
      requires d in cells && d != next
      ensures Closed() ==> h.Closed()
    {
      Heap(cells[next := map[]][d := cells[d][k := Object(next)]], next + 1)
    }
  }

  /** The remaining walk from the current dictionary, over the remaining keys. */
  function Walk(h: Heap, d: Value, p: Path, v: Value): (r: (Heap, bool))
    requires h.Closed() && h.Leads(d) && h.Leads(v)
    ensures r.0.Closed()
    decreases |p|
  {
    if d.Scalar? then (h, false)
    else if p[0] == p[|p| - 1] then (h.Put(d.ref, p[0], v), true)
    else if p[0] !in h.cells[d.ref] then Walk(h.PutNew(d.ref, p[0]), Object(h.next), p[1..], v)
    else Walk(h, h.cells[d.ref][p[0]], p[1..], v)
  }

  /** In an empty dictionary the walk always reaches its end. */
  lemma {:induction false} EmptyIsOpen(p: Path, v: Tree)
    ensures SetPath(Dict(map[]), p, v).Some?
    decreases |p|
  {
    if p[0] != p[|p| - 1] {
      EmptyIsOpen(p[1..], v);
    }
  }

  // ----- Refinement --------------------------------------------------------------------------

  /** The dictionaries that hold the tree and the value are trees of their own. */
  ghost predicate Ready(h: Heap, d: Value, t: Tree, v: Value, vt: Tree) {
    && h.Closed() && Tidy(h.cells, d, t) && Tidy(h.cells, v, vt)
    && Foot(h.cells, d, t) !! Foot(h.cells, v, vt)
  }

  /** The outcome of an update of the tree in the heap. */
  ghost predicate Updated(h: Heap, d: Value, t: Tree, v: Value, vt: Tree, r: (Heap, bool), out: Option<Tree>) {
    && h.Closed() && r.0.Closed() && h.next <= r.0.next && Rep(h.cells, d, t) && Rep(h.cells, v, vt)
    && r.1 == out.Some?
    && (!r.1 ==> r.0 == h)
    && (forall x :: x in h.cells && x !in Foot(h.cells, d, t) ==> x in r.0.cells && r.0.cells[x] == h.cells[x])
    && (r.1 ==>
          && Tidy(r.0.cells, d, out.value)
          && forall x :: x in Foot(r.0.cells, d, out.value) ==>
               x in Foot(h.cells, d, t) || x in Foot(h.cells, v, vt) || x >= h.next)
  }

  lemma PutUpdates(h: Heap, d: Ref, items: map<string, Tree>, k: string, v: Value, vt: Tree)
    requires Ready(h, Object(d), Dict(items), v, vt) && h.Leads(v)
    ensures Updated(h, Object(d), Dict(items), v, vt, (h.Put(d, k, v), true), Some(Dict(items[k := vt])))
  {
    var g := h.Put(d, k, v);
    assert d in Foot(h.cells, Object(d), Dict(items));
    Frame(h.cells, g.cells, v, vt);
    forall r | r in Rest(h.cells, d, items, k) ensures r != d && r in Foot(h.cells, Object(d), Dict(items)) {
      assert r in Below(h.cells, Object(d), Dict(items));
    }
    ReplaceChild(h.cells, g.cells, d, items, k, v, vt);
  }

  /** The parts of a dictionary: what is under one key and the rest do not meet. */
  lemma Parts(h: Cells, d: Ref, items: map<string, Tree>, k: string)
    requires Tidy(h, Object(d), Dict(items)) && k in items
    ensures Tidy(h, h[d][k], items[k])
    ensures var f := Foot(h, h[d][k], items[k]);
            && Foot(h, Object(d), Dict(items)) == {d} + Rest(h, d, items, k) + f
            && d !in f && d !in Rest(h, d, items, k) && f !! Rest(h, d, items, k)
  {
  }

  lemma Descend(h: Heap, d: Ref, items: map<string, Tree>, k: string, v: Value, vt: Tree,
                r: (Heap, bool), out: Option<Tree>)
    requires Ready(h, Object(d), Dict(items), v, vt) && k in items
    requires Updated(h, h.cells[d][k], items[k], v, vt, r, out)
    ensures Updated(h, Object(d), Dict(items), v, vt, r,
                    if out.None? then None else Some(Dict(items[k := out.value])))
  {
    hide Foot, Below, Unshared, Rest;
    var c, g := h.cells[d][k], r.0.cells;
    Parts(h.cells, d, items, k);
    FootIsAllocated(h.cells, Object(d), Dict(items));
    if r.1 {
      assert g[d] == h.cells[d][k := c];
      ReplaceChild(h.cells, g, d, items, k, c, out.value);
    }
  }

  /** A new empty dictionary under a key that was not there. */
  lemma MakeRoom(h: Heap, d: Ref, items: map<string, Tree>, k: string, v: Value, vt: Tree)
    requires Ready(h, Object(d), Dict(items), v, vt) && k !in items && d in h.cells && d != h.next
    ensures Ready(h.PutNew(d, k), Object(d), Dict(items[k := Dict(map[])]), v, vt)
    ensures Foot(h.PutNew(d, k).cells, Object(d), Dict(items[k := Dict(map[])]))
         == Foot(h.cells, Object(d), Dict(items)) + {h.next}
    ensures Foot(h.PutNew(d, k).cells, v, vt) == Foot(h.cells, v, vt)
  {
    hide Foot, Below, Unshared, Rest;
    var e, g := h.next, h.PutNew(d, k).cells;
    FootIsAllocated(h.cells, Object(d), Dict(items));
    FootIsAllocated(h.cells, v, vt);
    RestIsAll(h.cells, d, items, k);
    Frame(h.cells, g, v, vt);
    EmptyDictionary(g, e);
    ReplaceChild(h.cells, g, d, items, k, Object(e), Dict(map[]));
  }

  lemma EmptyDictionary(g: Cells, e: Ref)
    requires e in g && g[e] == map[]
    ensures Tidy(g, Object(e), Dict(map[])) && Foot(g, Object(e), Dict(map[])) == {e}
  {
  }

  lemma RestIsAll(h: Cells, d: Ref, items: map<string, Tree>, k: string)
    requires Tidy(h, Object(d), Dict(items)) && k !in items
    ensures Foot(h, Object(d), Dict(items)) == {d} + Rest(h, d, items, k) && d !in Rest(h, d, items, k)
  {
    assert Below(h, Object(d), Dict(items)) == Rest(h, d, items, k);
  }

  lemma NothingUpdated(h: Heap, d: Value, t: Tree, v: Value, vt: Tree)
    requires Ready(h, d, t, v, vt)
    ensures Updated(h, d, t, v, vt, (h, false), None)
  {
  }

  lemma UpdatedAfterRoom(h: Heap, d: Ref, items: map<string, Tree>, k: string, v: Value, vt: Tree,
                         r: (Heap, bool), out: Option<Tree>)
    requires Ready(h, Object(d), Dict(items), v, vt) && k !in items && d in h.cells && d != h.next && out.Some?
    requires Updated(h.PutNew(d, k), Object(d), Dict(items[k := Dict(map[])]), v, vt, r, out)
    ensures Updated(h, Object(d), Dict(items), v, vt, r, out)
  {
    hide Foot, Below, Unshared, Rest;
    MakeRoom(h, d, items, k, v, vt);
    assert d in Foot(h.cells, Object(d), Dict(items)) by {
      InOwnFoot(h.cells, d, items);
    }
    var g := h.PutNew(d, k);
    forall x | x in h.cells && x !in Foot(h.cells, Object(d), Dict(items))
      ensures x in r.0.cells && r.0.cells[x] == h.cells[x]
    {
      assert x in g.cells && g.cells[x] == h.cells[x];
    }
  }

  lemma InOwnFoot(h: Cells, d: Ref, items: map<string, Tree>)
    requires Rep(h, Object(d), Dict(items))
    ensures d in Foot(h, Object(d), Dict(items))
  {
  }

  lemma RoomChangesNothing(items: map<string, Tree>, p: Path, v: Tree)
    requires p[0] !in items && p[0] != p[|p| - 1]
    ensures SetPath(Dict(items[p[0] := Dict(map[])]), p, v) == SetPath(Dict(items), p, v)
    ensures SetPath(Dict(items), p, v).Some?
  {
    EmptyIsOpen(p[1..], v);
    var c := SetPath(Dict(map[]), p[1..], v).value;
    assert items[p[0] := Dict(map[])][p[0] := c] == items[p[0] := c];
  }

  /** The walk in the heap does to the tree what SetPath does, and to nothing else anything. */
  lemma {:induction false} WalkRefines(h: Heap, d: Value, t: Tree, p: Path, v: Value, vt: Tree)
    requires Ready(h, d, t, v, vt) && h.Leads(d) && h.Leads(v)
    ensures Updated(h, d, t, v, vt, Walk(h, d, p, v), SetPath(t, p, vt))
    decreases |p|
  {
    hide Foot, Below, Unshared, Rest, Updated;
    if t.Leaf? {
      NothingUpdated(h, d, t, v, vt);
    } else if p[0] == p[|p| - 1] {
      PutUpdates(h, d.ref, t.items, p[0], v, vt);
    } else if p[0] in t.items {
      WalkChild(h, d.ref, t.items, p, v, vt);
    } else {
      MakeRoom(h, d.ref, t.items, p[0], v, vt);
      RoomChangesNothing(t.items, p, vt);
      var g, items := h.PutNew(d.ref, p[0]), t.items[p[0] := Dict(map[])];
      WalkChild(g, d.ref, items, p, v, vt);
      UpdatedAfterRoom(h, d.ref, t.items, p[0], v, vt, Walk(h, d, p, v), SetPath(t, p, vt));
    }
  }

  lemma {:induction false} WalkChild(h: Heap, d: Ref, items: map<string, Tree>, p: Path, v: Value, vt: Tree)
    requires Ready(h, Object(d), Dict(items), v, vt) && h.Leads(v)
    requires p[0] in items && p[0] != p[|p| - 1]
    ensures Updated(h, Object(d), Dict(items), v, vt,
                    Walk(h, h.cells[d][p[0]], p[1..], v), SetPath(Dict(items), p, vt))
    decreases |p|, 0
  {
    hide Foot, Below, Unshared, Rest, Updated;
    Parts(h.cells, d, items, p[0]);
    var c, ct := h.cells[d][p[0]], items[p[0]];
    WalkRefines(h, c, ct, p[1..], v, vt);
    Descend(h, d, items, p[0], v, vt, Walk(h, c, p[1..], v), SetPath(ct, p[1..], vt));
  }

  // ----- The loop ----------------------------------------------------------------------------

  class Store {
    var heap: Heap

    constructor ()
      ensures heap.Closed() && heap.cells == map[]
    {
      heap := Heap(map[], 0);
    }

    /** The loop of the walk. */
    method Run(root: Value, ktree: Path, value: Value) returns (ok: bool)
      requires heap.Closed() && heap.Leads(root) && heap.Leads(value)
      modifies this
      ensures (heap, ok) == Walk(old(heap), root, ktree, value)
    {
      var d := root;
      for i := 0 to |ktree|
        invariant heap.Closed() && heap.Leads(d) && heap.Leads(value)
        invariant i < |ktree| && Walk(heap, d, ktree[i..], value) == Walk(old(heap), root, ktree, value)
      {
        var k := ktree[i];
        assert ktree[i..][0] == k && ktree[i..][|ktree| - i - 1] == ktree[|ktree| - 1];
        assert i + 1 < |ktree| ==> ktree[i..][1..] == ktree[i + 1..];
        if d.Scalar? {
          return false;
        }
        if k == ktree[|ktree| - 1] {
          heap := heap.Put(d.ref, k, value);
          return true;
        } else if k !in heap.cells[d.ref] {
          heap := heap.PutNew(d.ref, k);
        }
        d := heap.cells[d.ref][k];
      }
    }

    /**
     Walks down the keys, making dictionaries that are not there, and puts the value under the last key. Fails
     on anything but a dictionary, as the exception of the original does, and then has changed nothing.
     */
    method SetKeyPath(root: Value, key: string, value: Value, ghost t: Tree, ghost vt: Tree) returns (ok: bool)
      requires Ready(heap, root, t, value, vt) && heap.Leads(root) && heap.Leads(value)
      modifies this
      ensures Updated(old(heap), root, t, value, vt, (heap, ok), SetPath(t, Split(key), vt))
    {
      WalkRefines(heap, root, t, Split(key), value, vt);
      ok := Run(root, Split(key), value);
    }
  }
}
