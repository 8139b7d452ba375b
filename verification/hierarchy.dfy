/** The supertype walk of `ReflectionUtil.getSuperclassesOf`, and a path
    semantics for it: every element of the walk is the end of one upward path
    from the root, each path is listed exactly once, and nothing is
    deduplicated. */
module Hierarchy {
  import opened Wrappers
  import opened Types

  /** The walk: the superclass, if any, followed by its own walk; then, for
      each declared interface in order, the interface followed by its walk. */
  function SuperclassesOf(t: Type): (r: seq<Type>)
    ensures r == [] <==> t.superclass.None? && t.interfaces == []
    ensures t.superclass.Some? ==> r[0] == t.superclass.value
    ensures t.superclass.None? && t.interfaces != [] ==> r[0] == t.interfaces[0]
    decreases t, |t.interfaces| + 1
  {
    (match t.superclass
     case None => []
     case Some(s) => [s] + SuperclassesOf(s))
    + InterfaceBranches(t, 0)
  }

  /** The loop over the declared interfaces of `t`, from the `i`-th on. */
  function InterfaceBranches(t: Type, i: nat): (r: seq<Type>)
    requires i <= |t.interfaces|
    ensures r == [] <==> i == |t.interfaces|
    ensures i < |t.interfaces| ==> r[0] == t.interfaces[i]
    decreases t, |t.interfaces| - i
  {
    if i == |t.interfaces| then []
    else [t.interfaces[i]] + SuperclassesOf(t.interfaces[i]) + InterfaceBranches(t, i + 1)
  }

  // ---------------------------------------------------------------------------
  // Paths

  /** One upward edge: to the superclass, or to the `index`-th declared interface. */
  datatype Step = Super | Iface(index: nat)

  type Path = seq<Step>

  /** The type reached from `t` by following `p`, or `None` if some step does
      not exist. */
  function Follow(t: Type, p: Path): Option<Type>
    decreases t
  {
    if p == [] then Some(t)
    else match p[0]
      case Super =>
        (match t.superclass
         case None => None
         case Some(s) => Follow(s, p[1..]))
      case Iface(k) =>
        if k < |t.interfaces| then Follow(t.interfaces[k], p[1..]) else None
  }

  /** `x` is a transitive supertype of `t`: some non-empty path of declared
      superclass and interface edges leads to it. */
  ghost predicate IsAncestor(t: Type, x: Type) {
    exists p :: p != [] && Follow(t, p) == Some(x)
  }

  /** Every path in `ps`, with `st` put in front. */
  function Prepend(st: Step, ps: seq<Path>): seq<Path> {
    seq(|ps|, k requires 0 <= k < |ps| => [st] + ps[k])
  }

  ghost predicate Distinct<T>(s: seq<T>) {
    forall i, j :: 0 <= i < j < |s| ==> s[i] != s[j]
  }

  /** The non-empty paths from `t`, listed in depth-first pre-order: the same
      visiting order as the walk. */
  ghost function PathsInOrder(t: Type): (r: seq<Path>)
    ensures forall p :: p in r ==> p != []
    ensures Distinct(r)
    decreases t, |t.interfaces| + 1
  {
    var sup: seq<Path> :=
      if t.superclass.None? then []
      else Block(Super, t.superclass.value);
    var ifs := InterfacePaths(t, 0);
    DistinctConcat(sup, ifs);
    sup + ifs
  }

  /** The paths whose first step `st` leads to `d`: the one-step path, then
      the paths of `d` extended by that step. */
  ghost function Block(st: Step, d: Type): (r: seq<Path>)
    ensures forall p: Path :: p in r ==> p != [] && p[0] == st
    ensures Distinct(r)
    decreases d, |d.interfaces| + 2
  {
    DistinctBlock(st, PathsInOrder(d));
    [[st]] + Prepend(st, PathsInOrder(d))
  }

  /** The paths through the `i`-th and later declared interfaces of `t`. */
  ghost function InterfacePaths(t: Type, i: nat): (r: seq<Path>)
    requires i <= |t.interfaces|
    ensures forall p: Path :: p in r ==> p != [] && p[0].Iface? && i <= p[0].index < |t.interfaces|
    ensures Distinct(r)
    decreases t, |t.interfaces| - i
  {
    if i == |t.interfaces| then []
    else
      var block := Block(Iface(i), t.interfaces[i]);
      var rest := InterfacePaths(t, i + 1);
      DistinctConcat(block, rest);
      block + rest
  }

  /** `[st]` followed by the paths of `ps`, when they are distinct and non-empty,
      is again distinct. */
  lemma DistinctBlock(st: Step, ps: seq<Path>)
    requires Distinct(ps)
    requires forall p :: p in ps ==> p != []
    ensures Distinct([[st]] + Prepend(st, ps))
  {
    var b := [[st]] + Prepend(st, ps);
    forall i, j | 0 <= i < j < |b|
      ensures b[i] != b[j]
    {
      if i == 0 {
        assert ps[j - 1] in ps;
        assert |b[j]| == 1 + |ps[j - 1]| > 1;
      } else {
        assert b[i][1..] == ps[i - 1];
        assert b[j][1..] == ps[j - 1];
      }
    }
  }

  lemma DistinctConcat<T>(a: seq<T>, b: seq<T>)
    requires Distinct(a) && Distinct(b)
    requires forall x :: x in a ==> x !in b
    ensures Distinct(a + b)
  {
    forall i, j | 0 <= i < j < |a + b|
      ensures (a + b)[i] != (a + b)[j]
    {
      if i < |a| && |a| <= j {
        assert (a + b)[i] in a;
        assert (a + b)[j] in b;
      }
    }
  }

  // ---------------------------------------------------------------------------
  // The walk lists the end of every path, in path order

  /** `ws[k]` is the type reached from `t` along `ps[k]`, for every `k`. */
  ghost predicate Ends(t: Type, ps: seq<Path>, ws: seq<Type>) {
    && |ps| == |ws|
    && forall k :: 0 <= k < |ps| ==> Follow(t, ps[k]) == Some(ws[k])
  }

  lemma EndsConcat(t: Type, ps: seq<Path>, ws: seq<Type>, qs: seq<Path>, vs: seq<Type>)
    requires Ends(t, ps, ws) && Ends(t, qs, vs)
    ensures Ends(t, ps + qs, ws + vs)
  {
    forall k | 0 <= k < |ps + qs|
      ensures Follow(t, (ps + qs)[k]) == Some((ws + vs)[k])
    {
      if k >= |ps| {
        assert (ps + qs)[k] == qs[k - |ps|];
      }
    }
  }

  /** The step `st` exists at `t` and leads to `d`. */
  ghost predicate StepTo(t: Type, st: Step, d: Type) {
    match st
    case Super => t.superclass == Some(d)
    case Iface(k) => k < |t.interfaces| && t.interfaces[k] == d
  }

  lemma FollowStep(t: Type, st: Step, d: Type, q: Path)
    requires StepTo(t, st, d)
    ensures Follow(t, [st] + q) == Follow(d, q)
  {
    assert ([st] + q)[1..] == q;
  }

  /** A block of paths through the direct supertype `d`, reached from `t` by
      `st`, ends at `d` and then at the walk of `d`. */
  lemma EndsBlock(t: Type, st: Step, d: Type)
    requires StepTo(t, st, d)
    requires Ends(d, PathsInOrder(d), SuperclassesOf(d))
    ensures Ends(t, Block(st, d), [d] + SuperclassesOf(d))
  {
    var ps, ws := PathsInOrder(d), SuperclassesOf(d);
    var b, vs := Block(st, d), [d] + ws;
    FollowStep(t, st, d, []);
    assert [st] + [] == [st];
    forall k | 0 <= k < |b|
      ensures Follow(t, b[k]) == Some(vs[k])
    {
      if k > 0 {
        assert b[k] == [st] + ps[k - 1];
        FollowStep(t, st, d, ps[k - 1]);
      }
    }
  }

  /** Position by position, the walk of `t` holds the end of the path that
      `PathsInOrder` lists at that position. */
  lemma {:induction false} WalkFollowsPaths(t: Type)
    ensures Ends(t, PathsInOrder(t), SuperclassesOf(t))
    decreases t, |t.interfaces| + 1
  {
    InterfacesFollowPaths(t, 0);
    match t.superclass
    case None =>
    case Some(s) =>
      WalkFollowsPaths(s);
      EndsBlock(t, Super, s);
      EndsConcat(t, Block(Super, s), [s] + SuperclassesOf(s),
                 InterfacePaths(t, 0), InterfaceBranches(t, 0));
  }

  lemma {:induction false} InterfacesFollowPaths(t: Type, i: nat)
    requires i <= |t.interfaces|
    ensures Ends(t, InterfacePaths(t, i), InterfaceBranches(t, i))
    decreases t, |t.interfaces| - i
  {
    if i < |t.interfaces| {
      var d := t.interfaces[i];
      WalkFollowsPaths(d);
      EndsBlock(t, Iface(i), d);
      InterfacesFollowPaths(t, i + 1);
      EndsConcat(t, Block(Iface(i), d), [d] + SuperclassesOf(d),
                 InterfacePaths(t, i + 1), InterfaceBranches(t, i + 1));
    }
  }

  /** `[st] + q` is in the block of `st` when `q` is empty or a listed path of `d`. */
  lemma InBlock(st: Step, d: Type, q: Path)
    requires q == [] || q in PathsInOrder(d)
    ensures [st] + q in Block(st, d)
  {
    var ps := PathsInOrder(d);
    var tail := Prepend(st, ps);
    var b := Block(st, d);
    assert b == [[st]] + tail;
    if q == [] {
      assert b[0] == [st] + q;
    } else {
      var k :| 0 <= k < |ps| && ps[k] == q;
      assert tail[k] == [st] + q;
      assert b[k + 1] == tail[k];
    }
  }

  /** Every non-empty path that leads somewhere is listed by `PathsInOrder`. */
  lemma {:induction false} EveryPathListed(t: Type, p: Path)
    requires p != [] && Follow(t, p).Some?
    ensures p in PathsInOrder(t)
    decreases t
  {
    var st, q := p[0], p[1..];
    assert p == [st] + q;
    var d := if st.Super? then t.superclass.value else t.interfaces[st.index];
    assert StepTo(t, st, d);
    FollowStep(t, st, d, q);
    if q != [] {
      EveryPathListed(d, q);
    }
    InBlock(st, d, q);
    if st.Super? {
      assert PathsInOrder(t) == Block(Super, d) + InterfacePaths(t, 0);
    } else {
      InterfacePathListed(t, 0, st.index, p);
    }
  }

  /** The block of the `i`-th interface sits inside `InterfacePaths(t, j)` for `j <= i`. */
  lemma {:induction false} InterfacePathListed(t: Type, j: nat, i: nat, p: Path)
    requires j <= i < |t.interfaces|
    requires p in Block(Iface(i), t.interfaces[i])
    ensures p in InterfacePaths(t, j)
    decreases i - j
  {
    if j < i {
      InterfacePathListed(t, j + 1, i, p);
    }
  }

  /** Every element of the walk is a transitive supertype of `t`. */
  lemma WalkSound(t: Type, x: Type)
    requires x in SuperclassesOf(t)
    ensures IsAncestor(t, x)
  {
    var ps, ws := PathsInOrder(t), SuperclassesOf(t);
    WalkFollowsPaths(t);
    var k :| 0 <= k < |ws| && ws[k] == x;
    assert ps[k] in ps;
    assert ps[k] != [] && Follow(t, ps[k]) == Some(x);
  }

  /** Every transitive supertype of `t` is in the walk. */
  lemma WalkComplete(t: Type, x: Type)
    requires IsAncestor(t, x)
    ensures x in SuperclassesOf(t)
  {
    var ps, ws := PathsInOrder(t), SuperclassesOf(t);
    var p :| p != [] && Follow(t, p) == Some(x);
    EveryPathListed(t, p);
    WalkFollowsPaths(t);
    var k :| 0 <= k < |ps| && ps[k] == p;
    assert ws[k] == x;
  }

  /** Soundness and completeness of the walk: its elements are exactly the
      transitive supertypes of `t`. */
  lemma WalkIsAncestors(t: Type, x: Type)
    ensures x in SuperclassesOf(t) <==> IsAncestor(t, x)
  {
    if x in SuperclassesOf(t) {
      WalkSound(t, x);
    }
    if IsAncestor(t, x) {
      WalkComplete(t, x);
    }
  }

  // ---------------------------------------------------------------------------
  // Shape of the walk

  /** The direct supertypes of `t` in visiting order: the superclass, if any,
      then the declared interfaces. */
  function Direct(t: Type): seq<Type> {
    (if t.superclass.Some? then [t.superclass.value] else []) + t.interfaces
  }

  /** For each type of `ds` in order: the type, then its walk. */
  function Branches(ds: seq<Type>): seq<Type> {
    if ds == [] then [] else [ds[0]] + SuperclassesOf(ds[0]) + Branches(ds[1..])
  }

  lemma Branches1(d: Type, ds: seq<Type>)
    ensures Branches([d] + ds) == [d] + SuperclassesOf(d) + Branches(ds)
  {
    assert ([d] + ds)[1..] == ds;
  }

  /** The walk is the concatenation, over the direct supertypes in order, of
      each supertype followed by its own walk. */
  lemma WalkShape(t: Type)
    ensures SuperclassesOf(t) == Branches(Direct(t))
  {
    InterfaceBranchesShape(t, 0);
    assert t.interfaces[0..] == t.interfaces;
    if t.superclass.Some? {
      var s := t.superclass.value;
      Branches1(s, t.interfaces);
      assert Direct(t) == [s] + t.interfaces;
      assert SuperclassesOf(t) == [s] + SuperclassesOf(s) + InterfaceBranches(t, 0);
    } else {
      assert Direct(t) == t.interfaces;
    }
  }

  lemma {:induction false} InterfaceBranchesShape(t: Type, i: nat)
    requires i <= |t.interfaces|
    ensures InterfaceBranches(t, i) == Branches(t.interfaces[i..])
    decreases |t.interfaces| - i
  {
    if i < |t.interfaces| {
      InterfaceBranchesShape(t, i + 1);
      assert t.interfaces[i..] == [t.interfaces[i]] + t.interfaces[i + 1..];
      Branches1(t.interfaces[i], t.interfaces[i + 1..]);
    }
  }

  // ---------------------------------------------------------------------------
  // The root is never its own ancestor

  /** The number of nodes of the type tree below and including `t`. */
  ghost function Size(t: Type): nat
    decreases t, |t.interfaces| + 1
  {
    1 + (match t.superclass case None => 0 case Some(s) => Size(s)) + InterfacesSize(t, 0)
  }

  ghost function InterfacesSize(t: Type, i: nat): nat
    requires i <= |t.interfaces|
    decreases t, |t.interfaces| - i
  {
    if i == |t.interfaces| then 0 else Size(t.interfaces[i]) + InterfacesSize(t, i + 1)
  }

  lemma {:induction false} InterfaceSizeBound(t: Type, j: nat, k: nat)
    requires j <= k < |t.interfaces|
    ensures Size(t.interfaces[k]) <= InterfacesSize(t, j)
    decreases k - j
  {
    if j < k {
      InterfaceSizeBound(t, j + 1, k);
    }
  }

  /** Following a non-empty path always reaches a strictly smaller type. */
  lemma {:induction false} FollowShrinks(t: Type, p: Path, x: Type)
    requires p != [] && Follow(t, p) == Some(x)
    ensures Size(x) < Size(t)
    decreases t
  {
    var d := if p[0].Super? then t.superclass.value else t.interfaces[p[0].index];
    assert Follow(t, p) == Follow(d, p[1..]);
    if p[0].Iface? {
      InterfaceSizeBound(t, 0, p[0].index);
    }
    if p[1..] != [] {
      FollowShrinks(d, p[1..], x);
    }
  }

  /** Every element of the walk is strictly smaller than `t`, so `t` itself
      never appears in it. */
  lemma RootNotInWalk(t: Type)
    ensures forall x :: x in SuperclassesOf(t) ==> Size(x) < Size(t)
    ensures t !in SuperclassesOf(t)
  {
    forall x | x in SuperclassesOf(t)
      ensures Size(x) < Size(t)
    {
      WalkIsAncestors(t, x);
      var p :| p != [] && Follow(t, p) == Some(x);
      FollowShrinks(t, p, x);
    }
  }

  // ---------------------------------------------------------------------------
  // No deduplication: one entry per path

  /** The listed paths from `t` that end at `x`. */
  ghost function PathsTo(t: Type, x: Type): set<Path> {
    set p | p in PathsInOrder(t) && Follow(t, p) == Some(x)
  }

  /** `PathsTo(t, x)` holds exactly the non-empty paths from `t` that end at `x`. */
  lemma PathsToExact(t: Type, x: Type, p: Path)
    ensures p in PathsTo(t, x) <==> p != [] && Follow(t, p) == Some(x)
  {
    if p != [] && Follow(t, p) == Some(x) {
      EveryPathListed(t, p);
    }
  }

  /** The entries of `ps` that `f` maps to `Some(x)`. */
  ghost function Hits<A, B>(ps: seq<A>, f: A -> Option<B>, x: B): set<A> {
    set p | p in ps && f(p) == Some(x)
  }

  lemma HitsCons<A, B>(a: A, ps: seq<A>, f: A -> Option<B>, x: B)
    requires a !in ps
    ensures |Hits([a] + ps, f, x)| == |Hits(ps, f, x)| + (if f(a) == Some(x) then 1 else 0)
  {
    var all, later := Hits([a] + ps, f, x), Hits(ps, f, x);
    forall p | p in all && p != a ensures p in later {
      assert p in ps;
    }
    if f(a) == Some(x) {
      assert all == {a} + later;
    } else {
      assert all == later;
    }
  }

  /** When `f` maps each entry of the duplicate-free `ps` to the matching
      entry of `ws`, a value occurs in `ws` as often as `f` maps entries of
      `ps` to it. */
  lemma {:induction false} CountLabels<A, B>(ps: seq<A>, ws: seq<B>, f: A -> Option<B>, x: B)
    requires |ps| == |ws| && Distinct(ps)
    requires forall k :: 0 <= k < |ps| ==> f(ps[k]) == Some(ws[k])
    ensures multiset(ws)[x] == |Hits(ps, f, x)|
    decreases |ps|
  {
    if ps != [] {
      var ps', ws' := ps[1..], ws[1..];
      CountLabels(ps', ws', f, x);
      assert ps[0] !in ps' by {
        forall k | 0 <= k < |ps'| ensures ps'[k] != ps[0] {
          assert ps'[k] == ps[k + 1];
        }
      }
      assert ps == [ps[0]] + ps';
      HitsCons(ps[0], ps', f, x);
      assert multiset(ws) == multiset{ws[0]} + multiset(ws') by {
        assert ws == [ws[0]] + ws';
      }
    }
  }

  /** A type appears in the walk exactly as often as there are paths from `t`
      to it. */
  lemma WalkCountsPaths(t: Type, x: Type)
    ensures multiset(SuperclassesOf(t))[x] == |PathsTo(t, x)|
  {
    var ps, ws := PathsInOrder(t), SuperclassesOf(t);
    WalkFollowsPaths(t);
    var f := (p: Path) => Follow(t, p);
    CountLabels(ps, ws, f, x);
    assert PathsTo(t, x) == Hits(ps, f, x);
  }

  lemma {:induction false} DistinctSetSize<T>(s: seq<T>)
    requires Distinct(s)
    ensures |set x | x in s| == |s|
    decreases |s|
  {
    if s != [] {
      var s' := s[1..];
      DistinctSetSize(s');
      assert s == [s[0]] + s';
      assert s[0] !in s' by {
        forall k | 0 <= k < |s'| ensures s'[k] != s[0] {
          assert s'[k] == s[k + 1];
        }
      }
      assert (set x | x in s) == {s[0]} + (set x | x in s');
    }
  }

  /** The length of the walk is the number of non-empty paths from `t`. */
  lemma WalkLengthCountsPaths(t: Type)
    ensures |SuperclassesOf(t)| == |set p | p in PathsInOrder(t)|
    ensures forall p :: p in PathsInOrder(t) <==> p != [] && Follow(t, p).Some?
  {
    WalkFollowsPaths(t);
    DistinctSetSize(PathsInOrder(t));
    forall p | p != [] && Follow(t, p).Some?
      ensures p in PathsInOrder(t)
    {
      EveryPathListed(t, p);
    }
    forall p | p in PathsInOrder(t)
      ensures Follow(t, p).Some?
    {
      var k :| 0 <= k < |PathsInOrder(t)| && PathsInOrder(t)[k] == p;
    }
  }

  // ---------------------------------------------------------------------------
  // A diamond: class `Impl` (superclass `Object`) declares the interfaces
  // `Left` and `Right`, both of which extend `Base`.

  const ObjectType := Type("java.lang.Object", None, [], [], [])
  const Base := Type("Base", None, [], [], [])
  const Left := Type("Left", None, [Base], [], [])
  const Right := Type("Right", None, [Base], [], [])
  const Impl := Type("Impl", Some(ObjectType), [Left, Right], [], [])

  lemma SideWalks()
    ensures SuperclassesOf(Left) == [Base]
    ensures SuperclassesOf(Right) == [Base]
  {
    assert SuperclassesOf(Base) == [];
    assert InterfaceBranches(Left, 1) == [];
    assert InterfaceBranches(Right, 1) == [];
  }

  /** The interface loop of `Impl` walks `Left`'s branch, then `Right`'s. */
  lemma ImplInterfaceBranches()
    ensures InterfaceBranches(Impl, 0) == [Left, Base, Right, Base]
  {
    SideWalks();
    assert InterfaceBranches(Impl, 2) == [];
    assert InterfaceBranches(Impl, 1) == [Right, Base];
  }

  /** The walk from `Impl` lists `Base` once per route to it. */
  lemma DiamondListsSharedInterfaceTwice()
    ensures SuperclassesOf(Impl) == [ObjectType, Left, Base, Right, Base]
    ensures multiset(SuperclassesOf(Impl))[Base] == 2
  {
    ImplInterfaceBranches();
    assert Impl.superclass == Some(ObjectType) && SuperclassesOf(ObjectType) == [];
    assert SuperclassesOf(Impl) == [ObjectType] + [] + InterfaceBranches(Impl, 0);
    var w := [ObjectType, Left, Base, Right, Base];
    assert multiset(w) == multiset{ObjectType, Left, Right} + multiset{Base, Base};
  }
}
