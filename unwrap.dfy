/** `Unwrap<A>` of flang/include/flang/Parser/tools.h (UnwrapperHelper,
    lines 49-119): find the first node of exactly type `A` reachable from a
    node through pointers, indirections, variants, tuples, optionals,
    statements and constraint, wrapper and union classes. */
module Unwrapper {
  import opened ParseTree
  import opened Traversal

  /** `UnwrapperHelper::Unwrap<A>(x)`, one case per overload. The type test
      is made only by the catch-all class overload, so a class node of type
      `a` is returned itself, without descending into it. */
  function Unwrap(a: TypeName, n: Node): (r: Option<Node>)
    ensures r.Some? ==> IsA(a, r.value)
    decreases n, 1
  {
    match n
    case Ptr(p) => if p.Some? then Unwrap(a, p.value) else None
    case Indir(v) => Unwrap(a, v)
    case Variant(alt) => Unwrap(a, alt)
    case Tuple(fs) => UnwrapTuple(a, fs, 0)
    case Opt(o) => if o.Some? then Unwrap(a, o.value) else None
    case Stmt(_, s) => Unwrap(a, s)
    // no overload for std::list / std::vector: the catch-all class overload
    case List(typ, _) => if typ == a then Some(n) else None
    case Class(typ, _, kind) =>
      if typ == a then Some(n)
      else
        match kind
        case Constraint(thing) => Unwrap(a, thing)
        case Wrapper(v) => Unwrap(a, v)
        case Union(u) => Unwrap(a, u)
        case TupleT(_) => None
        case Opaque => None
  }

  /** The tuple overload `Unwrap<A, J>`, from element `j` on. */
  function UnwrapTuple(a: TypeName, fs: seq<Node>, j: nat): (r: Option<Node>)
    requires j <= |fs|
    ensures r.Some? ==> IsA(a, r.value)
    decreases fs, |fs| - j
  {
    if j == |fs| then None
    else
      var result := Unwrap(a, fs[j]);
      if result.Some? then result else UnwrapTuple(a, fs, j + 1)
  }

  /** `Unwrap` is the forward reference search for the type `a`. */
  lemma {:induction false} UnwrapIsSearch(a: TypeName, n: Node)
    ensures Unwrap(a, n) == Search(TypeSearch(a), true, n)
    decreases n, 1
  {
    var e := TypeSearch(a);
    var cs := Children(e, n);
    if !Hit(e, n) {
      if n.Tuple? {
        UnwrapTupleIsSearchFrom(a, n, 0);
      } else if |cs| == 1 {
        UnwrapIsSearch(a, cs[0]);
        assert SearchFrom(e, true, n, 1) == None;
      }
    }
  }

  lemma {:induction false} UnwrapTupleIsSearchFrom(a: TypeName, n: Node, j: nat)
    requires n.Tuple? && j <= |n.fields|
    ensures UnwrapTuple(a, n.fields, j) == SearchFrom(TypeSearch(a), true, n, j)
    decreases n, 0, |n.fields| - j
  {
    if j < |n.fields| {
      UnwrapIsSearch(a, n.fields[j]);
      UnwrapTupleIsSearchFrom(a, n, j + 1);
    }
  }

  /** A class (or list) node of type `a` is its own result: never a nested
      occurrence of `a` inside it. */
  lemma UnwrapSelf(a: TypeName, n: Node)
    requires IsA(a, n)
    ensures Unwrap(a, n) == Some(n)
  {
  }

  /** Only the transparent child of a node is searched: for a node that is
      not of type `a`, the result is that of the one child it descends into,
      or none for a null pointer, an empty optional, a list, a TupleTrait
      class or any other class without a constraint, wrapper or union
      trait. */
  lemma {:induction false} UnwrapOnlyChild(a: TypeName, n: Node)
    requires !IsA(a, n) && !n.Tuple?
    ensures |Children(TypeSearch(a), n)| <= 1
    ensures Children(TypeSearch(a), n) == [] ==> Unwrap(a, n).None?
    ensures |Children(TypeSearch(a), n)| == 1 ==> Unwrap(a, n) == Unwrap(a, Children(TypeSearch(a), n)[0])
  {
  }

  /** The tuple overload returns the hit of the lowest-indexed element that
      has one, and none when no element has one. */
  lemma {:induction false} UnwrapTupleFirstHit(a: TypeName, fs: seq<Node>, j: nat)
    requires j <= |fs|
    ensures UnwrapTuple(a, fs, j).None? <==> forall i :: j <= i < |fs| ==> Unwrap(a, fs[i]).None?
    ensures forall i :: j <= i < |fs| && Unwrap(a, fs[i]).Some? &&
                        (forall k :: j <= k < i ==> Unwrap(a, fs[k]).None?) ==>
                        UnwrapTuple(a, fs, j) == Unwrap(a, fs[i])
    decreases |fs| - j
  {
    if j < |fs| {
      UnwrapTupleFirstHit(a, fs, j + 1);
    }
  }

  /** `Unwrap` finds a node exactly when a node of type `a` is reachable
      through the edges it passes (never through another node of type `a`),
      and what it finds is such a node. */
  lemma UnwrapFindsReachable(a: TypeName, n: Node)
    ensures Unwrap(a, n).Some? <==> exists q, m :: Reach(TypeSearch(a), n, q, m) && IsA(a, m)
    ensures Unwrap(a, n).Some? ==> exists q :: Reach(TypeSearch(a), n, q, Unwrap(a, n).value)
  {
    UnwrapIsSearch(a, n);
    SearchNoneIff(TypeSearch(a), true, n);
    if Unwrap(a, n).Some? {
      var p := SearchPath(TypeSearch(a), true, n);
      assert Reach(TypeSearch(a), n, p, Unwrap(a, n).value);
    }
  }

  /** What `Unwrap` returns is the first node of type `a` in left-to-right
      depth-first order: it lies at a path no later than that of any
      reachable node of type `a`. */
  lemma UnwrapLeftmost(a: TypeName, n: Node, q: seq<nat>, m: Node)
    requires Reach(TypeSearch(a), n, q, m) && IsA(a, m)
    ensures Unwrap(a, n).Some?
    ensures exists p :: Reach(TypeSearch(a), n, p, Unwrap(a, n).value) && LexLe(p, q)
  {
    UnwrapIsSearch(a, n);
    SearchLeftmost(TypeSearch(a), n, q, m);
    var p := SearchPath(TypeSearch(a), true, n);
    assert Reach(TypeSearch(a), n, p, Unwrap(a, n).value) && LexLe(p, q);
  }

  /** An example of the general case in UnwrapOnlyChild: unlike
      `GetSource`, `Unwrap` does not look into lists, so a list whose only
      element is of type `a` yields nothing, while an optional holding the
      same element yields it. */
  lemma UnwrapStopsAtList(a: TypeName, other: TypeName)
    requires a != other
    ensures Unwrap(a, List(other, [Class(a, None, Opaque)])).None?
    ensures Unwrap(a, Opt(Some(Class(a, None, Opaque)))) == Some(Class(a, None, Opaque))
  {
  }
}
