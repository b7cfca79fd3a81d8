/** A reference definition shared by both searches of
    flang/include/flang/Parser/tools.h: the edges each search passes through,
    paths along those edges, and a directional depth-first first-hit search
    over them. The engines themselves (modules Unwrapper and SourceSearch)
    follow the C++ overloads; lemmas there prove them equal to `Search`, and
    the lemmas here say which node `Search` finds: the one at the
    lexicographically least (forward) or greatest (backward) path. */
module Traversal {
  import opened ParseTree

  /** Which of the two searches: `Unwrap<A>` for the type `A`, or
      `GetSource`/`GetLastSource`. */
  datatype Engine = TypeSearch(target: TypeName) | SpanSearch

  /** The nodes at which the search stops with a result. */
  predicate Hit(e: Engine, n: Node)
  {
    match e
    case TypeSearch(a) => IsA(a, n)
    case SpanSearch => HasSource(n)
  }

  function OptionChildren(o: Option<Node>): (cs: seq<Node>)
  {
    if o.Some? then [o.value] else []
  }

  /** The children a search descends into, in declared order. A hit has
      none: the search stops there. `Unwrap` has no overload for lists and
      vectors and does not look at `.t` of a TupleTrait class; it passes
      through the `.statement` of a statement. `GetSource` has no statement
      overload, so a statement is a class without traits to it. */
  function Children(e: Engine, n: Node): (cs: seq<Node>)
  {
    if Hit(e, n) then []
    else
      match n
      case Ptr(p) => OptionChildren(p)
      case Indir(v) => [v]
      case Variant(alt) => [alt]
      case Tuple(fs) => fs
      case Opt(o) => OptionChildren(o)
      case List(_, elems) => if e.SpanSearch? then elems else []
      case Stmt(_, s) => if e.TypeSearch? then [s] else []
      case Class(_, _, kind) =>
        match kind
        case Constraint(thing) => [thing]
        case Wrapper(v) => [v]
        case Union(u) => [u]
        case TupleT(t) => if e.SpanSearch? then t else []
        case Opaque => []
  }

  /** `m` is reached from `n` by following the child indices in `p`. */
  ghost predicate Reach(e: Engine, n: Node, p: seq<nat>, m: Node)
    decreases |p|
  {
    if p == [] then m == n
    else p[0] < |Children(e, n)| && Reach(e, Children(e, n)[p[0]], p[1..], m)
  }

  /** Lexicographic order on paths (a prefix comes first): the order in
      which a left-to-right depth-first search visits nodes. */
  predicate LexLe(p: seq<nat>, q: seq<nat>)
  {
    p == [] || (q != [] && (p[0] < q[0] || (p[0] == q[0] && LexLe(p[1..], q[1..]))))
  }

  /** The depth-first first-hit search, trying the children of every node
      forward (`first`) or backward. */
  ghost function Search(e: Engine, first: bool, n: Node): (r: Option<Node>)
    ensures r.Some? ==> Hit(e, r.value)
    decreases n, 1
  {
    if Hit(e, n) then Some(n) else SearchFrom(e, first, n, 0)
  }

  /** The position of the `j`-th child tried, in search order. */
  function Order(first: bool, len: nat, j: nat): (i: nat)
    requires j < len
  {
    if first then j else len - 1 - j
  }

  /** The first hit among the children of `n` from the `j`-th tried onwards. */
  ghost function SearchFrom(e: Engine, first: bool, n: Node, j: nat): (r: Option<Node>)
    requires j <= |Children(e, n)|
    ensures r.Some? ==> Hit(e, r.value)
    decreases n, 0, |Children(e, n)| - j
  {
    var cs := Children(e, n);
    if j == |cs| then None
    else
      var hit := Search(e, first, cs[Order(first, |cs|, j)]);
      if hit.Some? then hit else SearchFrom(e, first, n, j + 1)
  }

  /** The path at which `Search` finds its result. */
  ghost function SearchPath(e: Engine, first: bool, n: Node): (p: seq<nat>)
    requires Search(e, first, n).Some?
    ensures Reach(e, n, p, Search(e, first, n).value)
    decreases n, 1
  {
    if Hit(e, n) then [] else SearchFromPath(e, first, n, 0)
  }

  ghost function SearchFromPath(e: Engine, first: bool, n: Node, j: nat): (p: seq<nat>)
    requires j <= |Children(e, n)| && SearchFrom(e, first, n, j).Some?
    ensures Reach(e, n, p, SearchFrom(e, first, n, j).value)
    decreases n, 0, |Children(e, n)| - j
  {
    var cs := Children(e, n);
    var i := Order(first, |cs|, j);
    if Search(e, first, cs[i]).Some? then
      var p := SearchPath(e, first, cs[i]);
      assert ([i] + p)[1..] == p;
      [i] + p
    else
      SearchFromPath(e, first, n, j + 1)
  }

  /** A hit cannot lie strictly below another hit. */
  lemma HitPathStartsHere(e: Engine, n: Node, q: seq<nat>, m: Node)
    requires Reach(e, n, q, m) && Hit(e, n)
    ensures q == [] && m == n
  {
  }

  /** The forward search finds a hit whenever one is reachable, and its
      path comes no later than that of any reachable hit. */
  lemma {:induction false} SearchLeftmost(e: Engine, n: Node, q: seq<nat>, m: Node)
    requires Reach(e, n, q, m) && Hit(e, m)
    ensures Search(e, true, n).Some? && LexLe(SearchPath(e, true, n), q)
    decreases n, 1
  {
    if !Hit(e, n) {
      var cs := Children(e, n);
      SearchLeftmost(e, cs[q[0]], q[1..], m);
      SearchFromLeftmost(e, n, 0, q);
    }
  }

  lemma {:induction false} SearchFromLeftmost(e: Engine, n: Node, j: nat, q: seq<nat>)
    requires q != [] && j <= q[0] < |Children(e, n)|
    requires Search(e, true, Children(e, n)[q[0]]).Some?
    requires LexLe(SearchPath(e, true, Children(e, n)[q[0]]), q[1..])
    ensures SearchFrom(e, true, n, j).Some? && LexLe(SearchFromPath(e, true, n, j), q)
    decreases |Children(e, n)| - j
  {
    var cs := Children(e, n);
    if Search(e, true, cs[j]).None? {
      SearchFromLeftmost(e, n, j + 1, q);
    } else {
      var p := SearchPath(e, true, cs[j]);
      assert ([j] + p)[1..] == p;
    }
  }

  /** The backward search finds a hit whenever one is reachable, and its
      path comes no earlier than that of any reachable hit. */
  lemma {:induction false} SearchRightmost(e: Engine, n: Node, q: seq<nat>, m: Node)
    requires Reach(e, n, q, m) && Hit(e, m)
    ensures Search(e, false, n).Some? && LexLe(q, SearchPath(e, false, n))
    decreases n, 1
  {
    if Hit(e, n) {
      HitPathStartsHere(e, n, q, m);
    } else {
      var cs := Children(e, n);
      SearchRightmost(e, cs[q[0]], q[1..], m);
      SearchFromRightmost(e, n, 0, q);
    }
  }

  lemma {:induction false} SearchFromRightmost(e: Engine, n: Node, j: nat, q: seq<nat>)
    requires q != [] && q[0] < |Children(e, n)| && j <= |Children(e, n)| - 1 - q[0]
    requires Search(e, false, Children(e, n)[q[0]]).Some?
    requires LexLe(q[1..], SearchPath(e, false, Children(e, n)[q[0]]))
    ensures SearchFrom(e, false, n, j).Some? && LexLe(q, SearchFromPath(e, false, n, j))
    decreases |Children(e, n)| - j
  {
    var cs := Children(e, n);
    var i := |cs| - 1 - j;
    if Search(e, false, cs[i]).None? {
      SearchFromRightmost(e, n, j + 1, q);
    } else {
      var p := SearchPath(e, false, cs[i]);
      assert ([i] + p)[1..] == p;
    }
  }

  /** In either direction, the search finds nothing exactly when no hit is
      reachable. */
  lemma SearchNoneIff(e: Engine, first: bool, n: Node)
    ensures Search(e, first, n).None? <==> forall q, m :: Reach(e, n, q, m) ==> !Hit(e, m)
  {
    if Search(e, first, n).Some? {
      var p, m := SearchPath(e, first, n), Search(e, first, n).value;
      assert Reach(e, n, p, m) && Hit(e, m);
      assert exists q, m' :: Reach(e, n, q, m') && Hit(e, m');
    } else {
      forall q, m | Reach(e, n, q, m) ensures !Hit(e, m) {
        if Hit(e, m) {
          if first { SearchLeftmost(e, n, q, m); } else { SearchRightmost(e, n, q, m); }
        }
      }
    }
  }
}
