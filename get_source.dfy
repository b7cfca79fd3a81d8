/** `GetSource` and `GetLastSource` of flang/include/flang/Parser/tools.h
    (GetSourceHelper<GET_FIRST>, lines 141-251): the `source` span of the
    first (or last) class with a `source` member reachable from a node. */
module SourceSearch {
  import opened ParseTree
  import opened Traversal

  /** `GetSourceHelper<getFirst>::GetSource(x)`, one case per overload.
      A class with a `source` member returns it before any descent. */
  function SourceOf(getFirst: bool, n: Node): (r: Option<CharBlock>)
    decreases n, 1
  {
    match n
    case Ptr(p) => if p.Some? then SourceOf(getFirst, p.value) else None
    case Indir(v) => SourceOf(getFirst, v)
    case Variant(alt) => SourceOf(getFirst, alt)
    case Tuple(fs) => SourceFrom(getFirst, fs, 0)
    case Opt(o) => if o.Some? then SourceOf(getFirst, o.value) else None
    case List(_, elems) => SourceFrom(getFirst, elems, 0)
    // no Statement overload: the catch-all class overload, no trait
    case Stmt(source, _) => source
    case Class(_, source, kind) =>
      if source.Some? then source
      else
        match kind
        case Constraint(thing) => SourceOf(getFirst, thing)
        case Wrapper(v) => SourceOf(getFirst, v)
        case Union(u) => SourceOf(getFirst, u)
        case TupleT(t) => SourceFrom(getFirst, t, 0)
        case Opaque => None
  }

  /** The tuple overload `GetSource<J>`: the first result among the
      elements tried from the `j`-th on, where the `j`-th element tried is
      `xs[j]` forward and `xs[|xs| - j - 1]` backward. It is also what the
      list and vector loops compute (ListSource). */
  function SourceFrom(getFirst: bool, xs: seq<Node>, j: nat): (r: Option<CharBlock>)
    requires j <= |xs|
    decreases xs, |xs| - j
  {
    if j == |xs| then None
    else
      var result := SourceOf(getFirst, xs[Order(getFirst, |xs|, j)]);
      if result.Some? then result else SourceFrom(getFirst, xs, j + 1)
  }

  /** The front-end `GetSource(x)`, for const and non-const `x` alike. */
  function GetSource(n: Node): (r: Option<CharBlock>)
  {
    SourceOf(true, n)
  }

  /** The front-end `GetLastSource(x)`, for const and non-const `x` alike. */
  function GetLastSource(n: Node): (r: Option<CharBlock>)
  {
    SourceOf(false, n)
  }

  /** The list and vector overloads: a forward range-for when `getFirst`,
      otherwise a loop over reverse iterators, each returning the first
      non-empty result. `x` is the list or vector. */
  method ListSource(getFirst: bool, x: Node) returns (r: Option<CharBlock>)
    requires x.List?
    ensures r == SourceOf(getFirst, x)
  {
    var elems := x.elems;
    if getFirst {
      for i := 0 to |elems|
        invariant SourceFrom(true, elems, i) == SourceFrom(true, elems, 0)
      {
        var result := SourceOf(true, elems[i]);
        if result.Some? {
          return result;
        }
      }
    } else {
      // `iter` is the position just after the element the reverse iterator
      // designates: it starts at rbegin and stops at rend
      var iter := |elems|;
      while iter > 0
        invariant 0 <= iter <= |elems|
        invariant SourceFrom(false, elems, |elems| - iter) == SourceFrom(false, elems, 0)
      {
        var result := SourceOf(false, elems[iter - 1]);
        if result.Some? {
          return result;
        }
        iter := iter - 1;
      }
    }
    return None;
  }

  /** The span a reference-search result carries. */
  function SpanOf(hit: Option<Node>): (r: Option<CharBlock>)
  {
    if hit.Some? && HasSource(hit.value) then hit.value.source else None
  }

  /** `GetSource` and `GetLastSource` are the forward and backward reference
      searches for classes with a `source` member. */
  lemma {:induction false} SourceOfIsSearch(getFirst: bool, n: Node)
    ensures SourceOf(getFirst, n) == SpanOf(Search(SpanSearch, getFirst, n))
    decreases n, 1
  {
    var cs := Children(SpanSearch, n);
    if !HasSource(n) {
      if n.Tuple? || n.List? || (n.Class? && n.kind.TupleT?) {
        SourceFromIsSearchFrom(getFirst, n, 0);
      } else if |cs| == 1 {
        SourceOfIsSearch(getFirst, cs[0]);
        assert SearchFrom(SpanSearch, getFirst, n, 1) == None;
      }
    }
  }

  lemma {:induction false} SourceFromIsSearchFrom(getFirst: bool, n: Node, j: nat)
    requires !HasSource(n) && (n.Tuple? || n.List? || (n.Class? && n.kind.TupleT?))
    requires j <= |Children(SpanSearch, n)|
    ensures SourceFrom(getFirst, Children(SpanSearch, n), j) == SpanOf(SearchFrom(SpanSearch, getFirst, n, j))
    decreases n, 0, |Children(SpanSearch, n)| - j
  {
    var cs := Children(SpanSearch, n);
    if j < |cs| {
      SourceOfIsSearch(getFirst, cs[Order(getFirst, |cs|, j)]);
      SourceFromIsSearchFrom(getFirst, n, j + 1);
    }
  }

  /** Position `k` is tried before position `i`. */
  predicate TriedBefore(getFirst: bool, k: nat, i: nat)
  {
    if getFirst then k < i else k > i
  }

  /** Tuple fields and list or vector elements are tried forward by
      `GetSource` and backward by `GetLastSource`: the result is that of the
      first element tried that has one, and none if no element has one. */
  lemma {:induction false} SourceFromFirstHit(getFirst: bool, xs: seq<Node>, j: nat)
    requires j <= |xs|
    ensures SourceFrom(getFirst, xs, j).None? <==>
            forall k :: 0 <= k < |xs| && Untried(getFirst, |xs|, j, k) ==> SourceOf(getFirst, xs[k]).None?
    ensures forall i :: 0 <= i < |xs| && Untried(getFirst, |xs|, j, i) && SourceOf(getFirst, xs[i]).Some? &&
                        (forall k :: 0 <= k < |xs| && Untried(getFirst, |xs|, j, k) && TriedBefore(getFirst, k, i) ==>
                                       SourceOf(getFirst, xs[k]).None?) ==>
                        SourceFrom(getFirst, xs, j) == SourceOf(getFirst, xs[i])
    decreases |xs| - j
  {
    if j < |xs| {
      SourceFromFirstHit(getFirst, xs, j + 1);
    }
  }

  /** Position `k` is not among the first `j` elements tried. */
  predicate Untried(getFirst: bool, len: nat, j: nat, k: nat)
  {
    if getFirst then j <= k else k + j < len
  }

  /** A class with a `source` member yields that span in both directions,
      whatever lies inside it; a class with no `source` member and no trait,
      a null pointer, an empty optional and an empty list yield none. */
  lemma SourceMemberFirst(n: Node)
    ensures HasSource(n) ==> GetSource(n) == n.source && GetLastSource(n) == n.source
    ensures n == Ptr(None) || n == Opt(None) || (n.List? && n.elems == []) ||
            (n.Class? && n.source.None? && n.kind.Opaque?) ==>
            GetSource(n).None? && GetLastSource(n).None?
  {
    if n.List? && n.elems == [] {
      assert SourceFrom(true, n.elems, 0) == None && SourceFrom(false, n.elems, 0) == None;
    }
  }

  /** What `GetSource` returns is the `source` of the leftmost class with a
      `source` member reachable from `n`, and it finds one whenever one is
      reachable. */
  lemma GetSourceLeftmost(n: Node, q: seq<nat>, m: Node)
    requires Reach(SpanSearch, n, q, m) && HasSource(m)
    ensures GetSource(n).Some?
    ensures exists p, m' :: Reach(SpanSearch, n, p, m') && HasSource(m') &&
                            GetSource(n) == m'.source && LexLe(p, q)
  {
    SourceOfIsSearch(true, n);
    SearchLeftmost(SpanSearch, n, q, m);
    var p, m' := SearchPath(SpanSearch, true, n), Search(SpanSearch, true, n).value;
    assert Reach(SpanSearch, n, p, m') && HasSource(m') && GetSource(n) == m'.source && LexLe(p, q);
  }

  /** What `GetLastSource` returns is the `source` of the rightmost class
      with a `source` member reachable from `n`, and it finds one whenever
      one is reachable. */
  lemma GetLastSourceRightmost(n: Node, q: seq<nat>, m: Node)
    requires Reach(SpanSearch, n, q, m) && HasSource(m)
    ensures GetLastSource(n).Some?
    ensures exists p, m' :: Reach(SpanSearch, n, p, m') && HasSource(m') &&
                            GetLastSource(n) == m'.source && LexLe(q, p)
  {
    SourceOfIsSearch(false, n);
    SearchRightmost(SpanSearch, n, q, m);
    var p, m' := SearchPath(SpanSearch, false, n), Search(SpanSearch, false, n).value;
    assert Reach(SpanSearch, n, p, m') && HasSource(m') && GetLastSource(n) == m'.source && LexLe(q, p);
  }

  /** Both searches find nothing exactly when no class with a `source`
      member is reachable; so one finds a span exactly when the other does. */
  lemma SourceNoneIff(getFirst: bool, n: Node)
    ensures SourceOf(getFirst, n).None? <==> forall q, m :: Reach(SpanSearch, n, q, m) ==> !HasSource(m)
    ensures GetSource(n).Some? <==> GetLastSource(n).Some?
  {
    SourceOfIsSearch(true, n);
    SourceOfIsSearch(false, n);
    SearchNoneIff(SpanSearch, true, n);
    SearchNoneIff(SpanSearch, false, n);
  }

  /** A tree with the fields of every tuple and TupleTrait class and the
      elements of every list and vector reversed, at every depth. */
  function Mirror(n: Node): (m: Node)
    decreases n, 1
  {
    match n
    case Ptr(p) => if p.Some? then Ptr(Some(Mirror(p.value))) else n
    case Indir(v) => Indir(Mirror(v))
    case Variant(alt) => Variant(Mirror(alt))
    case Tuple(fs) => Tuple(MirrorAll(fs))
    case Opt(o) => if o.Some? then Opt(Some(Mirror(o.value))) else n
    case List(typ, elems) => List(typ, MirrorAll(elems))
    case Stmt(source, s) => Stmt(source, Mirror(s))
    case Class(typ, source, kind) =>
      match kind
      case Constraint(thing) => Class(typ, source, Constraint(Mirror(thing)))
      case Wrapper(v) => Class(typ, source, Wrapper(Mirror(v)))
      case Union(u) => Class(typ, source, Union(Mirror(u)))
      case TupleT(t) => Class(typ, source, TupleT(MirrorAll(t)))
      case Opaque => n
  }

  /** The elements of `xs` mirrored, in reverse order. */
  function MirrorAll(xs: seq<Node>): (r: seq<Node>)
    ensures |r| == |xs|
    ensures forall i :: 0 <= i < |xs| ==> r[i] == Mirror(xs[|xs| - 1 - i])
    decreases xs, 0
  {
    if xs == [] then [] else MirrorAll(xs[1..]) + [Mirror(xs[0])]
  }

  /** Mirroring twice gives back the tree. */
  lemma {:induction false} MirrorInvolutive(n: Node)
    ensures Mirror(Mirror(n)) == n
    decreases n, 1
  {
    match n
    case Ptr(p) => if p.Some? { MirrorInvolutive(p.value); }
    case Indir(v) => MirrorInvolutive(v);
    case Variant(alt) => MirrorInvolutive(alt);
    case Tuple(fs) => MirrorAllInvolutive(fs);
    case Opt(o) => if o.Some? { MirrorInvolutive(o.value); }
    case List(_, elems) => MirrorAllInvolutive(elems);
    case Stmt(_, s) => MirrorInvolutive(s);
    case Class(_, _, kind) =>
      match kind
      case Constraint(thing) => MirrorInvolutive(thing);
      case Wrapper(v) => MirrorInvolutive(v);
      case Union(u) => MirrorInvolutive(u);
      case TupleT(t) => MirrorAllInvolutive(t);
      case Opaque =>
  }

  lemma {:induction false} MirrorAllInvolutive(xs: seq<Node>)
    ensures MirrorAll(MirrorAll(xs)) == xs
    decreases xs, 0
  {
    var r := MirrorAll(MirrorAll(xs));
    forall i | 0 <= i < |xs| ensures r[i] == xs[i] {
      MirrorInvolutive(xs[i]);
    }
  }

  /** Reversing the children of every tuple, TupleTrait class, list and
      vector and swapping `GetSource` with `GetLastSource` gives the same
      result. */
  lemma {:induction false} MirrorSwapsDirection(getFirst: bool, n: Node)
    ensures SourceOf(getFirst, Mirror(n)) == SourceOf(!getFirst, n)
    decreases n, 1
  {
    match n
    case Ptr(p) => if p.Some? { MirrorSwapsDirection(getFirst, p.value); }
    case Indir(v) => MirrorSwapsDirection(getFirst, v);
    case Variant(alt) => MirrorSwapsDirection(getFirst, alt);
    case Tuple(fs) => MirrorAllSwapsDirection(getFirst, fs, 0);
    case Opt(o) => if o.Some? { MirrorSwapsDirection(getFirst, o.value); }
    case List(_, elems) => MirrorAllSwapsDirection(getFirst, elems, 0);
    case Stmt(_, _) =>
    case Class(_, source, kind) =>
      if source.None? {
        match kind
        case Constraint(thing) => MirrorSwapsDirection(getFirst, thing);
        case Wrapper(v) => MirrorSwapsDirection(getFirst, v);
        case Union(u) => MirrorSwapsDirection(getFirst, u);
        case TupleT(t) => MirrorAllSwapsDirection(getFirst, t, 0);
        case Opaque =>
      }
  }

  lemma {:induction false} MirrorAllSwapsDirection(getFirst: bool, xs: seq<Node>, j: nat)
    requires j <= |xs|
    ensures SourceFrom(getFirst, MirrorAll(xs), j) == SourceFrom(!getFirst, xs, j)
    decreases xs, 0, |xs| - j
  {
    if j < |xs| {
      MirrorSwapsDirection(getFirst, xs[Order(!getFirst, |xs|, j)]);
      MirrorAllSwapsDirection(getFirst, xs, j + 1);
    }
  }

  /** A tuple with an empty optional and two classes with spans `b1` and
      `b2`: `GetSource` gives `b1` and `GetLastSource` gives `b2`. */
  lemma TupleExample(b1: CharBlock, b2: CharBlock)
    ensures GetSource(Tuple([Opt(None), Class("X", Some(b1), Opaque), Class("Y", Some(b2), Opaque)])) == Some(b1)
    ensures GetLastSource(Tuple([Opt(None), Class("X", Some(b1), Opaque), Class("Y", Some(b2), Opaque)])) == Some(b2)
  {
    var fs := [Opt(None), Class("X", Some(b1), Opaque), Class("Y", Some(b2), Opaque)];
    assert SourceOf(true, fs[0]) == None;
    assert SourceFrom(true, fs, 1) == Some(b1);
    assert SourceFrom(true, fs, 0) == Some(b1);
    assert SourceFrom(false, fs, 0) == Some(b2);
  }
}
