# Flang parse-tree traversals: `Unwrap`, `GetSource`, `GetLastSource`

This project models the two generic, read-only traversal engines in Flang's
`flang/include/flang/Parser/tools.h`. Both walk an already-built parse tree.

- `Unwrap<A>(x)` finds the first node of exactly type `A` reachable from `x`.
  It passes through pointers to const objects, `common::Indirection`, `std::variant`,
  `std::tuple`, `std::optional`, `Statement`/`UnlabeledStatement`, and the
  constraint (`.thing`), wrapper (`.v`) and union (`.u`) classes.
- `GetSource(x)` and `GetLastSource(x)` return the `source` span of the first
  or last class that has a `source` member reachable from `x`. They pass
  through the same shapes as `Unwrap` except `Statement`/`UnlabeledStatement`,
  and also through lists, vectors and TupleTrait classes (`.t`). They try
  tuple fields and list elements forward or backward, depending on the
  direction.

In C++ a node's shape is its static type: overload resolution picks the
overload. In the model the shape is a constructor of `ParseTree.Node`. The
catch-all class overload becomes `Class(typ, source, kind)`:

- `typ` is the class's decayed type.
- `source` is its `source` member. `None` means the class has no such member
  (the `HasSource` test).
- `kind` records its trait: `Constraint`, `Wrapper`, `Union`, `TupleT` or
  `Opaque`.

A span (`CharBlock`) is an opaque value.

Modules:

- `ParseTree` (parse_tree.dfy): node shapes, and the two stopping predicates
  `IsA` and `HasSource`.
- `Traversal` (traversal.dfy): a shared reference definition of both
  searches. It has the edges each search passes through (`Children`), paths
  along them (`Reach`), the lexicographic order on paths (`LexLe`), and a
  depth-first first-hit search, forward or backward (`Search`). The lemmas
  here show that `Search` returns the hit at the least path (forward) or the
  greatest path (backward), and that it finds nothing only when no hit is
  reachable.
- `Unwrapper` (unwrap.dfy): `Unwrap` and the tuple recursion
  `UnwrapTuple`, one case per overload. Lemmas prove `Unwrap` equal to the
  forward `Search` and derive the properties below from that.
- `SourceSearch` (get_source.dfy):
  - `SourceOf(getFirst, n)` is `GetSourceHelper<getFirst>::GetSource`, and
    `SourceFrom` is its tuple recursion on `J`.
  - `GetSource` and `GetLastSource` are the front-ends.
  - `ListSource` is the list/vector overload. It is written as the source
    writes it: a forward loop, or a loop over reverse iterators, each
    returning at the first hit.
  - `Mirror` reverses every tuple, TupleTrait class and list, at every depth.
    It is used for the forward/backward symmetry.

The two engines do not pass through the same shapes:

- Unlike `GetSource`, `Unwrap` has no overload for `std::list`/`std::vector`
  and does not descend into `.t` of a TupleTrait class. Either one reaches
  the catch-all overload, which returns it only if it is exactly of type `A`
  (`Unwrapper.UnwrapOnlyChild`, with the example
  `Unwrapper.UnwrapStopsAtList`).
- `GetSourceHelper` has no `Statement` overload. So for `GetSource` a
  statement is a class without traits: its own `source` member if it has
  one, otherwise nothing. Its `.statement` payload is never searched.
  `Unwrap` has a dedicated `Statement` overload that searches only
  `.statement`, and it never returns the statement itself.

## Model

| member | source | states |
|---|---|---|
| `Unwrapper.Unwrap` | flang/include/flang/Parser/tools.h:49-111 | one case per overload, reached through const access (a pointer is a pointer to const); any node returned is a class (or list) of exactly type `A`, so a pointer, indirection, variant, tuple, optional or statement is never returned itself |
| `Unwrapper.UnwrapTuple` | flang/include/flang/Parser/tools.h:69-79 | the tuple recursion on `J` also returns only nodes of type `A` |
| `Unwrapper.UnwrapIsSearch` | flang/include/flang/Parser/tools.h:49-111 | `Unwrap` equals the forward depth-first first-hit search over pointer, indirection, variant, tuple, optional, statement and constraint/wrapper/union edges, which stops at a node of type `A` |
| `Unwrapper.UnwrapSelf` | flang/include/flang/Parser/tools.h:99-101 | a class node of type `A` is returned itself, never a nested occurrence |
| `Unwrapper.UnwrapOnlyChild` | flang/include/flang/Parser/tools.h:51-111 | apart from tuples, a node not of type `A` has at most one searched child (`*p` for a pointer to const, `.value()`, the active alternative, `*o`, `.statement`, `.thing`, `.v`, `.u`); the result is that child's, or none for a null pointer, an empty optional, a list, a TupleTrait class or a class without a trait |
| `Unwrapper.UnwrapTupleFirstHit` | flang/include/flang/Parser/tools.h:69-79 | a tuple gives none iff no element hits; otherwise it gives the hit of the lowest-indexed element that hits |
| `Unwrapper.UnwrapFindsReachable` | flang/include/flang/Parser/tools.h:49-111 | `Unwrap` finds a node iff a node of type `A` is reachable along the searched edges without passing through another `A`; what it finds is reachable that way |
| `Unwrapper.UnwrapLeftmost` | flang/include/flang/Parser/tools.h:49-111 | whenever a node of type `A` is reachable at path `q`, `Unwrap` finds one at a path `p` with `p` lexicographically no greater than `q`: the first in depth-first, left-to-right order |
| `Unwrapper.UnwrapStopsAtList` | flang/include/flang/Parser/tools.h:99-111 | an example of the general case in `UnwrapOnlyChild`: a list whose only element has type `A` yields none; an optional holding such a node yields that node |
| `Traversal.Search` | flang/include/flang/Parser/tools.h:49-236 | the reference search returns only nodes at which the search stops (a node of type `A`, or a class with a `source` member) |
| `Traversal.SearchPath` | flang/include/flang/Parser/tools.h:49-236 | the node the reference search returns is reachable from the root along the searched edges, at the path this function gives |
| `Traversal.SearchLeftmost` | flang/include/flang/Parser/tools.h:49-236 | for `Unwrap` (tuples tried at 69-79) and for forward `GetSource` (tuples at 167-178, lists at 189-194): if any hit is reachable, the forward search finds one, at a path lexicographically no greater than that of every reachable hit |
| `Traversal.SearchRightmost` | flang/include/flang/Parser/tools.h:167-220 | for `GetLastSource` (tuples tried backward at 170, lists and vectors at 195-201 and 212-218): if any hit is reachable, the backward search finds one, at a path lexicographically no smaller than that of every reachable hit |
| `Traversal.SearchNoneIff` | flang/include/flang/Parser/tools.h:49-236 | in either direction the search finds nothing iff no hit is reachable |
| `ParseTree.HasSource` | flang/include/flang/Parser/tools.h:127-131 | the `HasSource` test: a class (or statement) whose `source` member is present; these are the nodes at which both span searches stop |
| `SourceSearch.SourceOf` | flang/include/flang/Parser/tools.h:141-236 | `GetSourceHelper<GET_FIRST>::GetSource`, one case per overload, reached through const access; what it returns is stated by `SourceOfIsSearch`, `GetSourceLeftmost`, `GetLastSourceRightmost` and `SourceNoneIff` |
| `SourceSearch.SourceFrom` | flang/include/flang/Parser/tools.h:167-178 | the tuple recursion on `J`, trying element `J` forward or element `size - J - 1` backward; also the specification of the list/vector loops; its first-hit meaning is stated by `SourceFromFirstHit` |
| `SourceSearch.GetSource` | flang/include/flang/Parser/tools.h:239-244 | the front-end `GetSource`: the helper with `GET_FIRST` set, for const and non-const arguments alike |
| `SourceSearch.GetLastSource` | flang/include/flang/Parser/tools.h:246-251 | the front-end `GetLastSource`: the helper with `GET_FIRST` unset, for const and non-const arguments alike |
| `SourceSearch.ListSource` | flang/include/flang/Parser/tools.h:188-220 | the forward range-for loop and the reverse-iterator loop return exactly the result of the list/vector overload on that list |
| `SourceSearch.SourceOfIsSearch` | flang/include/flang/Parser/tools.h:141-236 | `GetSourceHelper<GET_FIRST>` equals the span of the reference search that stops at classes with a `source` member and passes through pointers, indirections, variants, tuples, optionals, lists, vectors and constraint/wrapper/union/tuple classes, forward when `GET_FIRST` and backward otherwise |
| `SourceSearch.SourceFromFirstHit` | flang/include/flang/Parser/tools.h:167-220 | tuple fields and list/vector elements give none iff no element yields a span; otherwise they give the span of the first element that yields one, in forward order for `GetSource` and reverse order for `GetLastSource` |
| `SourceSearch.SourceMemberFirst` | flang/include/flang/Parser/tools.h:222-235 | a class with a `source` member yields that span in both directions, whatever it contains; a null pointer, an empty optional, an empty list and a class with no `source` member and no trait yield none |
| `SourceSearch.GetSourceLeftmost` | flang/include/flang/Parser/tools.h:239-244 | whenever a class with a `source` member is reachable at path `q`, `GetSource` returns the `source` of such a class at a path no later than `q` |
| `SourceSearch.GetLastSourceRightmost` | flang/include/flang/Parser/tools.h:246-251 | whenever a class with a `source` member is reachable at path `q`, `GetLastSource` returns the `source` of such a class at a path no earlier than `q` |
| `SourceSearch.SourceNoneIff` | flang/include/flang/Parser/tools.h:141-251 | each direction gives none iff no class with a `source` member is reachable, so `GetSource` finds a span iff `GetLastSource` does |
| `SourceSearch.Mirror` | flang/include/flang/Parser/tools.h:167-220 | helper for the symmetry: the tree with the fields of every tuple and TupleTrait class and the elements of every list and vector reversed, at every depth |
| `SourceSearch.MirrorAll` | flang/include/flang/Parser/tools.h:167-220 | helper for the symmetry: the result has the same length as its input, and element `i` is the mirror of element `len - 1 - i` |
| `SourceSearch.MirrorSwapsDirection` | flang/include/flang/Parser/tools.h:167-220 | reversing the children of every tuple, TupleTrait class, list and vector and swapping the direction gives the same result: `GetSource` of the mirrored tree is `GetLastSource` of the tree, and the other way round |
| `SourceSearch.MirrorInvolutive` | flang/include/flang/Parser/tools.h:167-220 | mirroring a tree twice gives it back, so the symmetry above holds in both directions |
| `SourceSearch.TupleExample` | flang/include/flang/Parser/tools.h:167-178 | for a tuple (empty optional, span `b1`, span `b2`), `GetSource` is `b1` and `GetLastSource` is `b2` |

## Left out

- `GetLastName`, `GetFirstName`, `GetCoindexedNamedObject` and `CheckForSingleVariableOnRHS` (tools.h:19-43, 122-125, 254): only their declarations are in this header. Their bodies are in a `.cpp` file that is not part of this model.
- `HasTypedExpr` (tools.h:133-137): a compile-time member detector with no run-time behaviour and no use in the modelled code.
- The parse-tree node types and the traits `ConstraintTrait`, `WrapperTrait`, `UnionTrait` and `TupleTrait`: `parse-tree.h` is not part of this model. The traits are the abstract `ClassKind`, and a class is assumed to have at most one of them. So the order of the trait tests in the catch-all overloads plays no part.
- Whether `Statement`/`UnlabeledStatement` has a `source` member is decided in `parse-tree.h`. The model leaves it open as an optional span of the `Stmt` node. A statement's label is not modelled, because neither engine reads it.
- Pointers to non-const objects: the model's `Ptr` is a pointer to const, and every node below it is reached through const access. For `B *p` with a non-const `B`, `*p` at tools.h:53 and tools.h:147 is a non-const lvalue, and C++ overload resolution prefers each engine's catch-all to its `const &` overloads. The catch-all keeps that non-const access down through `.thing`, `.v` and `.u` (and `.t` for `GetSource`). The model does not capture this non-const path, which differs per engine:
  - `Unwrap`: `Unwrap(B &x)` (tools.h:99) is preferred to the variant, tuple, optional, `Indirection` and `Statement`/`UnlabeledStatement` overloads (tools.h:59-97). Below such a pointer, `Unwrap` returns one of those shapes itself if it is exactly of type `A`, and none otherwise.
  - `GetSource`/`GetLastSource`: `GetSource(A &x)` (tools.h:222) is preferred to the variant, tuple, optional, list, vector and `Indirection` overloads (tools.h:152-220). Below such a pointer, those shapes give none. A statement reaches that catch-all with const or non-const access alike, because `GetSourceHelper` has no `Statement` overload, so it yields its own `source` member (tools.h:223-224) in both access modes, as the model's `Stmt` case does.
- Addresses and pointer identity: `Unwrap` returns the found node as a value, not a pointer to it. Two equal subtrees cannot be told apart.
- The non-const front-ends (tools.h:117-119, 242-244, 249-251) forward to the const path through `const_cast`. Over values they coincide with the const front-ends. `Unwrapper.Unwrap` stands for both `Unwrap` front-ends, and `SourceSearch.GetSource`/`GetLastSource` stand for both forms of each.
- The two `Indirection` overloads of `GetSource` (tools.h:152-160) have the same body. They are one case of the model.
- `std::list` and `std::vector` are one `List` shape. Their overloads (tools.h:188-220) have the same bodies.
- Template mechanics: overload partial ordering, `if constexpr`, SFINAE and `common::visit`. These are replaced by pattern matching on the node's shape.
