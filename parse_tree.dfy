/** The shapes of Flang parse-tree nodes that the generic traversals in
    flang/include/flang/Parser/tools.h dispatch on.

    In the C++ code the shape of a node is its static type: overload
    resolution picks a dedicated overload for pointers, `common::Indirection`,
    `std::variant`, `std::tuple`, `std::optional`, `std::list`/`std::vector`
    and `Statement`/`UnlabeledStatement`, and a catch-all overload for every
    other class, which then inspects the class's members and traits at
    compile time. Here that dispatch becomes one constructor per shape. */
module ParseTree {

  datatype Option<+T> = None | Some(value: T)

  /** A `CharBlock`: a borrowed view of a range of the cooked source text.
      Nothing in the traversals looks inside it. */
  datatype CharBlock = CharBlock(start: nat, size: nat)

  /** The static (decayed) C++ type of a class node, as compared by
      `std::is_same_v<std::decay_t<A>, std::decay_t<B>>`. */
  type TypeName = string

  /** What the catch-all class overload finds in a class that is not the
      target type: at most one of the parse-tree traits, each naming the
      member that holds the class's contents. */
  datatype ClassKind =
    | Constraint(thing: Node)   // ConstraintTrait: member `thing`
    | Wrapper(v: Node)          // WrapperTrait: member `v`
    | Union(u: Node)            // UnionTrait: member `u`, usually a std::variant
    | TupleT(t: seq<Node>)      // TupleTrait: member `t`, a std::tuple of the fields
    | Opaque                    // none of the traits

  datatype Node =
      /** A raw pointer to a const object (`const B *`); `None` is a null
          pointer. Pointers to non-const objects are not modelled: for them
          C++ overload resolution takes a different path. */
    | Ptr(target: Option<Node>)
      /** `common::Indirection<B, COPY>`: an owned value reached by `.value()`. */
    | Indir(value: Node)
      /** `std::variant<Bs...>`, holding its active alternative. */
    | Variant(active: Node)
      /** `std::tuple<Bs...>`, its elements in index order. */
    | Tuple(fields: seq<Node>)
      /** `std::optional<B>`; `None` is an empty optional. */
    | Opt(content: Option<Node>)
      /** `std::list<B>` or `std::vector<B>` (both are handled alike), with
          the decayed type of the container itself. */
    | List(typ: TypeName, elems: seq<Node>)
      /** `Statement<B>` or `UnlabeledStatement<B>`: the statement payload,
          and the `source` member of the statement class if it has one. The
          label of a `Statement` is never looked at and is not modelled. */
    | Stmt(source: Option<CharBlock>, statement: Node)
      /** Any other class: its type, its `source` member if the class has
          one (the `HasSource` test), and what its trait says about its
          contents. */
    | Class(typ: TypeName, source: Option<CharBlock>, kind: ClassKind)

  /** The node is a class of exactly type `a`: the only nodes the catch-all
      `Unwrap` overload can return. Pointers, indirections, variants,
      tuples, optionals and statements have dedicated overloads and never
      reach the type test. */
  predicate IsA(a: TypeName, n: Node)
  {
    (n.Class? || n.List?) && n.typ == a
  }

  /** The node is a class with a `source` member: the nodes at which
      `GetSource` and `GetLastSource` stop. */
  predicate HasSource(n: Node)
  {
    (n.Class? || n.Stmt?) && n.source.Some?
  }
}
