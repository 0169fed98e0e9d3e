/** The entities the directive factory works on. */
module Types {

  /** The capability interfaces a directive class can implement. A class's set of
      capabilities lists every interface it is an instance of, inherited ones included. */
  datatype Capability =
    | TypeManipulator
    | TypeExtensionManipulator
    | FieldManipulator
    | ArgManipulator
    | TypeResolver
    | FieldResolver
    | TypeMiddleware
    | FieldMiddleware
    | ArgTransformerDirective
    | ArgDirective
    | ArgDirectiveForArray
    | ArgBuilderDirective

  /** What the runtime knows of one loadable class: whether it implements the
      Directive contract, whether it extends BaseDirective (and so can be hydrated),
      and which capability interfaces it implements. */
  datatype ClassInfo = ClassInfo(isDirective: bool, isBaseDirective: bool, capabilities: set<Capability>)

  /** The runtime the factory lives in: the loadable classes by fully qualified name
      (a name is a key exactly when `class_exists` holds of it, and the service
      container instantiates it), and the string function `Str::studly`. */
  datatype Env = Env(classes: map<string, ClassInfo>, studly: string -> string)

  /** A schema definition node (type, type extension, field or argument): its name and
      the names of the directives written on it, in declaration order. */
  datatype Node = Node(name: string, directives: seq<string>)

  datatype Option<T> = None | Some(value: T)

  /** A directive instance: the class it was made from and, once hydrated, the
      definition node it was bound to. */
  datatype Directive = Directive(className: string, definition: Option<Node>)

  /** The three ways a directive request fails (all raised as DirectiveException). */
  datatype DirectiveError =
    | NotADirective(className: string)
    | NotFound(directiveName: string)
    | Conflict(nodeName: string, capability: Capability, found: seq<Directive>)

  datatype Result<T> = Ok(value: T) | Err(error: DirectiveError)

  /** PHP truthiness of a string: only the empty string and "0" are falsy. */
  predicate Truthy(s: string)
  {
    s != "" && s != "0"
  }

  /** `$directive instanceof $capability`. */
  predicate Implements(env: Env, d: Directive, cap: Capability)
  {
    d.className in env.classes && cap in env.classes[d.className].capabilities
  }

  /** `$directive instanceof BaseDirective`. */
  predicate IsBaseDirective(env: Env, className: string)
  {
    className in env.classes && env.classes[className].isBaseDirective
  }

  /** `hydrate`: a BaseDirective is bound to the node; any other directive is returned untouched. */
  function Hydrate(env: Env, d: Directive, node: Node): (r: Directive)
    ensures r.className == d.className
    ensures r == d || r.definition == Some(node)
  {
    if IsBaseDirective(env, d.className) then d.(definition := Some(node)) else d
  }

  /** Hydrating never changes the class, binds a BaseDirective to exactly the node it is
      given, and a later hydration replaces an earlier one: nothing of the first node
      survives on the instance. */
  lemma HydrateBindsOwnNode(env: Env, d: Directive, first: Node, second: Node)
    ensures Hydrate(env, d, first).className == d.className
    ensures IsBaseDirective(env, d.className) ==> Hydrate(env, d, first).definition == Some(first)
    ensures !IsBaseDirective(env, d.className) ==> Hydrate(env, d, first) == d
    ensures Hydrate(env, Hydrate(env, d, first), second) == Hydrate(env, d, second)
  {
  }
}
