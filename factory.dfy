/** The DirectiveFactory object: a fixed list of namespaces to search and a mutable
    name-to-class cache, with the operations the schema builder calls. Every method
    is proved against the functions of Resolution and Classifier. */
module Factory {
  import opened Types
  import opened Namespaces
  import opened Resolution
  import opened Classifier

  class DirectiveFactory {
    /** The runtime the factory asks for classes (class_exists, the container) and
        for Str::studly. */
    const env: Env
    /** `$directiveBaseNamespaces`: searched in this order, most significant first. */
    const namespaces: seq<string>
    /** `$resolvedClassnames`: short directive name to fully qualified class name. */
    var resolved: map<string, string>

    /** The namespaces are the configured ones, then the plugins' ones, then the
        built-in one; the cache starts empty, so it agrees with the search. */
    constructor (env: Env, configured: Entry, plugins: Entry)
      ensures this.env == env
      ensures namespaces == NamespaceList(configured, plugins)
      ensures |namespaces| >= 1 && namespaces[|namespaces| - 1] == BuiltIn
      ensures resolved == map[]
      ensures Coherent(env, namespaces, resolved)
    {
      this.env := env;
      namespaces := NamespaceList(configured, plugins);
      resolved := map[];
      NamespaceListShape(configured, plugins);
    }

    /** `resolve`: an instance of the cached class when the cache holds a truthy class
        name for `name`, nothing otherwise. */
    method Resolve(name: string) returns (d: Option<Directive>)
      ensures d.Some? <==> name in resolved && Truthy(resolved[name])
      ensures d.Some? ==> d.value == Directive(resolved[name], None)
    {
      var className := Lookup(resolved, name);
      if className.Some? {
        d := Some(Directive(className.value, None));
      } else {
        d := None;
      }
    }

    /** `createOrFail`: the namespaces in order; the first existing candidate decides. */
    method CreateOrFail(name: string) returns (r: Result<Directive>)
      modifies this
      ensures Step(r, resolved) == CreateOrFailStep(env, namespaces, old(resolved), name)
    {
      var i := 0;
      while i < |namespaces|
        invariant 0 <= i <= |namespaces|
        invariant resolved == old(resolved)
        invariant SearchFrom(env, namespaces, name, i) == Search(env, namespaces, name)
      {
        var className := Candidate(env, namespaces[i], name);
        if className in env.classes {
          if !env.classes[className].isDirective {
            return Err(NotADirective(className));
          }
          AddResolved(name, className);
          return Ok(Directive(className, None));
        }
        i := i + 1;
      }
      return Err(NotFound(name));
    }

    /** `addResolved`, as written: skipped when `name` is among the cached class
        names; otherwise `name` is mapped to `className`, replacing any earlier entry. */
    method AddResolved(name: string, className: string)
      modifies this
      ensures name in old(resolved).Values ==> resolved == old(resolved)
      ensures name !in old(resolved).Values ==> resolved == old(resolved)[name := className]
    {
      if name in resolved.Values {
        return;
      }
      resolved := resolved[name := className];
    }

    /** `setResolved`: always maps `name` to `className`. */
    method SetResolved(name: string, className: string)
      modifies this
      ensures resolved == old(resolved)[name := className]
    {
      resolved := resolved[name := className];
    }

    /** `clearResolved`: the next `create` of any name searches the namespaces again. */
    method ClearResolved()
      modifies this
      ensures resolved == map[]
      ensures Coherent(env, namespaces, resolved)
    {
      resolved := map[];
    }

    /** `create`: the cache, else the search; hydrated when a node is given. With a
        cache that agrees with the search, the result is what a fresh factory gives. */
    method Create(name: string, node: Option<Node>) returns (r: Result<Directive>)
      modifies this
      ensures Step(r, resolved) == CreateStep(env, namespaces, old(resolved), name, node)
      ensures Coherent(env, namespaces, old(resolved)) ==>
        r == Resolved(env, namespaces, name, node) && Coherent(env, namespaces, resolved)
    {
      ghost var before := resolved;
      var cached := Resolve(name);
      var d: Result<Directive>;
      if cached.Some? {
        d := Ok(cached.value);
      } else {
        d := CreateOrFail(name);
      }
      if d.Ok? && node.Some? {
        r := Ok(Hydrate(env, d.value, node.value));
      } else {
        r := d;
      }
      if Coherent(env, namespaces, before) {
        CreateIsCacheTransparent(env, namespaces, before, name, node);
      }
    }

    /** `createAssociatedDirectivesOfType`: every name on the node created and bound
        to it, in declaration order, then those implementing `cap` kept. */
    method CreateAssociatedDirectivesOfType(node: Node, cap: Capability) returns (r: Result<seq<Directive>>)
      modifies this
      ensures Step(r, resolved) == AssociatedStep(env, namespaces, old(resolved), node, cap)
      ensures Coherent(env, namespaces, old(resolved)) ==> Coherent(env, namespaces, resolved)
    {
      if Coherent(env, namespaces, resolved) {
        CreateAllIsCacheTransparent(env, namespaces, resolved, node.directives, node);
      }
      var created: seq<Directive> := [];
      var i := 0;
      while i < |node.directives|
        invariant 0 <= i <= |node.directives|
        invariant CreateAllStep(env, namespaces, old(resolved), node.directives[..i], node)
               == Step(Ok(created), resolved)
      {
        CreateAllStepExtend(env, namespaces, old(resolved), node.directives, node, i);
        var d := Create(node.directives[i], Some(node));
        if d.Err? {
          CreateAllStopsAtFailure(env, namespaces, old(resolved), node.directives, node, i + 1);
          return Err(d.error);
        }
        created := created + [d.value];
        i := i + 1;
      }
      assert node.directives[..i] == node.directives;
      return Ok(OfCapability(env, created, cap));
    }

    /** `createSingleDirectiveOfType`: at most one directive of `cap` on the node. */
    method CreateSingleDirectiveOfType(node: Node, cap: Capability) returns (r: Result<Option<Directive>>)
      modifies this
      ensures Step(r, resolved) == SingleStep(env, namespaces, old(resolved), node, cap)
      ensures Coherent(env, namespaces, old(resolved)) ==> Coherent(env, namespaces, resolved)
    {
      var ds := CreateAssociatedDirectivesOfType(node, cap);
      if ds.Err? {
        return Err(ds.error);
      }
      if |ds.value| > 1 {
        return Err(Conflict(node.name, cap, ds.value));
      }
      if |ds.value| == 1 {
        return Ok(Some(ds.value[0]));
      }
      return Ok(None);
    }

    method CreateTypeManipulators(typeDefinition: Node) returns (r: Result<seq<Directive>>)
      modifies this
      ensures Step(r, resolved) == AssociatedStep(env, namespaces, old(resolved), typeDefinition, TypeManipulator)
      ensures Coherent(env, namespaces, old(resolved)) ==> Coherent(env, namespaces, resolved)
    {
      r := CreateAssociatedDirectivesOfType(typeDefinition, TypeManipulator);
    }

    method CreateTypeExtensionManipulators(typeExtension: Node) returns (r: Result<seq<Directive>>)
      modifies this
      ensures Step(r, resolved) == AssociatedStep(env, namespaces, old(resolved), typeExtension, TypeExtensionManipulator)
      ensures Coherent(env, namespaces, old(resolved)) ==> Coherent(env, namespaces, resolved)
    {
      r := CreateAssociatedDirectivesOfType(typeExtension, TypeExtensionManipulator);
    }

    method CreateFieldManipulators(fieldDefinition: Node) returns (r: Result<seq<Directive>>)
      modifies this
      ensures Step(r, resolved) == AssociatedStep(env, namespaces, old(resolved), fieldDefinition, FieldManipulator)
      ensures Coherent(env, namespaces, old(resolved)) ==> Coherent(env, namespaces, resolved)
    {
      r := CreateAssociatedDirectivesOfType(fieldDefinition, FieldManipulator);
    }

    method CreateArgManipulators(inputValueDefinition: Node) returns (r: Result<seq<Directive>>)
      modifies this
      ensures Step(r, resolved) == AssociatedStep(env, namespaces, old(resolved), inputValueDefinition, ArgManipulator)
      ensures Coherent(env, namespaces, old(resolved)) ==> Coherent(env, namespaces, resolved)
    {
      r := CreateAssociatedDirectivesOfType(inputValueDefinition, ArgManipulator);
    }

    method CreateTypeResolver(typeDefinition: Node) returns (r: Result<Option<Directive>>)
      modifies this
      ensures Step(r, resolved) == SingleStep(env, namespaces, old(resolved), typeDefinition, TypeResolver)
      ensures Coherent(env, namespaces, old(resolved)) ==> Coherent(env, namespaces, resolved)
    {
      r := CreateSingleDirectiveOfType(typeDefinition, TypeResolver);
    }

    /** `hasTypeResolver`: the type resolver, if any, tested with `instanceof TypeResolver`. */
    method HasTypeResolver(typeDefinition: Node) returns (r: Result<bool>)
      modifies this
      ensures Step(r, resolved)
           == HasSingleStep(env, SingleStep(env, namespaces, old(resolved), typeDefinition, TypeResolver), TypeResolver)
      ensures Coherent(env, namespaces, old(resolved)) ==> Coherent(env, namespaces, resolved)
    {
      var found := CreateTypeResolver(typeDefinition);
      if found.Err? {
        return Err(found.error);
      }
      return Ok(found.value.Some? && Implements(env, found.value.value, TypeResolver));
    }

    /** `hasFieldResolver`: the field resolver, if any, tested with `instanceof FieldResolver`. */
    method HasFieldResolver(fieldDefinition: Node) returns (r: Result<bool>)
      modifies this
      ensures Step(r, resolved)
           == HasSingleStep(env, SingleStep(env, namespaces, old(resolved), fieldDefinition, FieldResolver), FieldResolver)
      ensures Coherent(env, namespaces, old(resolved)) ==> Coherent(env, namespaces, resolved)
    {
      var found := CreateFieldResolver(fieldDefinition);
      if found.Err? {
        return Err(found.error);
      }
      return Ok(found.value.Some? && Implements(env, found.value.value, FieldResolver));
    }

    /** `hasFieldMiddleware`, as written: more than one FieldMiddleware directive. */
    method HasFieldMiddleware(field: Node) returns (r: Result<bool>)
      modifies this
      ensures Step(r, resolved) == HasFieldMiddlewareStep(env, namespaces, old(resolved), field)
      ensures Coherent(env, namespaces, old(resolved)) ==> Coherent(env, namespaces, resolved)
    {
      var ms := CreateFieldMiddleware(field);
      if ms.Err? {
        return Err(ms.error);
      }
      return Ok(|ms.value| > 1);
    }

    method CreateFieldResolver(field: Node) returns (r: Result<Option<Directive>>)
      modifies this
      ensures Step(r, resolved) == SingleStep(env, namespaces, old(resolved), field, FieldResolver)
      ensures Coherent(env, namespaces, old(resolved)) ==> Coherent(env, namespaces, resolved)
    {
      r := CreateSingleDirectiveOfType(field, FieldResolver);
    }

    method CreateTypeMiddleware(typeDefinition: Node) returns (r: Result<seq<Directive>>)
      modifies this
      ensures Step(r, resolved) == AssociatedStep(env, namespaces, old(resolved), typeDefinition, TypeMiddleware)
      ensures Coherent(env, namespaces, old(resolved)) ==> Coherent(env, namespaces, resolved)
    {
      r := CreateAssociatedDirectivesOfType(typeDefinition, TypeMiddleware);
    }

    method CreateFieldMiddleware(fieldDefinition: Node) returns (r: Result<seq<Directive>>)
      modifies this
      ensures Step(r, resolved) == AssociatedStep(env, namespaces, old(resolved), fieldDefinition, FieldMiddleware)
      ensures Coherent(env, namespaces, old(resolved)) ==> Coherent(env, namespaces, resolved)
    {
      r := CreateAssociatedDirectivesOfType(fieldDefinition, FieldMiddleware);
    }

    method CreateArgTransformers(arg: Node) returns (r: Result<seq<Directive>>)
      modifies this
      ensures Step(r, resolved) == AssociatedStep(env, namespaces, old(resolved), arg, ArgTransformerDirective)
      ensures Coherent(env, namespaces, old(resolved)) ==> Coherent(env, namespaces, resolved)
    {
      r := CreateAssociatedDirectivesOfType(arg, ArgTransformerDirective);
    }

    method CreateArgDirectives(arg: Node) returns (r: Result<seq<Directive>>)
      modifies this
      ensures Step(r, resolved) == AssociatedStep(env, namespaces, old(resolved), arg, ArgDirective)
      ensures Coherent(env, namespaces, old(resolved)) ==> Coherent(env, namespaces, resolved)
    {
      r := CreateAssociatedDirectivesOfType(arg, ArgDirective);
    }

    method CreateArgDirectivesForArray(arg: Node) returns (r: Result<seq<Directive>>)
      modifies this
      ensures Step(r, resolved) == AssociatedStep(env, namespaces, old(resolved), arg, ArgDirectiveForArray)
      ensures Coherent(env, namespaces, old(resolved)) ==> Coherent(env, namespaces, resolved)
    {
      r := CreateAssociatedDirectivesOfType(arg, ArgDirectiveForArray);
    }

    method CreateArgBuilderDirective(arg: Node) returns (r: Result<seq<Directive>>)
      modifies this
      ensures Step(r, resolved) == AssociatedStep(env, namespaces, old(resolved), arg, ArgBuilderDirective)
      ensures Coherent(env, namespaces, old(resolved)) ==> Coherent(env, namespaces, resolved)
    {
      r := CreateAssociatedDirectivesOfType(arg, ArgBuilderDirective);
    }
  }
}
