# DirectiveFactory: a verified Dafny model

This project models the directive factory of the Lighthouse GraphQL server. The factory
turns a directive name written in a schema (`@eq`, `@field`, ...) into an instance of
the class that implements it. It then sorts the directives on a schema node by
capability (field resolver, field middleware, argument manipulator, ...).

- **Namespace list** (module `Namespaces`). The constructor searches the configured
  namespaces first, then those returned by plugins through the
  RegisterDirectiveNamespaces event, then the built-in `Nuwave\Lighthouse\Schema\Directives`.
  The list is flattened and falsy entries are dropped (null, `""`, `"0"`). Duplicates are kept.
- **Resolver** (module `Resolution`). `create` tries the name-to-class cache first.
  On a miss, `createOrFail` probes `<namespace>\<Studly(name)>Directive` for each
  namespace in order and stops at the first class that exists. That class must be a
  Directive; the mapping is then recorded with `addResolved`.
- **Classifier** (module `Classifier`). `createAssociatedDirectivesOfType` creates
  every directive on a node in declaration order, binds each BaseDirective among
  them to the node (other directives are left as created), and keeps those of one
  capability. `createSingleDirectiveOfType` adds the at-most-one rule.
  The `has*` probes are built on top.
- **The object** (module `Factory`). A class `DirectiveFactory` has the fixed
  namespace list and the mutable cache as fields. Its methods change the cache in
  place and are proved against the functions of the other modules.

The runtime is given to the factory as a value `Env`. It holds a table of loadable
classes, which stands for `class_exists` and the service container: whether each class
is a Directive, whether it is a BaseDirective, and which capability interfaces it
implements. It also holds `Str::studly` as an arbitrary string function.

A central invariant is `Resolution.Coherent`: every usable cached class is the class
the namespace search would find. A new or cleared factory satisfies it, and `create`
keeps it. Under it, caching never changes which directive a name denotes
(`CreateIsCacheTransparent`, `CreateAllIsCacheTransparent`). Two calls from outside the
factory can break it: `setResolved`, and `addResolved` with a class the search would
not find.

The capability queries do not need it. On any cache, including one edited with
`setResolved` or `addResolved`, the entries `create` records along the way only repeat
what the search finds (`Resolution.Extends`). So creating all directives of a node
gives what each name yields on the cache the query started with
(`CreateAllResolvesOnInitialCache`). The filter, the at-most-one rule and the probes
are stated against that reference.

## Model

| member | source | states |
|---|---|---|
| `Namespaces.Flatten` | src/Schema/Factories/DirectiveFactory.php:76 | flattening a nested value yields only scalars (null or strings); what it keeps is stated by the three lemmas below |
| `Namespaces.FlattenAll` | src/Schema/Factories/DirectiveFactory.php:76 | flattening a list of values yields only scalars; what it keeps is stated by the three lemmas below |
| `Namespaces.FlattenAllConcat` | src/Schema/Factories/DirectiveFactory.php:76 | flattening distributes over concatenation, so the values of a list are spliced in order |
| `Namespaces.FlattenAllFlat` | src/Schema/Factories/DirectiveFactory.php:76 | a list without nested lists is returned unchanged: every null and string kept in place, as often as it occurs |
| `Namespaces.FlattenAllIdempotent` | src/Schema/Factories/DirectiveFactory.php:76 | flattening an already flattened list changes nothing |
| `Namespaces.KeepTruthy` | src/Schema/Factories/DirectiveFactory.php:77 | the filter never lengthens the list and keeps only truthy strings |
| `Namespaces.NamespaceList` | src/Schema/Factories/DirectiveFactory.php:66-78 | the constructor's pipeline over the configured value, the event responses and the built-in namespace; every namespace in it is a truthy string |
| `Namespaces.KeepTruthyConcat` | src/Schema/Factories/DirectiveFactory.php:77 | filtering distributes over concatenation, so relative order is kept within and across sources |
| `Namespaces.KeepTruthyCounts` | src/Schema/Factories/DirectiveFactory.php:77 | filtering drops every falsy entry and keeps each truthy string as often as it occurs (no deduplication) |
| `Namespaces.NamespaceListOrder` | src/Schema/Factories/DirectiveFactory.php:66-78 | the list is the filtered configured namespaces, then the filtered plugin namespaces, then the built-in namespace |
| `Namespaces.NamespaceListShape` | src/Schema/Factories/DirectiveFactory.php:66-78 | the built-in namespace is always present and last; every entry is truthy; every other truthy input string occurs as often as it was given |
| `Namespaces.NestedConfigurationIsFlattened` | src/Schema/Factories/DirectiveFactory.php:66-78 | a concrete nested configuration with null, "" and "0" gives the expected list, duplicates included |
| `Types.Hydrate` | src/Schema/Factories/DirectiveFactory.php:186-191 | hydration keeps the class, and either leaves the directive as it was or binds it to the given node |
| `Types.HydrateBindsOwnNode` | src/Schema/Factories/DirectiveFactory.php:186-191 | hydration keeps the class; it binds a BaseDirective to exactly the given node and leaves any other directive untouched; a later hydration replaces an earlier one |
| `Resolution.Lookup` | src/Schema/Factories/DirectiveFactory.php:106 | a cached class name is used only when it is truthy, and then it is the name's own entry; nothing is used exactly when the name is missing or maps to a falsy string |
| `Resolution.SearchFindsFirst` | src/Schema/Factories/DirectiveFactory.php:121-134 | the search yields the candidate of the first namespace, in list order, whose class exists; it yields nothing exactly when no namespace has one |
| `Resolution.LaterNamespacesNeverProbed` | src/Schema/Factories/DirectiveFactory.php:121-133 | namespaces after the first one with a candidate do not affect the result |
| `Resolution.CreateOrFailStep` | src/Schema/Factories/DirectiveFactory.php:119-137 | a failure leaves the cache unchanged; a success is an unbound instance of a Directive class that the search found, recorded with `addResolved` |
| `Resolution.CreateStep` | src/Schema/Factories/DirectiveFactory.php:88-96 | only the name's key can be added; a failure or a cache hit leaves the cache unchanged; without a node the instance is unbound, with a node a BaseDirective is bound to it |
| `Resolution.CreateOrFailOutcome` | src/Schema/Factories/DirectiveFactory.php:119-137 | first existing candidate that is a Directive: it is returned and recorded; one that is not: "not a directive" failure naming it, no fall-through; no candidate: "no directive found" failure naming the directive; failures leave the cache unchanged |
| `Resolution.FirstNamespaceShadowsLater` | src/Schema/Factories/DirectiveFactory.php:121-133 | when the first namespace has a Directive candidate and the name is not cached, `create` returns that class whatever the later namespaces hold |
| `Resolution.CacheHitSkipsSearch` | src/Schema/Factories/DirectiveFactory.php:88-111 | a truthy cached class is instantiated without a search; it is hydrated only when a node is given; the cache is not changed |
| `Resolution.CreateKeepsExtension` | src/Schema/Factories/DirectiveFactory.php:88-152 | on any cache that only adds search hits to a base cache, `create` gives what it gives on the base and leaves such a cache: what `create` records never changes a later result |
| `Resolution.CreateIsCacheTransparent` | src/Schema/Factories/DirectiveFactory.php:88-137 | with a coherent cache, `create` gives what a fresh factory gives and leaves the cache coherent |
| `Resolution.AddResolved` | src/Schema/Factories/DirectiveFactory.php:144-155 | as written: no key other than the name is added or changed, and if the name ends up mapped to another class the cache is unchanged |
| `Resolution.AddResolvedKeepingFirst` | src/Schema/Factories/DirectiveFactory.php:146-147 | as the comment intends: the name becomes a key, every cached entry keeps its class, and a new name gets the class given |
| `Resolution.AddResolvedTouchesOnlyName` | src/Schema/Factories/DirectiveFactory.php:144-155 | `addResolved` changes no key other than the name; it is either a no-op or, when the name is not among the cached class names, sets the name's entry to the class |
| `Resolution.AddResolvedOverwritesFirst` | src/Schema/Factories/DirectiveFactory.php:146-152 | as written, a second `addResolved` for a name that is not among the cached class names overwrites the first class |
| `Resolution.AddResolvedOverwritesOnEmptyCache` | src/Schema/Factories/DirectiveFactory.php:146-152 | the concrete input: "eq" added twice to an empty cache ends up mapped to the second class |
| `Resolution.AddResolvedKeepingFirstWins` | src/Schema/Factories/DirectiveFactory.php:146-147 | corrected operation: the first class recorded for a name is kept; only that name's key is added |
| `Classifier.OfCapability` | src/Schema/Factories/DirectiveFactory.php:206-208 | the filter keeps exactly the directives that implement the capability and is no longer than its input |
| `Classifier.OfCapabilityConcat` | src/Schema/Factories/DirectiveFactory.php:206-208 | the filter distributes over concatenation (declaration order is kept) |
| `Classifier.CreateAllStep` | src/Schema/Factories/DirectiveFactory.php:202-205 | the map over the node's names: on success one directive per name, so a success never drops or adds a directive |
| `Classifier.AssociatedStep` | src/Schema/Factories/DirectiveFactory.php:200-209 | on success no more directives than names on the node, each implementing the capability |
| `Classifier.SingleStep` | src/Schema/Factories/DirectiveFactory.php:223-236 | the cache is that of the multi-valued query; a returned directive implements the capability; a failure of the query is passed on, and any other failure is a conflict naming the node, the capability and at least two directives |
| `Classifier.HasSingleStep` | src/Schema/Factories/DirectiveFactory.php:292-306 | the probe leaves the cache as the single-valued query left it, fails exactly when that query fails, and is true only when a directive was found |
| `Classifier.HasFieldMiddlewareStep` | src/Schema/Factories/DirectiveFactory.php:314-317 | as written: the cache is that of the FieldMiddleware query, and true needs at least two directive names on the field |
| `Classifier.HasAnyFieldMiddlewareStep` | src/Schema/Factories/DirectiveFactory.php:309-317 | corrected: the cache is that of the FieldMiddleware query, and true needs at least one directive name on the field |
| `Classifier.CreateAllStopsAtFailure` | src/Schema/Factories/DirectiveFactory.php:202-205 | the first failing `create` aborts the map; later names are never created |
| `Classifier.ResolveAllSnoc` | src/Schema/Factories/DirectiveFactory.php:202-205 | the reference, each name resolved on the initial cache, processes names left to right |
| `Classifier.CreateAllResolvesOnInitialCache` | src/Schema/Factories/DirectiveFactory.php:202-205 | on every cache, creating all directives of a node equals resolving each name on the cache the map started with; the cache it leaves only adds entries that repeat the search |
| `Classifier.ResolveAllCoherent` | src/Schema/Factories/DirectiveFactory.php:88-111 | on a coherent cache every name resolves as on a fresh factory, so the reference is the cache-free one |
| `Classifier.CreateAllIsCacheTransparent` | src/Schema/Factories/DirectiveFactory.php:202-205 | with a coherent cache, creating all directives of a node equals the cache-free reference and keeps the cache coherent |
| `Classifier.ResolveAllOutcome` | src/Schema/Factories/DirectiveFactory.php:202-205 | the map succeeds iff every name resolves, giving one directive per name in order; otherwise it reports the first failing name's error |
| `Classifier.AssociatedIsOrderedFilter` | src/Schema/Factories/DirectiveFactory.php:200-209 | on any cache, the directives of a capability are the matching resolved directives, in declaration order |
| `Classifier.OneFailureFailsEveryCapability` | src/Schema/Factories/DirectiveFactory.php:200-209 | on any cache, one unresolvable name anywhere on a node makes every capability query on it fail |
| `Classifier.CreateAllBindsToNode` | src/Schema/Factories/DirectiveFactory.php:202-205 | every directive created for a node is bound to that node if it is a BaseDirective, and to no node otherwise |
| `Classifier.AssociatedBoundToNode` | src/Schema/Factories/DirectiveFactory.php:200-209 | every returned directive implements the capability asked for and is bound to the queried node (if a BaseDirective) |
| `Classifier.SingleCardinality` | src/Schema/Factories/DirectiveFactory.php:223-236 | on any cache: more than one match is a conflict naming the node, the capability and all matches; exactly one: returned; none: nothing |
| `Classifier.HasSingleIffExactlyOne` | src/Schema/Factories/DirectiveFactory.php:292-306 | on any cache, `hasTypeResolver`/`hasFieldResolver` are true iff exactly one match exists, false iff none, and fail iff several |
| `Classifier.HasFieldMiddlewareNeedsTwo` | src/Schema/Factories/DirectiveFactory.php:314-317 | on any cache, `hasFieldMiddleware` as written is true iff the field has at least two FieldMiddleware directives |
| `Classifier.HasAnyFieldMiddlewareNeedsOne` | src/Schema/Factories/DirectiveFactory.php:309-317 | on any cache, the corrected probe is true iff the field has at least one FieldMiddleware directive |
| `Classifier.OneFieldMiddlewareIsNotReported` | src/Schema/Factories/DirectiveFactory.php:309-317 | a field with exactly one FieldMiddleware directive: the probe as written says false, the corrected probe says true |
| `Classifier.EmptyNodeYieldsNothing` | src/Schema/Factories/DirectiveFactory.php:200-236 | a node without directives: empty sequence, nothing, false, never an error, cache untouched |
| `Classifier.TwoOfOneCapabilityConflict` | src/Schema/Factories/DirectiveFactory.php:223-236 | two directives of one capability: the multi-valued query returns both in order, and the single-valued query fails naming the node and both |
| `Factory.DirectiveFactory.constructor` | src/Schema/Factories/DirectiveFactory.php:63-79 | namespaces are the constructor pipeline with the built-in namespace last; the cache starts empty and coherent |
| `Factory.DirectiveFactory.Resolve` | src/Schema/Factories/DirectiveFactory.php:104-111 | returns an instance of the cached class iff the cache holds a truthy class name for the name |
| `Factory.DirectiveFactory.CreateOrFail` | src/Schema/Factories/DirectiveFactory.php:119-137 | the loop over namespaces gives exactly the outcome and new cache of the search specification |
| `Factory.DirectiveFactory.AddResolved` | src/Schema/Factories/DirectiveFactory.php:144-155 | no change when the name is among the cached class names; otherwise the name is mapped to the class, overwriting |
| `Factory.DirectiveFactory.SetResolved` | src/Schema/Factories/DirectiveFactory.php:162-167 | the name is always mapped to the class; nothing else changes |
| `Factory.DirectiveFactory.ClearResolved` | src/Schema/Factories/DirectiveFactory.php:172-177 | the cache becomes empty (and so coherent) |
| `Factory.DirectiveFactory.Create` | src/Schema/Factories/DirectiveFactory.php:88-96 | outcome and new cache as specified; with a coherent cache, the result a fresh factory gives and a cache that stays coherent |
| `Factory.DirectiveFactory.CreateAssociatedDirectivesOfType` | src/Schema/Factories/DirectiveFactory.php:200-209 | the loop creating each name gives the specified outcome and cache, and keeps a coherent cache coherent |
| `Factory.DirectiveFactory.CreateSingleDirectiveOfType` | src/Schema/Factories/DirectiveFactory.php:223-236 | outcome and cache of the at-most-one rule; a coherent cache stays coherent |
| `Factory.DirectiveFactory.CreateTypeManipulators` | src/Schema/Factories/DirectiveFactory.php:242-245 | the TypeManipulator directives of the node; a coherent cache stays coherent |
| `Factory.DirectiveFactory.CreateTypeExtensionManipulators` | src/Schema/Factories/DirectiveFactory.php:251-254 | the TypeExtensionManipulator directives of the node; a coherent cache stays coherent |
| `Factory.DirectiveFactory.CreateFieldManipulators` | src/Schema/Factories/DirectiveFactory.php:260-263 | the FieldManipulator directives of the node; a coherent cache stays coherent |
| `Factory.DirectiveFactory.CreateArgManipulators` | src/Schema/Factories/DirectiveFactory.php:269-272 | the ArgManipulator directives of the node; a coherent cache stays coherent |
| `Factory.DirectiveFactory.CreateTypeResolver` | src/Schema/Factories/DirectiveFactory.php:280-284 | the single TypeResolver directive of the node; a coherent cache stays coherent |
| `Factory.DirectiveFactory.HasTypeResolver` | src/Schema/Factories/DirectiveFactory.php:292-295 | the type resolver tested with `instanceof TypeResolver`; a coherent cache stays coherent |
| `Factory.DirectiveFactory.HasFieldResolver` | src/Schema/Factories/DirectiveFactory.php:303-306 | the field resolver tested with `instanceof FieldResolver`; a coherent cache stays coherent |
| `Factory.DirectiveFactory.HasFieldMiddleware` | src/Schema/Factories/DirectiveFactory.php:314-317 | the count of FieldMiddleware directives exceeds one; a coherent cache stays coherent |
| `Factory.DirectiveFactory.CreateFieldResolver` | src/Schema/Factories/DirectiveFactory.php:325-328 | the single FieldResolver directive of the field; a coherent cache stays coherent |
| `Factory.DirectiveFactory.CreateTypeMiddleware` | src/Schema/Factories/DirectiveFactory.php:336-339 | the TypeMiddleware directives of the node; a coherent cache stays coherent |
| `Factory.DirectiveFactory.CreateFieldMiddleware` | src/Schema/Factories/DirectiveFactory.php:347-350 | the FieldMiddleware directives of the field; a coherent cache stays coherent |
| `Factory.DirectiveFactory.CreateArgTransformers` | src/Schema/Factories/DirectiveFactory.php:358-361 | the ArgTransformerDirective directives of the argument; a coherent cache stays coherent |
| `Factory.DirectiveFactory.CreateArgDirectives` | src/Schema/Factories/DirectiveFactory.php:369-372 | the ArgDirective directives of the argument; a coherent cache stays coherent |
| `Factory.DirectiveFactory.CreateArgDirectivesForArray` | src/Schema/Factories/DirectiveFactory.php:380-383 | the ArgDirectiveForArray directives of the argument; a coherent cache stays coherent |
| `Factory.DirectiveFactory.CreateArgBuilderDirective` | src/Schema/Factories/DirectiveFactory.php:391-394 | the ArgBuilderDirective directives of the argument; a coherent cache stays coherent |

## Left out

- `class_exists` and the service container `app()` are replaced by the class table in `Env`. Whether the container returns a shared instance or a fresh one is not visible, so instances are values. If the container shares one instance, hydrating it for a second node would also change what the first caller holds; the model does not capture that aliasing.
- Container failures are not modelled. Examples: `setResolved` with a class the container cannot build, or a cached class that is not a Directive, where PHP raises a type error on the return type of `resolve`. On a cache hit, the model returns an instance of the cached class whatever it is.
- `Str::studly` is not shown, so it is an arbitrary function held in `Env`. No property depends on its definition.
- The event dispatcher and `config()` are not called. Their results are constructor arguments of type `Entry`: null, strings, or nested lists. Booleans and numbers in the configuration are not modelled.
- `Collection::filter` keeps the original array keys. This applies to the namespace list (line 77) and to the collections the capability queries return (lines 206-208). There the kept directives keep their declaration positions as keys: `[1 => X, 3 => Y]`. The model uses plain sequences, so it keeps the order but not those keys. The namespace loop does not depend on the keys. A caller that indexes a returned collection by position is not modelled.
- The internals of `BaseDirective::hydrate` and argument reading are not shown. Hydration is modelled as recording the node on the instance.
- Error messages keep only the parts the code puts in them: the class name, the directive name, or the node name, the capability and the conflicting directives. The exception class and the message text are not modelled. The conflict's list of directives is what the code passes to `$directives->implode(', ')` (line 228). On a collection of objects, Laravel's `Collection::implode` reads its first argument as a property name to pluck, so the actual message probably names no directives. Laravel's collection code is not part of this model, so this is not settled here.
- The AST types (type definition, type extension, field, input value) are one `Node`: a name and the ordered directive names. Directive arguments are not modelled.
- The fluent `return $this` of `addResolved`, `setResolved` and `clearResolved` is not modelled.
- tests/Unit/Schema/Directives/CanDirectiveDbTest.php holds end-to-end database and HTTP tests of the `@can` directive. That logic is not part of this model.
- Concurrency: the factory is used sequentially, and so is the model.

## Findings

| source | as written | input that shows it | evidently intended | confidence | as-written member | corrected member |
|---|---|---|---|---|---|---|
| src/Schema/Factories/DirectiveFactory.php:148 | the guard looks for the directive name among the cached class names (the map's values), so an existing key is overwritten | empty cache; `addResolved("eq", "App\Directives\EqDirective")`, then `addResolved("eq", "Nuwave\Lighthouse\Schema\Directives\EqDirective")`; "eq" now maps to the built-in class | keep the first class recorded for a name, as the comment at lines 146-147 says: test the map's keys | high; not executed | `Resolution.AddResolvedOverwritesOnEmptyCache` | `Resolution.AddResolvedKeepingFirstWins` |
| src/Schema/Factories/DirectiveFactory.php:316 | `hasFieldMiddleware` requires more than one FieldMiddleware directive | a field carrying exactly one directive, which resolves to a FieldMiddleware; the probe answers false | true for one or more, as the doc comment at line 309 says | medium; not executed | `Classifier.OneFieldMiddlewareIsNotReported` | `Classifier.HasAnyFieldMiddlewareNeedsOne` |

The `DirectiveFactory` class keeps both operations as written, because that is the
behaviour its callers get. The first finding does not affect `create`: it calls
`addResolved` only on a cache miss, and a coherent cache makes every later `create` of
that name give the same class either way (`CreateIsCacheTransparent`). The
first-writer-wins rule matters only to outside callers of `addResolved`.
