/** Creating every directive on a node and keeping those of one capability, the
    at-most-one rule for single-valued capabilities, and the `has*` probes. */
module Classifier {
  import opened Types
  import opened Resolution

  /** The `filter` by `instanceof $directiveClass`: the directives implementing `cap`,
      in their original order. */
  function OfCapability(env: Env, ds: seq<Directive>, cap: Capability): (r: seq<Directive>)
    ensures |r| <= |ds|
    ensures forall d :: d in r <==> d in ds && Implements(env, d, cap)
  {
    if ds == [] then []
    else (if Implements(env, ds[0], cap) then [ds[0]] else []) + OfCapability(env, ds[1..], cap)
  }

  /** Filtering distributes over concatenation, so relative order is kept. */
  lemma {:induction false} OfCapabilityConcat(env: Env, a: seq<Directive>, b: seq<Directive>, cap: Capability)
    ensures OfCapability(env, a + b, cap) == OfCapability(env, a, cap) + OfCapability(env, b, cap)
    decreases |a|
  {
    if a == [] {
      assert a + b == b;
    } else {
      assert (a + b)[0] == a[0];
      assert (a + b)[1..] == a[1..] + b;
      OfCapabilityConcat(env, a[1..], b, cap);
    }
  }

  /** The `map` over the node's directives: `create` for each name, left to right,
      the cache threaded through; the first failure aborts the rest. */
  function CreateAllStep(env: Env, namespaces: seq<string>, cache: map<string, string>, names: seq<string>, node: Node): (r: Step<seq<Directive>>)
    ensures r.result.Ok? ==> |r.result.value| == |names|
    decreases |names|
  {
    if names == [] then Step(Ok([]), cache)
    else
      var before := CreateAllStep(env, namespaces, cache, names[..|names| - 1], node);
      if before.result.Err? then before
      else
        var last := CreateStep(env, namespaces, before.cache, names[|names| - 1], Some(node));
        match last.result
        case Err(e) => Step(Err(e), last.cache)
        case Ok(d) => Step(Ok(before.result.value + [d]), last.cache)
  }

  /** The map over the first `i + 1` names: the map over the first `i`, then `create`
      of name `i` unless an earlier name already failed. */
  lemma CreateAllStepExtend(env: Env, namespaces: seq<string>, cache: map<string, string>, names: seq<string>, node: Node, i: nat)
    requires i < |names|
    ensures var before := CreateAllStep(env, namespaces, cache, names[..i], node);
      CreateAllStep(env, namespaces, cache, names[..i + 1], node)
        == if before.result.Err? then before
           else var last := CreateStep(env, namespaces, before.cache, names[i], Some(node));
             match last.result
             case Err(e) => Step(Err(e), last.cache)
             case Ok(d) => Step(Ok(before.result.value + [d]), last.cache)
  {
    assert names[..i + 1][..i] == names[..i];
  }

  /** The first failure aborts the map: names after it are never created, and the
      cache stays as the failing `create` left it. */
  lemma {:induction false} CreateAllStopsAtFailure(env: Env, namespaces: seq<string>, cache: map<string, string>, names: seq<string>, node: Node, k: nat)
    requires k <= |names|
    requires CreateAllStep(env, namespaces, cache, names[..k], node).result.Err?
    ensures CreateAllStep(env, namespaces, cache, names, node) == CreateAllStep(env, namespaces, cache, names[..k], node)
    decreases |names| - k
  {
    if k < |names| {
      assert names[..k + 1][..k] == names[..k];
      CreateAllStopsAtFailure(env, namespaces, cache, names, node, k + 1);
    } else {
      assert names[..k] == names;
    }
  }

  /** Reference definition: each name resolved on the initial cache, independently of
      the others, the first failure reported. */
  function ResolveAll(env: Env, namespaces: seq<string>, cache: map<string, string>, names: seq<string>, node: Node): Result<seq<Directive>>
  {
    if names == [] then Ok([])
    else match ResolvedOn(env, namespaces, cache, names[0], Some(node))
      case Err(e) => Err(e)
      case Ok(d) =>
        match ResolveAll(env, namespaces, cache, names[1..], node)
        case Err(e) => Err(e)
        case Ok(ds) => Ok([d] + ds)
  }

  /** `createAssociatedDirectivesOfType`. */
  function AssociatedStep(env: Env, namespaces: seq<string>, cache: map<string, string>, node: Node, cap: Capability): (r: Step<seq<Directive>>)
    ensures r.result.Ok? ==> |r.result.value| <= |node.directives|
    ensures r.result.Ok? ==> forall d :: d in r.result.value ==> Implements(env, d, cap)
  {
    var all := CreateAllStep(env, namespaces, cache, node.directives, node);
    match all.result
    case Err(e) => Step(Err(e), all.cache)
    case Ok(ds) => Step(Ok(OfCapability(env, ds, cap)), all.cache)
  }

  /** `createSingleDirectiveOfType`: more than one match is a conflict naming the node
      and the capability; otherwise the first match, if any. */
  function SingleStep(env: Env, namespaces: seq<string>, cache: map<string, string>, node: Node, cap: Capability): (r: Step<Option<Directive>>)
    ensures r.cache == AssociatedStep(env, namespaces, cache, node, cap).cache
    ensures r.result.Ok? && r.result.value.Some? ==> Implements(env, r.result.value.value, cap)
    ensures AssociatedStep(env, namespaces, cache, node, cap).result.Err?
        ==> r.result == Err(AssociatedStep(env, namespaces, cache, node, cap).result.error)
    ensures r.result.Err? && AssociatedStep(env, namespaces, cache, node, cap).result.Ok?
        ==> && r.result.error.Conflict?
            && r.result.error.nodeName == node.name && r.result.error.capability == cap
            && |r.result.error.found| >= 2
  {
    var s := AssociatedStep(env, namespaces, cache, node, cap);
    match s.result
    case Err(e) => Step(Err(e), s.cache)
    case Ok(ms) =>
      if |ms| > 1 then Step(Err(Conflict(node.name, cap, ms)), s.cache)
      else if |ms| == 1 then Step(Ok(Some(ms[0])), s.cache)
      else Step(Ok(None), s.cache)
  }

  /** `hasTypeResolver` / `hasFieldResolver`: the single directive, tested with `instanceof`. */
  function HasSingleStep(env: Env, s: Step<Option<Directive>>, cap: Capability): (r: Step<bool>)
    ensures r.cache == s.cache
    ensures r.result.Err? <==> s.result.Err?
    ensures r.result == Ok(true) ==> s.result.Ok? && s.result.value.Some?
  {
    match s.result
    case Err(e) => Step(Err(e), s.cache)
    case Ok(found) => Step(Ok(found.Some? && Implements(env, found.value, cap)), s.cache)
  }

  /** `hasFieldMiddleware` as written: `count() > 1`. */
  function HasFieldMiddlewareStep(env: Env, namespaces: seq<string>, cache: map<string, string>, field: Node): (r: Step<bool>)
    ensures r.cache == AssociatedStep(env, namespaces, cache, field, FieldMiddleware).cache
    ensures r.result == Ok(true) ==> |field.directives| >= 2
  {
    var s := AssociatedStep(env, namespaces, cache, field, FieldMiddleware);
    match s.result
    case Err(e) => Step(Err(e), s.cache)
    case Ok(ms) => Step(Ok(|ms| > 1), s.cache)
  }

  /** `hasFieldMiddleware` as its documentation describes it: one or more. */
  function HasAnyFieldMiddlewareStep(env: Env, namespaces: seq<string>, cache: map<string, string>, field: Node): (r: Step<bool>)
    ensures r.cache == AssociatedStep(env, namespaces, cache, field, FieldMiddleware).cache
    ensures r.result == Ok(true) ==> |field.directives| >= 1
  {
    var s := AssociatedStep(env, namespaces, cache, field, FieldMiddleware);
    match s.result
    case Err(e) => Step(Err(e), s.cache)
    case Ok(ms) => Step(Ok(|ms| > 0), s.cache)
  }

  /** Appending one name to the cache-free reference: the earlier names first, then the new one. */
  lemma {:induction false} ResolveAllSnoc(env: Env, namespaces: seq<string>, cache: map<string, string>, names: seq<string>, name: string, node: Node)
    ensures ResolveAll(env, namespaces, cache, names + [name], node)
         == match ResolveAll(env, namespaces, cache, names, node)
            case Err(e) => Err(e)
            case Ok(ds) =>
              match ResolvedOn(env, namespaces, cache, name, Some(node))
              case Err(e) => Err(e)
              case Ok(d) => Ok(ds + [d])
    decreases |names|
  {
    if names == [] {
      assert names + [name] == [name];
      assert [name][1..] == [];
      assert ResolveAll(env, namespaces, cache, [name][1..], node) == Ok([]);
      match ResolvedOn(env, namespaces, cache, name, Some(node))
      case Err(_) =>
      case Ok(d) =>
        assert [d] + [] == [] + [d];
    } else {
      assert (names + [name])[0] == names[0];
      assert (names + [name])[1..] == names[1..] + [name];
      ResolveAllSnoc(env, namespaces, cache, names[1..], name, node);
      match ResolvedOn(env, namespaces, cache, names[0], Some(node))
      case Err(_) =>
      case Ok(d) =>
        match ResolveAll(env, namespaces, cache, names[1..], node)
        case Err(_) =>
        case Ok(ds) =>
          match ResolvedOn(env, namespaces, cache, name, Some(node))
          case Err(_) =>
          case Ok(last) =>
            assert [d] + (ds + [last]) == ([d] + ds) + [last];
    }
  }

  /** For every cache, even one edited with `setResolved`: creating all names of a
      node yields the reference on the cache it started with, since what each
      `create` records never changes what a later one yields. */
  lemma {:induction false} CreateAllResolvesOnInitialCache(env: Env, namespaces: seq<string>, cache: map<string, string>, names: seq<string>, node: Node)
    ensures CreateAllStep(env, namespaces, cache, names, node).result == ResolveAll(env, namespaces, cache, names, node)
    ensures Extends(env, namespaces, cache, CreateAllStep(env, namespaces, cache, names, node).cache)
    decreases |names|
  {
    if names != [] {
      var init, last := names[..|names| - 1], names[|names| - 1];
      assert names == init + [last];
      CreateAllResolvesOnInitialCache(env, namespaces, cache, init, node);
      ResolveAllSnoc(env, namespaces, cache, init, last, node);
      var before := CreateAllStep(env, namespaces, cache, init, node);
      if before.result.Ok? {
        CreateKeepsExtension(env, namespaces, cache, before.cache, last, Some(node));
      }
    }
  }

  /** On a coherent cache the reference is the fresh-factory one: every name resolves
      as it would with no cache at all. */
  lemma {:induction false} ResolveAllCoherent(env: Env, namespaces: seq<string>, cache: map<string, string>, names: seq<string>, node: Node)
    requires Coherent(env, namespaces, cache)
    ensures ResolveAll(env, namespaces, cache, names, node) == ResolveAll(env, namespaces, map[], names, node)
    decreases |names|
  {
    if names != [] {
      CreateIsCacheTransparent(env, namespaces, cache, names[0], Some(node));
      ResolveAllCoherent(env, namespaces, cache, names[1..], node);
    }
  }

  /** With a coherent cache, creating all names yields exactly the cache-free
      reference, and leaves the cache coherent. */
  lemma {:induction false} CreateAllIsCacheTransparent(env: Env, namespaces: seq<string>, cache: map<string, string>, names: seq<string>, node: Node)
    requires Coherent(env, namespaces, cache)
    ensures CreateAllStep(env, namespaces, cache, names, node).result == ResolveAll(env, namespaces, map[], names, node)
    ensures Coherent(env, namespaces, CreateAllStep(env, namespaces, cache, names, node).cache)
    decreases |names|
  {
    if names != [] {
      var init, last := names[..|names| - 1], names[|names| - 1];
      assert names == init + [last];
      CreateAllIsCacheTransparent(env, namespaces, cache, init, node);
      ResolveAllSnoc(env, namespaces, map[], init, last, node);
      var before := CreateAllStep(env, namespaces, cache, init, node);
      if before.result.Ok? {
        CreateIsCacheTransparent(env, namespaces, before.cache, last, Some(node));
      }
    }
  }

  /** A successful reference holds one directive per name, each the name's own
      resolution; and it succeeds whenever every name resolves. */
  lemma {:induction false} ResolveAllSucceeds(env: Env, namespaces: seq<string>, cache: map<string, string>, names: seq<string>, node: Node)
    ensures ResolveAll(env, namespaces, cache, names, node).Ok? ==>
      && |ResolveAll(env, namespaces, cache, names, node).value| == |names|
      && forall i :: 0 <= i < |names| ==>
           ResolvedOn(env, namespaces, cache, names[i], Some(node)) == Ok(ResolveAll(env, namespaces, cache, names, node).value[i])
    ensures (forall i :: 0 <= i < |names| ==> ResolvedOn(env, namespaces, cache, names[i], Some(node)).Ok?)
        ==> ResolveAll(env, namespaces, cache, names, node).Ok?
    decreases |names|
  {
    if names != [] {
      var tail := names[1..];
      ResolveAllSucceeds(env, namespaces, cache, tail, node);
      var r := ResolveAll(env, namespaces, cache, names, node);
      var rest := ResolveAll(env, namespaces, cache, tail, node);
      var head := ResolvedOn(env, namespaces, cache, names[0], Some(node));
      if (forall i :: 0 <= i < |names| ==> ResolvedOn(env, namespaces, cache, names[i], Some(node)).Ok?) {
        forall i | 0 <= i < |tail| ensures ResolvedOn(env, namespaces, cache, tail[i], Some(node)).Ok? {
          assert tail[i] == names[i + 1];
        }
      }
      if head.Ok? && rest.Ok? {
        assert r == Ok([head.value] + rest.value);
        forall i | 0 <= i < |names|
          ensures ResolvedOn(env, namespaces, cache, names[i], Some(node)) == Ok(r.value[i])
        {
          if i > 0 { assert names[i] == tail[i - 1]; }
        }
      }
    }
  }

  /** A failing reference reports the error of the first name that does not resolve. */
  lemma {:induction false} ResolveAllFails(env: Env, namespaces: seq<string>, cache: map<string, string>, names: seq<string>, node: Node)
    ensures ResolveAll(env, namespaces, cache, names, node).Err? ==>
      exists i :: && 0 <= i < |names|
                  && ResolvedOn(env, namespaces, cache, names[i], Some(node)) == Err(ResolveAll(env, namespaces, cache, names, node).error)
                  && forall j :: 0 <= j < i ==> ResolvedOn(env, namespaces, cache, names[j], Some(node)).Ok?
    decreases |names|
  {
    if names != [] {
      var tail := names[1..];
      ResolveAllFails(env, namespaces, cache, tail, node);
      var r := ResolveAll(env, namespaces, cache, names, node);
      var rest := ResolveAll(env, namespaces, cache, tail, node);
      var head := ResolvedOn(env, namespaces, cache, names[0], Some(node));
      if head.Err? {
        assert r == Err(head.error);
      } else if rest.Err? {
        assert r == Err(rest.error);
        var i :| && 0 <= i < |tail|
                 && ResolvedOn(env, namespaces, cache, tail[i], Some(node)) == Err(rest.error)
                 && forall j :: 0 <= j < i ==> ResolvedOn(env, namespaces, cache, tail[j], Some(node)).Ok?;
        assert names[i + 1] == tail[i];
        forall j | 0 <= j < i + 1 ensures ResolvedOn(env, namespaces, cache, names[j], Some(node)).Ok? {
          if j > 0 { assert names[j] == tail[j - 1]; }
        }
      }
    }
  }

  /** The reference succeeds exactly when every name resolves, then holds one
      directive per name in declaration order; when it fails it reports the first
      name that does not resolve. */
  lemma ResolveAllOutcome(env: Env, namespaces: seq<string>, cache: map<string, string>, names: seq<string>, node: Node)
    ensures ResolveAll(env, namespaces, cache, names, node).Ok?
        <==> forall i :: 0 <= i < |names| ==> ResolvedOn(env, namespaces, cache, names[i], Some(node)).Ok?
    ensures ResolveAll(env, namespaces, cache, names, node).Ok? ==>
      && |ResolveAll(env, namespaces, cache, names, node).value| == |names|
      && forall i :: 0 <= i < |names| ==>
           ResolvedOn(env, namespaces, cache, names[i], Some(node)) == Ok(ResolveAll(env, namespaces, cache, names, node).value[i])
    ensures ResolveAll(env, namespaces, cache, names, node).Err? ==>
      exists i :: && 0 <= i < |names|
                  && ResolvedOn(env, namespaces, cache, names[i], Some(node)) == Err(ResolveAll(env, namespaces, cache, names, node).error)
                  && forall j :: 0 <= j < i ==> ResolvedOn(env, namespaces, cache, names[j], Some(node)).Ok?
  {
    ResolveAllSucceeds(env, namespaces, cache, names, node);
    ResolveAllFails(env, namespaces, cache, names, node);
  }

  /** With a coherent cache and a node whose names all resolve, the directives of one
      capability are exactly the matching ones among the resolved directives, in
      declaration order. */
  lemma AssociatedIsOrderedFilter(env: Env, namespaces: seq<string>, cache: map<string, string>, node: Node, cap: Capability, ds: seq<Directive>)
    requires ResolveAll(env, namespaces, cache, node.directives, node) == Ok(ds)
    ensures AssociatedStep(env, namespaces, cache, node, cap).result == Ok(OfCapability(env, ds, cap))
  {
    CreateAllResolvesOnInitialCache(env, namespaces, cache, node.directives, node);
  }

  /** One name on the node that does not resolve makes every capability query on the
      node fail with that name's error, whichever capability is asked for. */
  lemma OneFailureFailsEveryCapability(env: Env, namespaces: seq<string>, cache: map<string, string>, node: Node, i: nat, cap: Capability)
    requires i < |node.directives| && ResolvedOn(env, namespaces, cache, node.directives[i], Some(node)).Err?
    ensures AssociatedStep(env, namespaces, cache, node, cap).result.Err?
    ensures SingleStep(env, namespaces, cache, node, cap).result.Err?
  {
    CreateAllResolvesOnInitialCache(env, namespaces, cache, node.directives, node);
    ResolveAllOutcome(env, namespaces, cache, node.directives, node);
  }

  /** Every directive returned for a node implements the capability asked for and is
      bound to that node when it is a BaseDirective (and to none otherwise): no
      binding to another node leaks in, even through the cache. */
  lemma {:induction false} CreateAllBindsToNode(env: Env, namespaces: seq<string>, cache: map<string, string>, names: seq<string>, node: Node)
    ensures CreateAllStep(env, namespaces, cache, names, node).result.Ok? ==>
      forall d :: d in CreateAllStep(env, namespaces, cache, names, node).result.value ==>
        d.definition == if IsBaseDirective(env, d.className) then Some(node) else None
    decreases |names|
  {
    if names != [] {
      CreateAllBindsToNode(env, namespaces, cache, names[..|names| - 1], node);
    }
  }

  lemma AssociatedBoundToNode(env: Env, namespaces: seq<string>, cache: map<string, string>, node: Node, cap: Capability)
    ensures AssociatedStep(env, namespaces, cache, node, cap).result.Ok? ==>
      forall d :: d in AssociatedStep(env, namespaces, cache, node, cap).result.value ==>
        && Implements(env, d, cap)
        && d.definition == if IsBaseDirective(env, d.className) then Some(node) else None
  {
    CreateAllBindsToNode(env, namespaces, cache, node.directives, node);
  }

  /** Cardinality of a single-valued capability: with every name resolving, more than
      one match is a conflict naming the node, the capability and all matches;
      exactly one match is returned; none gives nothing. */
  lemma SingleCardinality(env: Env, namespaces: seq<string>, cache: map<string, string>, node: Node, cap: Capability, ds: seq<Directive>)
    requires ResolveAll(env, namespaces, cache, node.directives, node) == Ok(ds)
    ensures var ms := OfCapability(env, ds, cap);
      SingleStep(env, namespaces, cache, node, cap).result
        == if |ms| > 1 then Err(Conflict(node.name, cap, ms))
           else if |ms| == 1 then Ok(Some(ms[0]))
           else Ok(None)
  {
    AssociatedIsOrderedFilter(env, namespaces, cache, node, cap, ds);
  }

  /** `hasTypeResolver` and `hasFieldResolver` hold exactly when one directive of the
      capability is on the node, are false when there is none, and fail when there
      are several. */
  lemma HasSingleIffExactlyOne(env: Env, namespaces: seq<string>, cache: map<string, string>, node: Node, cap: Capability, ds: seq<Directive>)
    requires ResolveAll(env, namespaces, cache, node.directives, node) == Ok(ds)
    ensures var has := HasSingleStep(env, SingleStep(env, namespaces, cache, node, cap), cap).result;
      && (has == Ok(true) <==> |OfCapability(env, ds, cap)| == 1)
      && (has == Ok(false) <==> |OfCapability(env, ds, cap)| == 0)
      && (has.Err? <==> |OfCapability(env, ds, cap)| > 1)
  {
    var ms := OfCapability(env, ds, cap);
    SingleCardinality(env, namespaces, cache, node, cap, ds);
    if |ms| == 1 {
      assert ms[0] in ms;
    }
  }

  /** `hasFieldMiddleware` as written holds exactly when the field has at least two
      FieldMiddleware directives. */
  lemma HasFieldMiddlewareNeedsTwo(env: Env, namespaces: seq<string>, cache: map<string, string>, field: Node, ds: seq<Directive>)
    requires ResolveAll(env, namespaces, cache, field.directives, field) == Ok(ds)
    ensures HasFieldMiddlewareStep(env, namespaces, cache, field).result
         == Ok(|OfCapability(env, ds, FieldMiddleware)| >= 2)
  {
    AssociatedIsOrderedFilter(env, namespaces, cache, field, FieldMiddleware, ds);
  }

  /** The corrected probe holds exactly when the field has one or more FieldMiddleware
      directives. */
  lemma HasAnyFieldMiddlewareNeedsOne(env: Env, namespaces: seq<string>, cache: map<string, string>, field: Node, ds: seq<Directive>)
    requires ResolveAll(env, namespaces, cache, field.directives, field) == Ok(ds)
    ensures HasAnyFieldMiddlewareStep(env, namespaces, cache, field).result
         == Ok(exists d :: d in ds && Implements(env, d, FieldMiddleware))
  {
    AssociatedIsOrderedFilter(env, namespaces, cache, field, FieldMiddleware, ds);
    var ms := OfCapability(env, ds, FieldMiddleware);
    if |ms| > 0 {
      assert ms[0] in ms;
    }
  }

  /** The input that shows it: a field carrying exactly one directive, which resolves
      to a FieldMiddleware, is reported as having no field middleware. */
  lemma OneFieldMiddlewareIsNotReported(env: Env, namespaces: seq<string>, cache: map<string, string>, field: Node, d: Directive)
    requires |field.directives| == 1
    requires ResolvedOn(env, namespaces, cache, field.directives[0], Some(field)) == Ok(d)
    requires Implements(env, d, FieldMiddleware)
    ensures HasFieldMiddlewareStep(env, namespaces, cache, field).result == Ok(false)
    ensures HasAnyFieldMiddlewareStep(env, namespaces, cache, field).result == Ok(true)
  {
    assert field.directives[1..] == [];
    assert ResolveAll(env, namespaces, cache, field.directives[1..], field) == Ok([]);
    assert [d] + [] == [d];
    assert ResolveAll(env, namespaces, cache, field.directives, field) == Ok([d]);
    assert OfCapability(env, [d], FieldMiddleware) == [d] by {
      assert [d][1..] == [];
    }
    HasFieldMiddlewareNeedsTwo(env, namespaces, cache, field, [d]);
    HasAnyFieldMiddlewareNeedsOne(env, namespaces, cache, field, [d]);
  }

  /** A node without directives: every multi-valued query gives the empty sequence,
      every single-valued one gives nothing, every probe is false; no error, and the
      cache is untouched. */
  lemma EmptyNodeYieldsNothing(env: Env, namespaces: seq<string>, cache: map<string, string>, node: Node, cap: Capability)
    requires node.directives == []
    ensures AssociatedStep(env, namespaces, cache, node, cap) == Step(Ok([]), cache)
    ensures SingleStep(env, namespaces, cache, node, cap) == Step(Ok(None), cache)
    ensures HasSingleStep(env, SingleStep(env, namespaces, cache, node, cap), cap) == Step(Ok(false), cache)
    ensures HasFieldMiddlewareStep(env, namespaces, cache, node) == Step(Ok(false), cache)
  {
  }

  /** Two directives of one single-valued capability on a node: the multi-valued query
      returns both in declaration order, and the single-valued one fails with a
      conflict naming the node and listing both. */
  lemma TwoOfOneCapabilityConflict(env: Env, namespaces: seq<string>, cache: map<string, string>, node: Node, cap: Capability, first: Directive, second: Directive)
    requires |node.directives| == 2
    requires ResolvedOn(env, namespaces, cache, node.directives[0], Some(node)) == Ok(first)
    requires ResolvedOn(env, namespaces, cache, node.directives[1], Some(node)) == Ok(second)
    requires Implements(env, first, cap) && Implements(env, second, cap)
    ensures AssociatedStep(env, namespaces, cache, node, cap).result == Ok([first, second])
    ensures SingleStep(env, namespaces, cache, node, cap).result == Err(Conflict(node.name, cap, [first, second]))
  {
    var names := node.directives;
    assert names[1..] == [names[1]];
    assert names[1..][1..] == [];
    assert ResolveAll(env, namespaces, cache, names[1..][1..], node) == Ok([]);
    assert [second] + [] == [second];
    assert ResolveAll(env, namespaces, cache, names[1..], node) == Ok([second]);
    assert [first] + [second] == [first, second];
    assert ResolveAll(env, namespaces, cache, names, node) == Ok([first, second]);
    assert OfCapability(env, [first, second], cap) == [first, second] by {
      assert [first, second][1..] == [second];
      assert [second][1..] == [];
    }
    AssociatedIsOrderedFilter(env, namespaces, cache, node, cap, [first, second]);
    SingleCardinality(env, namespaces, cache, node, cap, [first, second]);
  }
}
