/** Resolving a directive name to a directive instance: the name-to-class cache and the
    namespace search, as functions of the factory's state. The factory's methods are
    proved against these. */
module Resolution {
  import opened Types

  /** The class probed for `name` in namespace `ns`: `<ns>\<Studly(name)>Directive`. */
  function Candidate(env: Env, ns: string, name: string): string
  {
    ns + "\\" + env.studly(name) + "Directive"
  }

  /** `class_exists` of the candidate in namespace `ns`. */
  predicate ExistsIn(env: Env, ns: string, name: string)
  {
    Candidate(env, ns, name) in env.classes
  }

  /** `$directive instanceof Directive` for an instance of `className`. */
  predicate IsDirectiveClass(env: Env, className: string)
  {
    className in env.classes && env.classes[className].isDirective
  }

  /** The namespace loop from position `i` on: the candidate of the first namespace,
      at or after `i`, whose class exists. */
  function SearchFrom(env: Env, namespaces: seq<string>, name: string, i: nat): Option<string>
    requires i <= |namespaces|
    decreases |namespaces| - i
  {
    if i == |namespaces| then None
    else if ExistsIn(env, namespaces[i], name) then Some(Candidate(env, namespaces[i], name))
    else SearchFrom(env, namespaces, name, i + 1)
  }

  function Search(env: Env, namespaces: seq<string>, name: string): Option<string>
  {
    SearchFrom(env, namespaces, name, 0)
  }

  /** Namespace `k` is the first, in list order, whose candidate class exists. */
  ghost predicate FirstExistingAt(env: Env, namespaces: seq<string>, name: string, k: int)
  {
    && 0 <= k < |namespaces|
    && ExistsIn(env, namespaces[k], name)
    && forall j :: 0 <= j < k ==> !ExistsIn(env, namespaces[j], name)
  }

  lemma {:induction false} SearchFromReachesFirst(env: Env, namespaces: seq<string>, name: string, i: nat, k: nat)
    requires i <= k
    requires FirstExistingAt(env, namespaces, name, k)
    ensures SearchFrom(env, namespaces, name, i) == Some(Candidate(env, namespaces[k], name))
    decreases k - i
  {
    if i < k {
      SearchFromReachesFirst(env, namespaces, name, i + 1, k);
    }
  }

  lemma {:induction false} SearchFromMisses(env: Env, namespaces: seq<string>, name: string, i: nat)
    requires i <= |namespaces|
    ensures SearchFrom(env, namespaces, name, i) == None
        <==> forall j :: i <= j < |namespaces| ==> !ExistsIn(env, namespaces[j], name)
    decreases |namespaces| - i
  {
    if i < |namespaces| {
      SearchFromMisses(env, namespaces, name, i + 1);
    }
  }

  lemma {:induction false} SearchFromHasFirst(env: Env, namespaces: seq<string>, name: string, i: nat)
    requires i <= |namespaces|
    requires forall j :: 0 <= j < i ==> !ExistsIn(env, namespaces[j], name)
    ensures SearchFrom(env, namespaces, name, i).Some? ==> exists k :: FirstExistingAt(env, namespaces, name, k)
    decreases |namespaces| - i
  {
    if i < |namespaces| {
      if ExistsIn(env, namespaces[i], name) {
        assert FirstExistingAt(env, namespaces, name, i);
      } else {
        SearchFromHasFirst(env, namespaces, name, i + 1);
      }
    }
  }

  /** Precedence: the search yields the candidate of the first namespace, in list
      order, whose candidate class exists, and yields nothing exactly when no
      namespace has one. */
  lemma SearchFindsFirst(env: Env, namespaces: seq<string>, name: string)
    ensures forall k :: FirstExistingAt(env, namespaces, name, k) ==>
      Search(env, namespaces, name) == Some(Candidate(env, namespaces[k], name))
    ensures Search(env, namespaces, name) == None
        <==> forall j :: 0 <= j < |namespaces| ==> !ExistsIn(env, namespaces[j], name)
    ensures Search(env, namespaces, name).Some? <==> exists k :: FirstExistingAt(env, namespaces, name, k)
  {
    forall k | FirstExistingAt(env, namespaces, name, k)
      ensures Search(env, namespaces, name) == Some(Candidate(env, namespaces[k], name))
    {
      SearchFromReachesFirst(env, namespaces, name, 0, k);
    }
    SearchFromMisses(env, namespaces, name, 0);
    SearchFromHasFirst(env, namespaces, name, 0);
  }

  /** Namespaces after the first one that has a candidate are never consulted:
      replacing them by anything leaves the search result unchanged. */
  lemma LaterNamespacesNeverProbed(env: Env, namespaces: seq<string>, rest: seq<string>, name: string, k: nat)
    requires FirstExistingAt(env, namespaces, name, k)
    ensures Search(env, namespaces[..k + 1] + rest, name) == Search(env, namespaces, name)
  {
    var other := namespaces[..k + 1] + rest;
    assert FirstExistingAt(env, other, name, k);
    SearchFindsFirst(env, namespaces, name);
    SearchFindsFirst(env, other, name);
  }

  /** `Arr::get($resolvedClassnames, $name)` followed by PHP's truthiness test: a class
      name is used only when it is a non-empty string other than "0". */
  function Lookup(cache: map<string, string>, name: string): (r: Option<string>)
    ensures r.Some? ==> name in cache && r.value == cache[name] && Truthy(r.value)
    ensures r.None? <==> name !in cache || !Truthy(cache[name])
  {
    if name in cache && Truthy(cache[name]) then Some(cache[name]) else None
  }

  /** `addResolved` as written: the guard asks whether the directive NAME occurs among
      the cached CLASS NAMES (`in_array` on the values), not whether it is a key. */
  function AddResolved(cache: map<string, string>, name: string, className: string): (r: map<string, string>)
    ensures r.Keys <= cache.Keys + {name}
    ensures forall n :: n in cache && n != name ==> n in r && r[n] == cache[n]
    ensures name in r && r[name] != className ==> r == cache
  {
    if name in cache.Values then cache else cache[name := className]
  }

  /** `addResolved` as its comment intends: a name that is already cached keeps its
      first class. */
  function AddResolvedKeepingFirst(cache: map<string, string>, name: string, className: string): (r: map<string, string>)
    ensures r.Keys == cache.Keys + {name}
    ensures forall n :: n in cache ==> r[n] == cache[n]
    ensures name !in cache ==> r[name] == className
  {
    if name in cache then cache else cache[name := className]
  }

  /** Only the entry for `name` can change; when the guard lets the update through
      that entry becomes `className`, whatever it was before. */
  lemma AddResolvedTouchesOnlyName(cache: map<string, string>, name: string, className: string)
    ensures forall n :: n != name ==> (n in AddResolved(cache, name, className) <==> n in cache)
    ensures forall n :: n != name && n in cache ==> AddResolved(cache, name, className)[n] == cache[n]
    ensures AddResolved(cache, name, className) == cache
        || (name !in cache.Values && AddResolved(cache, name, className)[name] == className)
  {
  }

  /** The code as written does not keep the first resolved class: when the name is not
      among the cached class names (the usual case), a second `addResolved` for the
      same name overwrites the first. */
  lemma {:induction false} AddResolvedOverwritesFirst(cache: map<string, string>, name: string, first: string, second: string)
    requires name !in cache.Values && name != first
    ensures AddResolved(AddResolved(cache, name, first), name, second)[name] == second
  {
    var once := cache[name := first];
    assert once.Values <= cache.Values + {first} by {
      forall v | v in once.Values ensures v in cache.Values + {first} {
        var n :| n in once && once[n] == v;
        if n != name {
          assert n in cache && cache[n] == v;
        }
      }
    }
  }

  /** The concrete input: on an empty cache, "eq" resolved first to the application's
      class and then to the built-in class ends up mapped to the built-in class. */
  lemma AddResolvedOverwritesOnEmptyCache()
    ensures AddResolved(AddResolved(map[], "eq", "App\\Directives\\EqDirective"), "eq",
                        "Nuwave\\Lighthouse\\Schema\\Directives\\EqDirective")
         == map["eq" := "Nuwave\\Lighthouse\\Schema\\Directives\\EqDirective"]
  {
    AddResolvedOverwritesFirst(map[], "eq", "App\\Directives\\EqDirective",
                               "Nuwave\\Lighthouse\\Schema\\Directives\\EqDirective");
  }

  /** First writer wins in the corrected operation, and nothing but `name` changes. */
  lemma AddResolvedKeepingFirstWins(cache: map<string, string>, name: string, first: string, second: string)
    ensures var twice := AddResolvedKeepingFirst(AddResolvedKeepingFirst(cache, name, first), name, second);
      && name in twice
      && twice[name] == (if name in cache then cache[name] else first)
      && twice.Keys == cache.Keys + {name}
      && forall n :: n in cache && n != name ==> twice[n] == cache[n]
  {
  }

  /** The factory's observable state after a step: the outcome and the new cache. */
  datatype Step<T> = Step(result: Result<T>, cache: map<string, string>)

  /** `createOrFail`: the namespace search, the Directive check, and recording the hit. */
  function CreateOrFailStep(env: Env, namespaces: seq<string>, cache: map<string, string>, name: string): (r: Step<Directive>)
    ensures r.result.Err? ==> r.cache == cache
    ensures r.result.Ok? ==>
      && r.result.value.definition == None
      && IsDirectiveClass(env, r.result.value.className)
      && Search(env, namespaces, name) == Some(r.result.value.className)
      && r.cache == AddResolved(cache, name, r.result.value.className)
  {
    match Search(env, namespaces, name)
    case None => Step(Err(NotFound(name)), cache)
    case Some(c) =>
      if IsDirectiveClass(env, c) then Step(Ok(Directive(c, None)), AddResolved(cache, name, c))
      else Step(Err(NotADirective(c)), cache)
  }

  /** `create`: the cache first, then the search; hydrated only when a node is given. */
  function CreateStep(env: Env, namespaces: seq<string>, cache: map<string, string>, name: string, node: Option<Node>): (r: Step<Directive>)
    ensures r.cache.Keys <= cache.Keys + {name}
    ensures r.result.Err? || Lookup(cache, name).Some? ==> r.cache == cache
    ensures r.result.Ok? && node.None? ==> r.result.value.definition == None
    ensures r.result.Ok? && node.Some? && IsBaseDirective(env, r.result.value.className)
        ==> r.result.value.definition == node
  {
    var s := match Lookup(cache, name)
             case Some(c) => Step(Ok(Directive(c, None)), cache)
             case None => CreateOrFailStep(env, namespaces, cache, name);
    if s.result.Ok? && node.Some? then Step(Ok(Hydrate(env, s.result.value, node.value)), s.cache) else s
  }

  /** What `create` yields for `name` on a factory whose cache is `cache`. */
  function ResolvedOn(env: Env, namespaces: seq<string>, cache: map<string, string>, name: string, node: Option<Node>): Result<Directive>
  {
    CreateStep(env, namespaces, cache, name, node).result
  }

  /** What `create` yields on a fresh (or cleared) factory: the search result alone. */
  function Resolved(env: Env, namespaces: seq<string>, name: string, node: Option<Node>): Result<Directive>
  {
    ResolvedOn(env, namespaces, map[], name, node)
  }

  /** On a cache miss: the first namespace with a candidate decides. An existing
      candidate that is not a Directive fails without looking further; no candidate
      at all fails naming the directive; a failure leaves the cache as it was. */
  lemma CreateOrFailOutcome(env: Env, namespaces: seq<string>, cache: map<string, string>, name: string)
    ensures forall k :: FirstExistingAt(env, namespaces, name, k) ==>
      CreateOrFailStep(env, namespaces, cache, name)
        == if IsDirectiveClass(env, Candidate(env, namespaces[k], name))
           then Step(Ok(Directive(Candidate(env, namespaces[k], name), None)),
                     AddResolved(cache, name, Candidate(env, namespaces[k], name)))
           else Step(Err(NotADirective(Candidate(env, namespaces[k], name))), cache)
    ensures (forall j :: 0 <= j < |namespaces| ==> !ExistsIn(env, namespaces[j], name))
        ==> CreateOrFailStep(env, namespaces, cache, name) == Step(Err(NotFound(name)), cache)
    ensures CreateOrFailStep(env, namespaces, cache, name).result.Err?
        ==> CreateOrFailStep(env, namespaces, cache, name).cache == cache
  {
    SearchFindsFirst(env, namespaces, name);
  }

  /** A cache hit skips the search: the cached class is instantiated, hydrated only
      when a node is given, and the cache is left alone. */
  lemma CacheHitSkipsSearch(env: Env, namespaces: seq<string>, cache: map<string, string>, name: string, node: Option<Node>)
    requires name in cache && Truthy(cache[name])
    ensures CreateStep(env, namespaces, cache, name, node)
         == Step(Ok(match node
                    case Some(n) => Hydrate(env, Directive(cache[name], None), n)
                    case None => Directive(cache[name], None)), cache)
  {
  }

  /** The application's namespace shadows everything after it: when its candidate
      exists and the name is not cached, that class is what `create` yields. */
  lemma FirstNamespaceShadowsLater(env: Env, app: string, rest: seq<string>, cache: map<string, string>, name: string)
    requires ExistsIn(env, app, name) && IsDirectiveClass(env, Candidate(env, app, name))
    requires Lookup(cache, name) == None
    ensures CreateStep(env, [app] + rest, cache, name, None)
         == Step(Ok(Directive(Candidate(env, app, name), None)), AddResolved(cache, name, Candidate(env, app, name)))
  {
    assert FirstExistingAt(env, [app] + rest, name, 0);
    CreateOrFailOutcome(env, [app] + rest, cache, name);
  }

  /** The cache agrees with the search: every usable cached class is the one the
      search would find, and it is a Directive. A new or cleared factory has such a
      cache, and `create` keeps it so (`setResolved` can break it). */
  ghost predicate Coherent(env: Env, namespaces: seq<string>, cache: map<string, string>)
  {
    forall n :: n in cache && Truthy(cache[n]) ==>
      Search(env, namespaces, n) == Some(cache[n]) && IsDirectiveClass(env, cache[n])
  }

  /** With a coherent cache, `create` yields what a fresh factory would, and the
      cache stays coherent: caching never changes which directive a name denotes. */
  lemma {:induction false} CreateIsCacheTransparent(env: Env, namespaces: seq<string>, cache: map<string, string>, name: string, node: Option<Node>)
    requires Coherent(env, namespaces, cache)
    ensures CreateStep(env, namespaces, cache, name, node).result == Resolved(env, namespaces, name, node)
    ensures Coherent(env, namespaces, CreateStep(env, namespaces, cache, name, node).cache)
  {
    var s := CreateStep(env, namespaces, cache, name, node);
    match Lookup(cache, name)
    case Some(c) =>
      assert Search(env, namespaces, name) == Some(c) && IsDirectiveClass(env, c);
    case None =>
      match Search(env, namespaces, name)
      case None =>
      case Some(c) =>
        if IsDirectiveClass(env, c) {
          var updated := AddResolved(cache, name, c);
          forall n | n in updated && Truthy(updated[n])
            ensures Search(env, namespaces, n) == Some(updated[n]) && IsDirectiveClass(env, updated[n])
          {
            if n != name || updated == cache {
              assert updated[n] == cache[n];
            }
          }
        }
  }

  /** `cache` differs from `base` only by entries `create` records itself: a name whose
      usable class differs from the one in `base` had none there, and now maps to the
      Directive class the search finds for it. Any cache, including one edited with
      `setResolved`, is such an extension of itself. */
  ghost predicate Extends(env: Env, namespaces: seq<string>, base: map<string, string>, cache: map<string, string>)
  {
    forall n :: Lookup(cache, n) == Lookup(base, n)
      || (&& Lookup(base, n).None?
          && Lookup(cache, n).Some?
          && Search(env, namespaces, n) == Lookup(cache, n)
          && IsDirectiveClass(env, Lookup(cache, n).value))
  }

  /** Whatever the cache holds, what `create` records never changes what a later
      `create` yields: on an extension of `base`, `create` gives the result it gives on
      `base`, and leaves an extension of `base`. */
  lemma {:induction false} CreateKeepsExtension(env: Env, namespaces: seq<string>, base: map<string, string>, cache: map<string, string>, name: string, node: Option<Node>)
    requires Extends(env, namespaces, base, cache)
    ensures ResolvedOn(env, namespaces, cache, name, node) == ResolvedOn(env, namespaces, base, name, node)
    ensures Extends(env, namespaces, base, CreateStep(env, namespaces, cache, name, node).cache)
  {
    var after := CreateStep(env, namespaces, cache, name, node).cache;
    if Lookup(cache, name) == Lookup(base, name) {
      if Lookup(cache, name).None? {
        forall n ensures Lookup(after, n) == Lookup(base, n)
          || (&& Lookup(base, n).None?
              && Lookup(after, n).Some?
              && Search(env, namespaces, n) == Lookup(after, n)
              && IsDirectiveClass(env, Lookup(after, n).value))
        {
          if n != name {
            assert n in after <==> n in cache;
            if n in cache { assert after[n] == cache[n]; }
            assert Lookup(after, n) == Lookup(cache, n);
          }
        }
      }
    } else {
      assert Lookup(base, name).None?;
      var c := Lookup(cache, name).value;
      assert Search(env, namespaces, name) == Some(c) && IsDirectiveClass(env, c);
    }
  }
}
