/** The ordered list of base namespaces the factory searches for directive classes,
    built once by the constructor. */
module Namespaces {
  import opened Types

  /** The namespace of the directives that ship with the library; always searched last. */
  const BuiltIn: string := "Nuwave\\Lighthouse\\Schema\\Directives"

  /** A configuration or event value as PHP hands it over: null, a string, or a
      (possibly nested) list. The configured value and the list of responses of the
      RegisterDirectiveNamespaces event are both of this form. */
  datatype Entry = Null | Str(s: string) | Items(entries: seq<Entry>)

  /** `Collection::flatten` on one value: the scalars of a nested list, left to right. */
  function Flatten(e: Entry): (r: seq<Entry>)
    ensures forall x :: x in r ==> !x.Items?
    decreases e
  {
    match e
    case Items(xs) => FlattenAll(xs)
    case _ => [e]
  }

  /** `Collection::flatten` on a list of values. */
  function FlattenAll(xs: seq<Entry>): (r: seq<Entry>)
    ensures forall x :: x in r ==> !x.Items?
    decreases xs
  {
    if xs == [] then [] else Flatten(xs[0]) + FlattenAll(xs[1..])
  }

  /** Flattening distributes over concatenation: the values of a list are spliced in
      one after the other, in order. */
  lemma {:induction false} FlattenAllConcat(a: seq<Entry>, b: seq<Entry>)
    ensures FlattenAll(a + b) == FlattenAll(a) + FlattenAll(b)
    decreases |a|
  {
    if a == [] {
      assert a + b == b;
    } else {
      assert (a + b)[0] == a[0];
      assert (a + b)[1..] == a[1..] + b;
      FlattenAllConcat(a[1..], b);
    }
  }

  /** A list without nested lists is left as it is: every null and every string is
      kept, in its place and as often as it occurs. */
  lemma {:induction false} FlattenAllFlat(xs: seq<Entry>)
    requires forall x :: x in xs ==> !x.Items?
    ensures FlattenAll(xs) == xs
    decreases |xs|
  {
    if xs != [] {
      assert xs[0] in xs;
      FlattenAllFlat(xs[1..]);
    }
  }

  /** Flattening twice is flattening once. */
  lemma FlattenAllIdempotent(xs: seq<Entry>)
    ensures FlattenAll(FlattenAll(xs)) == FlattenAll(xs)
  {
    FlattenAllFlat(FlattenAll(xs));
  }

  /** `Collection::filter` without a callback on a flat list: keeps the truthy strings,
      drops null, "" and "0". */
  function KeepTruthy(xs: seq<Entry>): (r: seq<string>)
    ensures |r| <= |xs|
    ensures forall s :: s in r ==> Truthy(s)
  {
    if xs == [] then []
    else if xs[0].Str? && Truthy(xs[0].s) then [xs[0].s] + KeepTruthy(xs[1..])
    else KeepTruthy(xs[1..])
  }

  /** The constructor's pipeline: configured namespaces, then the namespaces plugins
      return from the RegisterDirectiveNamespaces event, then the built-in one;
      flattened and filtered. */
  function NamespaceList(configured: Entry, plugins: Entry): (r: seq<string>)
    ensures forall s :: s in r ==> Truthy(s)
  {
    KeepTruthy(FlattenAll([configured, plugins, Str(BuiltIn)]))
  }

  lemma {:induction false} KeepTruthyConcat(a: seq<Entry>, b: seq<Entry>)
    ensures KeepTruthy(a + b) == KeepTruthy(a) + KeepTruthy(b)
    decreases |a|
  {
    if a == [] {
      assert a + b == b;
    } else {
      assert (a + b)[0] == a[0];
      assert (a + b)[1..] == a[1..] + b;
      KeepTruthyConcat(a[1..], b);
    }
  }

  /** Filtering removes exactly the falsy entries and nothing else: every truthy string
      keeps its number of occurrences (no deduplication), and no falsy one remains. */
  lemma {:induction false} KeepTruthyCounts(xs: seq<Entry>, s: string)
    ensures multiset(KeepTruthy(xs))[s] == if Truthy(s) then multiset(xs)[Str(s)] else 0
    decreases |xs|
  {
    if xs != [] {
      KeepTruthyCounts(xs[1..], s);
      assert xs == [xs[0]] + xs[1..];
    }
  }

  /** The list is the configured namespaces, then the plugins' namespaces, then the
      built-in one, each source filtered in place. */
  lemma {:induction false} NamespaceListOrder(configured: Entry, plugins: Entry)
    ensures NamespaceList(configured, plugins)
         == KeepTruthy(Flatten(configured)) + KeepTruthy(Flatten(plugins)) + [BuiltIn]
  {
    var fc, fp := Flatten(configured), Flatten(plugins);
    var all := [configured, plugins, Str(BuiltIn)];
    assert all[1..] == [plugins, Str(BuiltIn)];
    assert all[1..][1..] == [Str(BuiltIn)];
    assert all[1..][1..][1..] == [];
    assert FlattenAll(all[1..][1..]) == [Str(BuiltIn)] + FlattenAll([]);
    assert FlattenAll(all[1..]) == fp + [Str(BuiltIn)];
    assert FlattenAll(all) == fc + (fp + [Str(BuiltIn)]);
    KeepTruthyConcat(fc, fp + [Str(BuiltIn)]);
    KeepTruthyConcat(fp, [Str(BuiltIn)]);
    assert [Str(BuiltIn)][1..] == [];
  }

  /** The built-in namespace is always present and always last, every entry is a truthy
      string, and every other truthy string of the inputs appears exactly as often as
      it was given: nothing is deduplicated. */
  lemma NamespaceListShape(configured: Entry, plugins: Entry)
    ensures |NamespaceList(configured, plugins)| >= 1
    ensures NamespaceList(configured, plugins)[|NamespaceList(configured, plugins)| - 1] == BuiltIn
    ensures forall s :: s in NamespaceList(configured, plugins) ==> Truthy(s)
    ensures forall s :: Truthy(s) && s != BuiltIn ==>
      multiset(NamespaceList(configured, plugins))[s]
        == multiset(Flatten(configured))[Str(s)] + multiset(Flatten(plugins))[Str(s)]
  {
    var fc, fp := Flatten(configured), Flatten(plugins);
    var r := NamespaceList(configured, plugins);
    NamespaceListOrder(configured, plugins);
    var kc, kp := KeepTruthy(fc), KeepTruthy(fp);
    assert r == kc + kp + [BuiltIn];
    assert multiset(r) == multiset(kc) + multiset(kp) + multiset{BuiltIn};
    forall s | s in r ensures Truthy(s) {
      KeepTruthyCounts(fc, s);
      KeepTruthyCounts(fp, s);
      assert s in multiset(r);
    }
    forall s | Truthy(s) && s != BuiltIn
      ensures multiset(r)[s] == multiset(fc)[Str(s)] + multiset(fp)[Str(s)]
    {
      KeepTruthyCounts(fc, s);
      KeepTruthyCounts(fp, s);
    }
  }

  /** "" and "0" in front of a truthy string are dropped. */
  lemma FalsyPrefixDropped(plugin: string)
    requires Truthy(plugin)
    ensures KeepTruthy([Str(""), Str("0"), Str(plugin)]) == [plugin]
  {
    assert [Str(plugin)][1..] == [];
    assert KeepTruthy([Str(plugin)]) == [plugin];
    assert [Str("0"), Str(plugin)][1..] == [Str(plugin)];
    assert KeepTruthy([Str("0"), Str(plugin)]) == [plugin];
    assert [Str(""), Str("0"), Str(plugin)][1..] == [Str("0"), Str(plugin)];
  }

  /** A nested list at the end of a flat list is spliced in after it. */
  lemma NestedTailSpliced(head: seq<Entry>, inner: seq<Entry>)
    requires forall x :: x in head + inner ==> !x.Items?
    ensures FlattenAll(head + [Items(inner)]) == head + inner
  {
    FlattenAllConcat(head, [Items(inner)]);
    FlattenAllFlat(head);
    FlattenAllFlat(inner);
    assert [Items(inner)][1..] == [];
  }

  /** The configured side of the example below: null, "" and "0" dropped at both depths. */
  lemma NestedConfiguredPart(app: string, plugin: string)
    requires Truthy(app) && Truthy(plugin)
    ensures KeepTruthy(Flatten(Items([Null, Str(app), Items([Str(""), Str("0"), Str(plugin)])]))) == [app, plugin]
  {
    var inner := [Str(""), Str("0"), Str(plugin)];
    var head := [Null, Str(app)];
    assert [Null, Str(app), Items(inner)] == head + [Items(inner)];
    NestedTailSpliced(head, inner);
    FalsyPrefixDropped(plugin);
    KeepTruthyConcat(head, inner);
    NestedPluginPart(app);
    FlattenAllFlat(head);
  }

  /** The plugin side of the example below: the null response is dropped. */
  lemma NestedPluginPart(app: string)
    requires Truthy(app)
    ensures KeepTruthy(Flatten(Items([Null, Str(app)]))) == [app]
  {
    FlattenAllFlat([Null, Str(app)]);
    assert [Null, Str(app)][1..] == [Str(app)];
    assert [Str(app)][1..] == [];
  }

  /** Falsy entries at any depth are dropped and nested lists are spliced in order. */
  lemma NestedConfigurationIsFlattened()
    ensures NamespaceList(Items([Null, Str("App\\Directives"), Items([Str(""), Str("0"), Str("Plugin\\A")])]),
                          Items([Null, Str("App\\Directives")]))
         == ["App\\Directives", "Plugin\\A", "App\\Directives", BuiltIn]
  {
    NamespaceListOrder(Items([Null, Str("App\\Directives"), Items([Str(""), Str("0"), Str("Plugin\\A")])]),
                       Items([Null, Str("App\\Directives")]));
    NestedConfiguredPart("App\\Directives", "Plugin\\A");
    NestedPluginPart("App\\Directives");
  }
}
