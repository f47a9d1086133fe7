/** The extension plugin factory: an ordered registry of optional extension
    plugins (remote control, streaming) that the host polls once per frame.
    Plugins are held by shared handle and compared by identity; here a handle
    is a reference to an `ExtensionPlugin` object, so equality is identity. */
module Extensions {
  import opened Sequences

  /** The optional plugins the factory knows how to build. */
  datatype PluginKind = ZeroEQ | Deflect

  /** The build-time switches `BRAYNS_USE_ZEROEQ` and `BRAYNS_USE_DEFLECT`,
      given to the factory as configuration. */
  datatype FeatureFlags = FeatureFlags(useZeroEQ: bool, useDeflect: bool)

  /** An extension plugin. What `run()` does is the plugin's own business and
      is not modelled: the factory records each call as an event. */
  class ExtensionPlugin {
    const kind: PluginKind

    constructor (kind: PluginKind)
      ensures this.kind == kind
    {
      this.kind := kind;
    }
  }

  /** The outcome of constructing a plugin: a fresh handle, or the failure that
      the constructor signals by throwing. */
  datatype Construction = Built(plugin: ExtensionPlugin) | Failed

  /** `std::make_shared<DeflectPlugin>(...)`. The Deflect plugin is
      configured from environment variables and application parameters; whether
      that succeeds is the input `available`. */
  method NewDeflectPlugin(available: bool) returns (r: Construction)
    ensures r.Built? <==> available
    ensures r.Built? ==> fresh(r.plugin) && r.plugin.kind == Deflect
  {
    if available {
      var plugin := new ExtensionPlugin(Deflect);
      r := Built(plugin);
    } else {
      r := Failed;
    }
  }

  /** The kinds of a sequence of plugins, in order. */
  function Kinds(s: seq<ExtensionPlugin>): (r: seq<PluginKind>)
    ensures |r| == |s| && forall i :: 0 <= i < |s| ==> r[i] == s[i].kind
  {
    if s == [] then [] else [s[0].kind] + Kinds(s[1..])
  }

  /** The registry after `add(x)`: any earlier occurrence of `x` is removed
      and `x` is appended. */
  ghost function Added<T>(s: seq<T>, x: T): (r: seq<T>)
    ensures |r| > 0 && r[|r| - 1] == x
    ensures |r| == if x in s then |s| else |s| + 1
  {
    RemoveFirst(s, x) + [x]
  }

  /** Adding to a duplicate-free registry keeps it duplicate-free, and the
      added plugin then occurs exactly once. */
  lemma AddedOnce<T>(s: seq<T>, x: T)
    requires NoDuplicates(s)
    ensures NoDuplicates(Added(s, x))
    ensures multiset(Added(s, x))[x] == 1
  {
    RemoveFirstKeepsNoDuplicates(s, x);
    NoDuplicatesSnoc(RemoveFirst(s, x), x);
    NoDuplicatesOccursOnce(Added(s, x), x);
  }

  /** Adding never reorders the other plugins, whether or not `x` was there. */
  lemma AddedKeepsOthers<T>(s: seq<T>, x: T)
    ensures Without(Added(s, x), x) == Without(s, x)
  {
    WithoutAppend(RemoveFirst(s, x), [x], x);
    assert Without([x], x) == [];
    RemoveFirstKeepsOthers(s, x);
  }

  /** In a duplicate-free registry, adding a plugin moves it to the end and
      leaves the others in their order. */
  lemma AddedMovesToEnd<T>(s: seq<T>, x: T)
    requires NoDuplicates(s)
    ensures Added(s, x) == Without(s, x) + [x]
  {
    RemoveFirstIsWithout(s, x);
  }

  /** Adding the same plugin twice in a row is the same as adding it once. */
  lemma AddedIdempotent<T>(s: seq<T>, x: T)
    requires NoDuplicates(s)
    ensures Added(Added(s, x), x) == Added(s, x)
  {
    RemovingJustAdded(s, x);
  }

  /** Removing a plugin just added gives what removing it alone gives. */
  lemma RemovingJustAdded<T>(s: seq<T>, x: T)
    requires NoDuplicates(s)
    ensures RemoveFirst(Added(s, x), x) == RemoveFirst(s, x)
  {
    var t := RemoveFirst(s, x);
    RemoveFirstKeepsNoDuplicates(s, x);
    RemoveFirstSkips(t, [x], x);
    assert RemoveFirst([x], x) == [];
    assert t + [] == t;
  }

  /** `ExtensionPluginFactory`: the plugins in `plugins` (the source's
      `_plugins` vector), in registration order. */
  class ExtensionPluginFactory {
    var plugins: seq<ExtensionPlugin>
    /** Every `run()` call made by `Execute`, oldest first. */
    ghost var runs: seq<ExtensionPlugin>

    /** The registry invariant: no plugin is registered twice. */
    ghost predicate Valid()
      reads this
    {
      NoDuplicates(plugins)
    }

    /** Registers ZeroEQ when its flag is set, then tries Deflect when its
        flag is set; a Deflect plugin that fails to construct is left out and
        construction carries on. */
    constructor (flags: FeatureFlags, deflectAvailable: bool)
      ensures Valid()
      ensures Kinds(plugins) ==
        (if flags.useZeroEQ then [ZeroEQ] else []) +
        (if flags.useDeflect && deflectAvailable then [Deflect] else [])
      ensures forall i :: 0 <= i < |plugins| ==> fresh(plugins[i])
      ensures runs == []
    {
      plugins := [];
      runs := [];
      new;
      if flags.useZeroEQ {
        var zeroEQ := new ExtensionPlugin(ZeroEQ);
        Add(zeroEQ);
      }
      ghost var registered := plugins;
      if flags.useDeflect {
        var attempt := NewDeflectPlugin(deflectAvailable);
        if attempt.Built? {
          // a fresh Deflect plugin is not the ZeroEQ plugin already registered
          assert attempt.plugin !in registered;
          RemoveFirstAbsent(registered, attempt.plugin);
          Add(attempt.plugin);
          assert plugins == registered + [attempt.plugin];
        }
      }
      assert Kinds([]) == [];
      if |plugins| == 2 {
        assert plugins[1..][1..] == [];
      }
    }

    /** The destructor `~ExtensionPluginFactory`, which clears the registry. */
    method Destroy()
      modifies this`plugins
      ensures plugins == [] && Valid()
    {
      Clear();
    }

    /** `remove(plugin)`: erases the first registered plugin equal to `p`, if
        any. */
    method Remove(p: ExtensionPlugin)
      modifies this`plugins
      ensures plugins == RemoveFirst(old(plugins), p)
      ensures p !in old(plugins) ==> plugins == old(plugins)
      ensures p in old(plugins) ==>
        var i := IndexOf(old(plugins), p);
        plugins == old(plugins)[..i] + old(plugins)[i + 1..]
      ensures old(Valid()) ==> Valid() && p !in plugins
    {
      RemoveFirstErase(plugins, p);
      if old(Valid()) {
        RemoveFirstKeepsNoDuplicates(plugins, p);
      }
      var it := IndexOf(plugins, p);
      if it != |plugins| {
        plugins := plugins[..it] + plugins[it + 1..];
      }
    }

    /** `add(plugin)`: removes any earlier registration of `p`, then appends
        it. */
    method Add(p: ExtensionPlugin)
      modifies this`plugins
      ensures plugins == Added(old(plugins), p)
      ensures old(Valid()) ==> Valid() && multiset(plugins)[p] == 1
    {
      Remove(p);
      plugins := plugins + [p];
      if old(Valid()) {
        AddedOnce(old(plugins), p);
      }
    }

    /** `clear()`: unregisters every plugin. */
    method Clear()
      modifies this`plugins
      ensures plugins == [] && Valid()
    {
      plugins := [];
    }

    /** `execute()`: calls `run()` once on every registered plugin, in
        registration order; the registry itself is left as it is. */
    method Execute()
      modifies this`runs
      ensures runs == old(runs) + plugins
      ensures plugins == old(plugins)
      ensures Valid() ==>
        forall p :: p in plugins ==> multiset(runs[|old(runs)|..])[p] == 1
    {
      for i := 0 to |plugins|
        invariant runs == old(runs) + plugins[..i]
      {
        // plugins[i]->run()
        runs := runs + [plugins[i]];
      }
      assert runs[|old(runs)|..] == plugins;
      if Valid() {
        forall p | p in plugins
          ensures multiset(runs[|old(runs)|..])[p] == 1
        {
          NoDuplicatesOccursOnce(plugins, p);
        }
      }
    }
  }
}
