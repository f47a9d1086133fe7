# Extension plugin factory: a verified model

This project models the extension plugin registry of Brayns, an interactive
ray-tracing visualisation engine. The `ExtensionPluginFactory` holds the
optional extension plugins (ZeroEQ remote control, Deflect streaming) in an
ordered vector of shared handles. The host calls `execute()` once per frame, and
it calls `run()` on every registered plugin. Plugins are compared by handle
identity (`std::find` over `shared_ptr`). In the model a handle is a reference to an
`ExtensionPlugin` object, so Dafny's reference equality is that identity.

Layout:

- `sequences.dfy`, module `Sequences`: `IndexOf` (what `std::find` returns),
  the reference definitions `RemoveFirst` (erase the first occurrence) and
  `Without` (drop every occurrence, keep the order of the rest), the predicate
  `NoDuplicates`, and the lemmas that connect them.
- `extension_plugin_factory.dfy`, module `Extensions`: the plugin and factory
  classes, `Added` (the registry after `add`), and the laws of `add`.

The class `ExtensionPluginFactory` keeps the `_plugins` vector as the field
`plugins: seq<ExtensionPlugin>`. `Remove`, `Add` and `Clear` reassign it. Each
method's `ensures` ties the new value to a specification function of the old
value. `Valid()` is the registry invariant "no plugin is registered twice". The
constructor establishes it and every mutator preserves it. `run()` is an opaque
event: `Execute` appends each plugin it runs to the ghost log `runs`.

The two `#ifdef` switches `BRAYNS_USE_ZEROEQ` and `BRAYNS_USE_DEFLECT` are the
constructor input `FeatureFlags`. Whether the Deflect plugin's constructor
succeeds depends on environment variables and application parameters, and the
boolean input `deflectAvailable` stands for that. `NewDeflectPlugin` returns a
`Construction`, which is either `Built(plugin)` or `Failed`. The factory
constructor registers the plugin only when it is `Built`. This mirrors the
`try { add(...) } catch(...) {}`, which skips Deflect and lets construction finish.

`add` could be read as removing every earlier occurrence. The code
(`ExtensionPluginFactory.cpp:75`, through `remove` at 67-70) erases only the
first one. The model follows the code, and `AddedMovesToEnd` shows the two
readings agree on every duplicate-free registry, which every reachable registry
is.

## Model

| member | source | states |
|---|---|---|
| `Sequences.IndexOf` | plugins/extensions/ExtensionPluginFactory.cpp:67-68 | the result is the position of the first element equal to the handle; it is the length (`end()`) exactly when the handle is absent |
| `Sequences.RemoveFirst` | plugins/extensions/ExtensionPluginFactory.cpp:65-71 | removal shortens the registry by one when the handle is present and keeps its length otherwise; nothing new appears |
| `Sequences.RemoveFirstAbsent` | plugins/extensions/ExtensionPluginFactory.cpp:69 | removing an absent handle leaves the sequence unchanged |
| `Sequences.RemoveFirstErase` | plugins/extensions/ExtensionPluginFactory.cpp:67-70 | erasing at the position `std::find` reports is exactly the removal of the first occurrence; the elements before and after it keep their order |
| `Sequences.RemoveFirstMultiset` | plugins/extensions/ExtensionPluginFactory.cpp:67-70 | removal takes out exactly one occurrence of the handle when there is one, and nothing else |
| `Sequences.RemoveFirstKeepsOthers` | plugins/extensions/ExtensionPluginFactory.cpp:67-70 | removal keeps every other plugin in its relative order |
| `Sequences.RemoveFirstKeepsNoDuplicates` | plugins/extensions/ExtensionPluginFactory.cpp:65-71 | removal from a duplicate-free registry keeps it duplicate-free and leaves no occurrence of the removed handle |
| `Extensions.Added` | plugins/extensions/ExtensionPluginFactory.cpp:73-77 | after `add(p)` the last element is `p`; the length grows by one when `p` was absent and is unchanged when it was present |
| `Extensions.AddedOnce` | plugins/extensions/ExtensionPluginFactory.cpp:73-77 | adding to a duplicate-free registry keeps it duplicate-free, and `p` then occurs exactly once |
| `Extensions.AddedKeepsOthers` | plugins/extensions/ExtensionPluginFactory.cpp:75-76 | whether or not `p` was present, `add(p)` keeps the other plugins in their relative order |
| `Extensions.AddedMovesToEnd` | plugins/extensions/ExtensionPluginFactory.cpp:75-76 | in a duplicate-free registry, `add(p)` gives the other plugins in their order followed by `p`; a present `p` moves to the end |
| `Extensions.AddedIdempotent` | plugins/extensions/ExtensionPluginFactory.cpp:73-77 | in a duplicate-free registry, calling `add(p)` twice in a row gives the same registry as calling it once |
| `Extensions.RemovingJustAdded` | plugins/extensions/ExtensionPluginFactory.cpp:65-77 | in a duplicate-free registry, `remove(p)` right after `add(p)` gives the same registry as `remove(p)` alone |
| `Extensions.NewDeflectPlugin` | plugins/extensions/ExtensionPluginFactory.cpp:53-54 | constructing the Deflect plugin gives a fresh Deflect handle when its environment allows it, and a failure otherwise |
| `Extensions.ExtensionPluginFactory.constructor` | plugins/extensions/ExtensionPluginFactory.cpp:34-58 | the registry holds ZeroEQ if its flag is set, followed by Deflect if its flag is set and the plugin could be built; a Deflect failure leaves it out and construction completes; the result has no duplicates and nothing has run yet |
| `Extensions.ExtensionPluginFactory.Destroy` | plugins/extensions/ExtensionPluginFactory.cpp:60-63 | the destructor leaves the registry empty, through `Clear` |
| `Extensions.ExtensionPluginFactory.Remove` | plugins/extensions/ExtensionPluginFactory.cpp:65-71 | the new registry is the old one with the first occurrence of `p` erased (the slice before and after the `std::find` position); unchanged if `p` is absent; the invariant is kept and `p` is gone |
| `Extensions.ExtensionPluginFactory.Add` | plugins/extensions/ExtensionPluginFactory.cpp:73-77 | the new registry is `Added(old, p)`; the invariant is kept and `p` occurs exactly once |
| `Extensions.ExtensionPluginFactory.Clear` | plugins/extensions/ExtensionPluginFactory.cpp:79-82 | the registry is empty afterwards, and so trivially duplicate-free |
| `Extensions.ExtensionPluginFactory.Execute` | plugins/extensions/ExtensionPluginFactory.cpp:84-88 | the run events appended are exactly the registry, in order; the registry is unchanged; under the invariant each registered plugin runs exactly once |

## Left out

- Extensions.ExtensionPluginFactory.Add, Extensions.ExtensionPluginFactory.Remove: handles are never null. In the source, `ExtensionPluginPtr` is a `shared_ptr`, so `add(nullptr)` would register an empty handle and `execute` would then dereference it. The only call sites (lines 43-45 and 53) pass non-null handles.
- Extensions.ExtensionPluginFactory.Execute: every `run()` returns normally and does not touch the registry. In the source, an exception from `run()` stops `execute` after a prefix of the plugins and reaches the caller. A `run()` that calls back into `add`, `remove` or `clear` invalidates the range-for's iterators. The method may modify only the run log, which rules out the second case, and its ensures assumes the first never happens.
- What `run()` does, and the internals of the ZeroEQ and Deflect plugins (networking, streaming). These are foreign code, so `run()` is an opaque event.
- The `BRAYNS_DEBUG` logging in the constructor (lines 40-41), which is output only.
- The `ApplicationParameters` and `ExtensionParameters` that the constructor passes to the plugins, which only the plugins read. Their effect on Deflect is summed up in the input `deflectAvailable`.
- A failure while constructing the ZeroEQ plugin. That is not caught in the source, so it would abort the whole factory construction. The model assumes it succeeds.
- `catch(...)` also swallows an exception thrown by `add` itself during Deflect registration (allocation failure in `push_back`). Memory exhaustion is not modelled.
- `shared_ptr` reference counting and plugin lifetime. Handles are references to objects, and nothing in this model deallocates them.
- Scene, Camera, the OSPRay renderer and the cylinder geometry layout are not part of this model. Their files hold declarations and backend plumbing with no behaviour of the registry.
