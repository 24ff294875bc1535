# GManager module lifecycle, modelled in Dafny

GManager is a Bukkit plugin that loads add-on jars ("modules", also called
addons). This project models the plugin's module lifecycle engine and proves
properties about it.

- **`Registry.ModuleManager`** keeps the ordered list of modules. It also
  keeps four tables:
  - the module-to-class-loader table;
  - the module-to-plugin table for "pladdons" (add-ons the server loads as
    plugins);
  - the class table shared between class loaders;
  - the listeners each module registered.

  It loads, initialises, sorts, enables, disables and post-loads modules, and
  looks them up by name or main class ignoring case.
- **`Registry.ModuleClassLoader`** validates a jar's main class and resolves
  class names in three tiers: its own cache, then the manager's shared table,
  then the jar's own contents.
- **`Manifests.AsDescription`** turns an `addon.yml` manifest into a module
  description or a validation error.
- **`Ordering`** states the dependency ordering of `sortAddons` as functions
  over lists of `(name, item, dependencies, soft dependencies)` nodes. The
  manager's methods are proved to compute those functions.
- **`Modules.Module`** holds a module's state, commands and request
  handlers. `RequestHandlers` covers the handler label, and `RequestBuilder`
  covers the fluent request builder that dispatches a request by module name.
- **`Events`** covers the lifecycle event builder (`ModuleEvent.AddonEventBuilder`),
  the base event with its forwarding slot, and the key/value map that an
  event shares with its builder by reference.

The objects the source updates in place are Dafny classes with `modifies`
frames. This covers the manager, the class loader, the module, the builders,
the events and the key/value map. Value-like entities are datatypes: the
description, the request handler, the hook outcomes and the dependency nodes.
Loops in the source are `while`/`for` loops with invariants. Each such
method is proved against a specification function, for example
`SortAddons` against `Ordering.Sort`.

The server is modelled as `Platform.Host`. It holds two lookup tables, one
for known material names and one for permission default names. It records
every command, listener and plugin call the engine makes, and the
permissions registered, so that contracts can state which calls an
operation makes. A module's hook bodies (`onLoad`, `onEnable`, `onDisable`,
`allLoaded`) are user code. Each is modelled as a fixed outcome carried by
the module: it completes, it sets its own state to DISABLED, it throws a
`LinkageError`, or it throws another exception.

## Where the code and its documented design differ

The model follows the code in each of these places.

- `disableAddons` disables the enabled modules in list order, not in reverse
  dependency order.
- A `LinkageError` thrown by `onDisable` is not caught by `disable`'s
  `catch (Exception e)`. It escapes `disableAddons` and `reloadAddons`, and the
  model returns it as `escaped`. What happened before it stays done:
  - the modules disabled earlier in the pass have left the list and the tables;
  - the throwing module's listeners were already unregistered and its
    commands registered again (`Registry.ModuleManager.Disable`).

  The modules not yet visited and the throwing module stay listed and
  ENABLED, with their loader and pladdon entries
  (`Registry.ModuleManager.DisableEach`). The shared class table has only
  lost entries, and `unregisterCommands` was not called
  (`Registry.ModuleManager.DisableAddons`).
- `disableAddons` always calls the command manager's `unregisterCommands`. A
  second call after a full teardown disables no module and announces nothing,
  but it does make that call again.
- `unloadAllCommands` registers every command of the module again and
  unregisters nothing (`Modules.Module.UnloadAllCommands`).
- `sortAddons` makes a single pass. A module whose hard dependency comes
  later in discovery order is dropped from the list
  (`Ordering.ChainLosesFirstModule`). A dropped module keeps its class
  loader and its pladdon entry.
- `isAddonCompatibleWithGManager` always returns true, so `initializeAddon`
  never marks a module INCOMPATIBLE before `onLoad` runs.
- `enableAddons` enables the loaded modules twice in a row. After the first
  pass no module is LOADED, so the second pass does nothing.
- `getClassByName` computes the default of `getOrDefault` eagerly, so the
  loaders are probed even when the shared table already holds the name. The
  probe asks one loader after another until the first one answers
  (`findFirst`), and it may record the name in the loaders it asks. The
  answer still comes from the shared table.
- When `loadPlugin` returns a pladdon whose manifest is invalid, the code
  falls back to an add-on class loader. That loader validates the same
  manifest and fails again, so the fallback can never succeed.

## Model

| member | source | states |
|---|---|---|
| Common.PutIfAbsent | src/main/java/xyz/geik/gmanager/api/managers/ModuleManager.java:459-461 | After the call the name is registered. A class already registered under it is kept; otherwise the new class is stored. Every other name keeps its class. |
| Common.FirstRegistrationWins | src/main/java/xyz/geik/gmanager/api/managers/ModuleManager.java:459-461 | Registering a fresh name twice leaves the first class under it, as if only the first registration had happened. |
| Common.RemoveFirst | src/main/java/xyz/geik/gmanager/api/managers/ModuleManager.java:204 | `List.remove(o)`: an absent element leaves the list unchanged. A present one shortens it by exactly one. No other element is lost and none is added. |
| Common.RemoveFirstCutsFirst | src/main/java/xyz/geik/gmanager/api/managers/ModuleManager.java:204 | `List.remove(o)` removes the first occurrence: when `x` first occurs at position `i`, the result is the list with exactly position `i` cut out, the rest in their order. |
| Common.RemoveFirstDistinct | src/main/java/xyz/geik/gmanager/api/managers/ModuleManager.java:204-205 | In a duplicate-free list, removing a module leaves no copy of it and keeps the list duplicate-free. |
| Text.ToLowerIdempotent | src/main/java/xyz/geik/gmanager/api/modules/requests/ModuleRequestHandler.java:11 | `toLowerCase(Locale.ENGLISH)` yields a lower-case string, and lower-casing again changes nothing. |
| Text.EqualsIgnoreCaseIffLower | src/main/java/xyz/geik/gmanager/api/managers/ModuleManager.java:374 | Two names are `equalsIgnoreCase` exactly when their lower-cased forms are equal. |
| Text.SplitOnCommas | src/main/java/xyz/geik/gmanager/api/modules/ModuleClassLoader.java:131 | Splitting on `\s*,\s*` yields pieces that contain no comma. |
| Text.SplitJoinRoundTrip | src/main/java/xyz/geik/gmanager/api/modules/ModuleClassLoader.java:129-136 | For non-empty names that have no comma and no surrounding whitespace, splitting `a, b, c` gives back exactly the list `[a, b, c]`. |
| Text.RemoveAllShrinksIffContains | src/main/java/xyz/geik/gmanager/api/modules/ModuleClassLoader.java:145-148 | `replace("-SNAPSHOT", "")` never lengthens the version. It shortens it exactly when the version contains `-SNAPSHOT`, and otherwise returns it unchanged. |
| RequestHandlers.NewHandler | src/main/java/xyz/geik/gmanager/api/modules/requests/ModuleRequestHandler.java:10-12 | The stored label is lower-case and equals the given label ignoring case. The handler function is kept. |
| RequestHandlers.CaseVariantsShareLabel | src/main/java/xyz/geik/gmanager/api/modules/requests/ModuleRequestHandler.java:11 | Two handlers report the same `getLabel()` exactly when their constructor labels are equal ignoring case. |
| RequestHandlers.LabelIsNormalised | src/main/java/xyz/geik/gmanager/api/modules/requests/ModuleRequestHandler.java:19-21 | Lower-casing `getLabel()` again returns the same label. |
| Modules.Module.constructor | src/main/java/xyz/geik/gmanager/modules/Module.java:60-62 | A new module is DISABLED and not enabled. It has no description, no commands and no request handlers. |
| Modules.Module.RegisterCommand | src/main/java/xyz/geik/gmanager/modules/Module.java:165-168 | The command is registered with the command manager once and appended to the module's command list, keeping registration order. |
| Modules.Reregistrations | src/main/java/xyz/geik/gmanager/modules/Module.java:173-176 | One `registerCommand` call per listed command, in list order. |
| Modules.Module.UnloadAllCommands | src/main/java/xyz/geik/gmanager/modules/Module.java:173-176 | The command list is unchanged. The only effect is one more registration of every listed command, in order. |
| Modules.Module.RegisterRequestHandler | src/main/java/xyz/geik/gmanager/modules/Module.java:387-389 | The handler, whose label is lower case as its constructor makes it, is stored under its label and replaces any earlier handler with that label. No other entry changes, and a request under that label is answered by this handler. |
| Modules.Module.Request | src/main/java/xyz/geik/gmanager/modules/Module.java:397-405 | The answer comes from the handler stored under the lower-cased label. It is empty (`null`) when no handler has that label. |
| Modules.RequestIgnoresCase | src/main/java/xyz/geik/gmanager/modules/Module.java:397-405 | Requests whose labels differ only in letter case get the same answer. |
| Modules.RegisteredHandlerAnswers | src/main/java/xyz/geik/gmanager/modules/Module.java:387-405 | Once a handler is registered, a request under any case variant of its label reaches that handler. |
| Modules.Module.PermissionPrefix | src/main/java/xyz/geik/gmanager/modules/Module.java:379-381 | The prefix is lower-case. It is one character longer than the module name, ends with `.`, and before the dot equals the name ignoring case. |
| Modules.PermissionPrefixIgnoresCase | src/main/java/xyz/geik/gmanager/modules/Module.java:379-381 | Modules whose names differ only in letter case share a permission prefix. |
| Modules.Module.Log | src/main/java/xyz/geik/gmanager/modules/Module.java:362-372 | The line keeps the level and ends with the message. Without a description it is the message itself. With one it starts with `[name] ` and is exactly that prefix longer than the message. |
| Events.KindOf | src/main/java/xyz/geik/gmanager/modules/events/ModuleEvent.java:51-58 | Each of ENABLE, DISABLE and LOAD selects its own event class, each as an if-and-only-if. Every other reason selects the general event. |
| Events.KeyValueMap.constructor | src/main/java/xyz/geik/gmanager/modules/events/ModuleEvent.java:29 | A fresh key/value map is empty. |
| Events.KeyValueMap.Put | src/main/java/xyz/geik/gmanager/modules/events/ModuleBaseEvent.java:38-41 | `Map.put` on the map the event hands out through `getKeyValues()`: the key now maps to the value, and every other entry is unchanged. |
| Events.ModuleBaseEvent.constructor | src/main/java/xyz/geik/gmanager/modules/events/ModuleBaseEvent.java:29-33 | The event carries the given module and the given key/value map object. It has no newer event. |
| Events.ModuleBaseEvent.SetNewEvent | src/main/java/xyz/geik/gmanager/modules/events/ModuleBaseEvent.java:26-27 | After the setter, `getNewEvent` yields the event last set. |
| Events.EventBus.CallEvent | src/main/java/xyz/geik/gmanager/modules/events/ModuleEvent.java:67 | `callEvent` publishes the event after every earlier one. |
| Events.AddonEventBuilder.constructor | src/main/java/xyz/geik/gmanager/modules/events/ModuleEvent.java:27-29 | A new builder has no module, reason UNKNOWN and a fresh, empty key/value map. |
| Events.AddonEventBuilder.WithKeyValues | src/main/java/xyz/geik/gmanager/modules/events/ModuleEvent.java:36-39 | The map is replaced by the given object, and the same builder is returned. |
| Events.AddonEventBuilder.WithAddon | src/main/java/xyz/geik/gmanager/modules/events/ModuleEvent.java:41-44 | The module is replaced, and the same builder is returned. |
| Events.AddonEventBuilder.WithReason | src/main/java/xyz/geik/gmanager/modules/events/ModuleEvent.java:46-49 | The reason is replaced, and the same builder is returned. |
| Events.AddonEventBuilder.GetEvent | src/main/java/xyz/geik/gmanager/modules/events/ModuleEvent.java:51-58 | The new event has the kind its reason selects, the builder's module and the builder's very map object. It has no newer event. |
| Events.AddonEventBuilder.Build | src/main/java/xyz/geik/gmanager/modules/events/ModuleEvent.java:64-69 | The event that is returned is the one that was published. It carries the builder's kind, module and map. |
| Events.PutThroughEvent | src/main/java/xyz/geik/gmanager/modules/events/ModuleBaseEvent.java:38-41 | A listener's write through the event's `getKeyValues()` shows up in the builder's map. The map is shared, not copied. |
| Manifests.FirstMissing | src/main/java/xyz/geik/gmanager/api/modules/ModuleClassLoader.java:106-117 | Empty exactly when `main`, `name`, `version` and `authors` are all present. Otherwise it names a required key that is absent. |
| Manifests.AsDescription | src/main/java/xyz/geik/gmanager/api/modules/ModuleClassLoader.java:104-159 | The checks run in source order. A missing required key is the error. With all keys present, an unknown icon is UnknownIcon. With a known icon, an api-version present but not matching the grammar is InvalidApiVersion. A manifest passing all three checks is accepted, with or without an api-version. On success, see the list after this table. |
| Manifests.AcceptedIffAcceptable | src/main/java/xyz/geik/gmanager/api/modules/ModuleClassLoader.java:104-159 | A manifest is accepted exactly when it has the four required keys, a known icon and, if present, a well-formed api-version. One without an api-version is accepted with no warning. |
| Manifests.MissingKeyReportedInOrder | src/main/java/xyz/geik/gmanager/api/modules/ModuleClassLoader.java:106-117 | The keys are checked in the order main, name, version, authors. The first absent one is the reported error. |
| Manifests.DependenciesFromList | src/main/java/xyz/geik/gmanager/api/modules/ModuleClassLoader.java:129-136 | A `depend` entry written `a, b, c` gives the dependencies `[a, b, c]`. No `depend` entry gives none. |
| Manifests.SnapshotWarnsOnce | src/main/java/xyz/geik/gmanager/api/modules/ModuleClassLoader.java:143-152 | A well-formed manifest whose api-version matches after `-SNAPSHOT` removal is accepted. It gives exactly one warning iff the removal changed the version. |
| Manifests.SnapshotExample | src/main/java/xyz/geik/gmanager/api/modules/ModuleClassLoader.java:143-152 | `api-version: 2.0-SNAPSHOT` with the default icon is accepted with one warning. |
| Manifests.ApiVersionAcceptsDottedNumbers | src/main/java/xyz/geik/gmanager/api/modules/ModuleClassLoader.java:145 | The api-version grammar accepts `t`, `a.t` and `a.b.t`, where `a` and `b` are digit runs and `t` is a digit run or `*`. |
| Manifests.ApiVersionShape | src/main/java/xyz/geik/gmanager/api/modules/ModuleClassLoader.java:145 | Every accepted version is made of digits and dots, except that its last character may be `*`. It does not end with a dot, has no two dots in a row, and starts with a digit unless it is `*`. |
| Permissions.Paths | src/main/java/xyz/geik/gmanager/api/managers/ModuleManager.java:249 | `getKeys(true)` holds exactly the non-empty paths the section contains, as values or as sections, at any depth. |
| Permissions.GrantFor | src/main/java/xyz/geik/gmanager/api/managers/ModuleManager.java:262-274 | A permission is registered under path `p` exactly when `p.default` holds a name `PermissionDefault.getByName` knows. Otherwise `registerPermission` throws. |
| Permissions.GrantedIff | src/main/java/xyz/geik/gmanager/api/managers/ModuleManager.java:245-274 | A section grants a permission named `p` iff `p` is non-empty, `p.default` holds a known default, and `p.description` is present. |
| Permissions.GrantsAgreeWithSection | src/main/java/xyz/geik/gmanager/api/managers/ModuleManager.java:262-274 | Every granted permission carries the default level and description the section gives it. No name is granted twice. |
| Ordering.PruneAgainstDiscoveredNames | src/main/java/xyz/geik/gmanager/api/managers/ModuleManager.java:468-482 | A module survives pruning iff it was discovered and every hard dependency names a discovered module. The names are taken before any removal, so pruning does not cascade. |
| Ordering.LeavesSurvivePruning | src/main/java/xyz/geik/gmanager/api/managers/ModuleManager.java:468-490 | Pruning never removes a module without dependencies, so the seed is the same before and after pruning. |
| Ordering.StepPlacesIffHardDepsPlaced | src/main/java/xyz/geik/gmanager/api/managers/ModuleManager.java:496-507 | At its turn a remaining module is appended iff all its hard dependencies are already placed. Its soft dependencies do not change what is placed. |
| Ordering.HardDepsPrecede | src/main/java/xyz/geik/gmanager/api/managers/ModuleManager.java:496-511 | With distinct names, every hard dependency of a sorted module is the name of a module at an earlier position in the sorted list. |
| Ordering.LeavesFirst | src/main/java/xyz/geik/gmanager/api/managers/ModuleManager.java:487-490 | With distinct names, the sorted list starts with exactly the modules that have no hard and no soft dependencies, in discovery order. |
| Ordering.SortShrinks | src/main/java/xyz/geik/gmanager/api/managers/ModuleManager.java:466-512 | The sorted list is never longer than the input and holds only input modules, with distinct names. |
| Ordering.SortKeepsItemsDistinct | src/main/java/xyz/geik/gmanager/api/managers/ModuleManager.java:509-511 | Sorting a duplicate-free module list yields a duplicate-free list. |
| Ordering.OrderedDepsPrecede | src/main/java/xyz/geik/gmanager/api/managers/ModuleManager.java:496-508 | In an insertion-ordered table where each entry's hard dependencies were placed before it, every hard dependency of the i-th module names a module at an earlier position. |
| Ordering.PassAppends | src/main/java/xyz/geik/gmanager/api/managers/ModuleManager.java:496-508 | The pass only appends to the insertion order. It keeps every placed module and places only modules from the remaining list, each after all its hard dependencies. |
| Ordering.SeedValues | src/main/java/xyz/geik/gmanager/api/managers/ModuleManager.java:487-490 | With distinct names, the seed's values in insertion order are the dependency-free modules in discovery order. |
| Ordering.RemainingFresh | src/main/java/xyz/geik/gmanager/api/managers/ModuleManager.java:492-493 | The remaining modules are those not yet placed, with distinct names. |
| Ordering.ChainLosesFirstModule | src/main/java/xyz/geik/gmanager/api/managers/ModuleManager.java:492-511 | Discovered in the order A (needs B), B (needs C), C, the sort keeps only C then B. A is dropped. |
| Ordering.ChainPass | src/main/java/xyz/geik/gmanager/api/managers/ModuleManager.java:496-508 | In that example the single pass appends B after C and never revisits A. |
| Registry.StateAfterLoad | src/main/java/xyz/geik/gmanager/api/managers/ModuleManager.java:216-226 | Each `onLoad` outcome has its own state, each as an if-and-only-if. It completes → LOADED, it disables itself → DISABLED, a linkage error → INCOMPATIBLE, another exception → ERROR. |
| Registry.StateAfterEnable | src/main/java/xyz/geik/gmanager/api/managers/ModuleManager.java:284-297 | The same for `onEnable`, with ENABLED for completion. |
| Registry.WithState | src/main/java/xyz/geik/gmanager/api/managers/ModuleManager.java:418-430 | `getLoadedAddons`/`getEnabledAddons`: an order-preserving sublist holding exactly the modules in the given state. |
| Registry.WithStateWithin | src/main/java/xyz/geik/gmanager/api/managers/ModuleManager.java:418-430 | Filtering a duplicate-free list gives a duplicate-free list of its own members, all in that state. |
| Registry.AnyInStateAgrees | src/main/java/xyz/geik/gmanager/api/managers/ModuleManager.java:118 | "Some listed module is in the state" holds exactly when the filtered list is non-empty, so the emptiness test of `getLoadedAddons` can be read either way. |
| Registry.FirstMatch | src/main/java/xyz/geik/gmanager/api/managers/ModuleManager.java:373-388 | Empty iff no module's name or main class equals the text ignoring case. Otherwise it gives the first matching position. |
| Registry.FirstMatchFrom | src/main/java/xyz/geik/gmanager/api/managers/ModuleManager.java:373-388 | The same search from a given position on: empty iff no module from there on matches, otherwise the first match at or after that position. |
| Registry.ModuleClassLoader.constructor | src/main/java/xyz/geik/gmanager/api/modules/ModuleClassLoader.java:66-68 | The loader belongs to the manager and to the jar's contents. It has been asked for no class and has no module yet. |
| Registry.ModuleClassLoader.GetClasses | src/main/java/xyz/geik/gmanager/api/modules/ModuleClassLoader.java:206-208 | Exactly the names the loader was asked for, resolved or not. |
| Registry.ModuleClassLoader.FindClass | src/main/java/xyz/geik/gmanager/api/modules/ModuleClassLoader.java:177-201 | See the list after this table. |
| Registry.ModuleClassLoader.Init | src/main/java/xyz/geik/gmanager/api/modules/ModuleClassLoader.java:59-93 | No `main` → NoMain. The main class is the parent loader's if it has one, else the shared table's, else the jar's own when no add-on loader holds the name. No class → ClassNotFound. A class in `xyz.geik.gmanager` → ReservedPackage. A class that does not extend `Module` → InvalidInherit. A module class that `getDeclaredConstructor().newInstance()` cannot build (abstract, no accessible no-argument constructor, or a throwing constructor) → NotInstantiable. An invalid description → InvalidModuleDescription with the manifest's error. Otherwise it succeeds: a fresh DISABLED module of that class's code, with the parsed description and no commands or handlers, recorded as the loader's module. |
| Registry.RegisterNodes | src/main/java/xyz/geik/gmanager/api/managers/ModuleManager.java:249-258 | The loop over `getKeys(true)` registers exactly the section's grants, one per end node that has a valid default. |
| Registry.ModuleManager.constructor | src/main/java/xyz/geik/gmanager/api/managers/ModuleManager.java:53-61 | Every list and table starts empty, and the manager's invariant holds. |
| Registry.ModuleManager.SetClass | src/main/java/xyz/geik/gmanager/api/managers/ModuleManager.java:459-461 | `putIfAbsent`: the first class registered under a name is kept. |
| Registry.ModuleManager.Fire | src/main/java/xyz/geik/gmanager/api/managers/ModuleManager.java:201 | `new ModuleEvent().builder().addon(m).reason(r).build()` publishes one new event of the reason's kind for `m`. |
| Registry.ModuleManager.InitializeAddon | src/main/java/xyz/geik/gmanager/api/managers/ModuleManager.java:195-228 | Exactly one LoadEvent for the module is published. The module is in the list exactly once, at the end, and the rest keep their order. Its state is the one its `onLoad` outcome selects. |
| Registry.ModuleManager.EnableAddon | src/main/java/xyz/geik/gmanager/api/managers/ModuleManager.java:280-298 | A module whose `onEnable` completes becomes ENABLED and is announced by one EnableEvent, unless it is DISABLED at that point (it stays DISABLED, unannounced). One that disables itself ends DISABLED. A linkage error → INCOMPATIBLE, another exception → ERROR. None of those three is announced. |
| Registry.ModuleManager.EnableEach | src/main/java/xyz/geik/gmanager/api/managers/ModuleManager.java:237 | Every listed LOADED module takes its enable state. EnableEvents go, in list order, to exactly those whose `onEnable` completes. |
| Registry.ModuleManager.SetPerms | src/main/java/xyz/geik/gmanager/api/managers/ModuleManager.java:245-260 | Returns true iff the description has a permissions section. It registers exactly that section's grants. |
| Registry.ModuleManager.SetPermsEach | src/main/java/xyz/geik/gmanager/api/managers/ModuleManager.java:241 | The registered permissions grow by exactly the union of the listed modules' grants. |
| Registry.ModuleManager.EnableAddons | src/main/java/xyz/geik/gmanager/api/managers/ModuleManager.java:233-243 | See the list after this table. |
| Registry.ModuleManager.EnableAt | src/main/java/xyz/geik/gmanager/api/managers/ModuleManager.java:237 | One LOADED module runs `onEnable` and ends in the state its hook leads to. It is announced exactly when the hook completes. No other listed module changes state. |
| Registry.ModuleManager.FirstPass | src/main/java/xyz/geik/gmanager/api/managers/ModuleManager.java:237 | Every LOADED module runs `onEnable` and ends in the state its hook leads to. Every other module keeps its state, and none stays LOADED. The modules whose hook completes are announced, in list order. |
| Registry.ModuleManager.SecondPass | src/main/java/xyz/geik/gmanager/api/managers/ModuleManager.java:239 | When no module is LOADED, the second pass publishes no event and changes no state. |
| Registry.ModuleManager.RegisterListener | src/main/java/xyz/geik/gmanager/api/managers/ModuleManager.java:519-522 | The listener is registered with the server and appended to the module's listener list. A first listener creates the list. |
| Registry.ModuleManager.UnregisterListeners | src/main/java/xyz/geik/gmanager/api/managers/ModuleManager.java:530-533 | Each of the module's listeners is unregistered in order, and the module's entry is removed. |
| Registry.ModuleManager.RemoveClasses | src/main/java/xyz/geik/gmanager/api/managers/ModuleManager.java:553-556 | Exactly the given names leave the shared class table. |
| Registry.ModuleManager.Disable | src/main/java/xyz/geik/gmanager/api/managers/ModuleManager.java:528-567 | See the list after this table. |
| Registry.ModuleManager.RunOnDisable | src/main/java/xyz/geik/gmanager/api/managers/ModuleManager.java:539-550 | Only an ENABLED module runs `onDisable`. A linkage error escapes and changes nothing. Otherwise the module is announced once, and it ends DISABLED only if its hook disabled it. |
| Registry.ModuleManager.Forget | src/main/java/xyz/geik/gmanager/api/managers/ModuleManager.java:552-566 | A module with a loader loses its classes from the shared table, loses the loader and becomes DISABLED. A pladdon is disabled by the server and loses its entry. The module leaves the list. |
| Registry.ModuleManager.ForgetLoader | src/main/java/xyz/geik/gmanager/api/managers/ModuleManager.java:552-559 | A module with a loader loses every class its loader was asked for from the shared table, becomes DISABLED and loses the loader. A module without one is untouched. The manager keeps owning its remaining loaders. |
| Registry.ModuleManager.ForgetPladdon | src/main/java/xyz/geik/gmanager/api/managers/ModuleManager.java:561-564 | A pladdon's plugin is disabled by the server, once, and its entry is dropped. Any other module causes no call. |
| Registry.ModuleManager.DisableUnlessPladdon | src/main/java/xyz/geik/gmanager/api/managers/ModuleManager.java:353 | A pladdon is skipped. Any other enabled module is disabled, announced and removed, unless its `onDisable` throws a linkage error, which escapes. |
| Registry.ModuleManager.DisableEach | src/main/java/xyz/geik/gmanager/api/managers/ModuleManager.java:353 | The result is escaped iff some listed non-pladdon's `onDisable` throws a linkage error. Otherwise every listed non-pladdon has left the list and each was announced, in order. On escape the pass stops at the first such module (`FirstEscape`): the non-pladdons before it have left the list. It and every later module are still listed and ENABLED, with their pladdon and loader entries kept. On both paths the shared class table only loses entries, and only command registrations are added to the command log. |
| Registry.ModuleManager.DisableAt | src/main/java/xyz/geik/gmanager/api/managers/ModuleManager.java:353 | One turn of that pass: either the pass stops at this module, which is the first that throws (`FirstEscape`), with the pass state unchanged; or the pass state holds for the next position (`DisablePass`). |
| Registry.FirstEscape | src/main/java/xyz/geik/gmanager/api/managers/ModuleManager.java:353 | The position where the pass stops: the module there is no pladdon and its `onDisable` throws a linkage error, and no earlier module is both. |
| Registry.ModuleManager.DisableAddons | src/main/java/xyz/geik/gmanager/api/managers/ModuleManager.java:349-364 | See the list after this table. |
| Registry.ModuleManager.ClearAll | src/main/java/xyz/geik/gmanager/api/managers/ModuleManager.java:355-363 | The command manager's `unregisterCommands` call is recorded once more, and the list and every table end empty, which keeps the manager valid. |
| Registry.ModuleManager.AllLoadedOne | src/main/java/xyz/geik/gmanager/api/managers/ModuleManager.java:583-597 | If `allLoaded` completes or the module disables itself, the list, the four tables and the host's listener, command and plugin calls are unchanged. If it throws, the module is marked INCOMPATIBLE or ERROR and then disabled without an event. It leaves the list and the loader, pladdon and listener tables. Its loader's classes leave the shared table, its listeners are unregistered, its commands are registered again, and a pladdon is disabled by the server. A module with a loader ends DISABLED. |
| Registry.ModuleManager.AllLoaded | src/main/java/xyz/geik/gmanager/api/managers/ModuleManager.java:574-576 | Only ENABLED modules are visited. A visited module stays in the list iff its `allLoaded` does not throw, and no other module leaves. Exactly the failed modules leave the loader, pladdon and listener tables, their loaders' classes leave the shared table, and the host calls are those of disabling them in list order. No event is published. |
| Registry.ModuleManager.AllLoadedEach | src/main/java/xyz/geik/gmanager/api/managers/ModuleManager.java:575 | The `forEach` over the ENABLED modules: the same effect on states, list, tables and host calls, stated over the visited list. |
| Registry.ModuleManager.AllLoadedLedger | src/main/java/xyz/geik/gmanager/api/managers/ModuleManager.java:575 | One visit extends the record of the visited prefix by that module: dropped from the tables and logged if its hook fails, nothing otherwise. |
| Registry.LedgerTablesStep | src/main/java/xyz/geik/gmanager/api/managers/ModuleManager.java:583-597 | Visiting the next module of a duplicate-free list keeps the tables equal to the start tables minus what the visited modules dropped. |
| Registry.LedgerCallsStep | src/main/java/xyz/geik/gmanager/api/managers/ModuleManager.java:583-597 | Visiting the next module keeps each host call log equal to the start log followed by the disabling calls of the visited modules that failed, in order. |
| Registry.ModuleManager.GetClassByName | src/main/java/xyz/geik/gmanager/api/managers/ModuleManager.java:443-451 | A name in the shared table is answered from it, before any loader's answer. The shared table only ever gains the name that was asked for. An empty answer means every loader recorded the name as unresolved. |
| Registry.ModuleManager.ProbeLoaders | src/main/java/xyz/geik/gmanager/api/managers/ModuleManager.java:445-446 | Asking the loaders without a global lookup changes each loader only at the asked name. If no loader answers, the shared table is unchanged. |
| Registry.ModuleManager.LoadWithClassLoader | src/main/java/xyz/geik/gmanager/api/managers/ModuleManager.java:186-190 | A new class loader builds the module, with the same lookup order and the same NoMain, ClassNotFound, InvalidInherit and NotInstantiable failures as `Init`. It succeeds when `ClassLoaderAccepts` holds: a valid manifest whose main class, outside the reserved package, extends `Module` and can be instantiated. On success a fresh, described, DISABLED module of that class's code is registered with that loader for the jar's contents. On failure the loader table is unchanged. |
| Registry.ModuleManager.LoadPladdon | src/main/java/xyz/geik/gmanager/api/managers/ModuleManager.java:160-193 | An invalid manifest loads nothing. A pladdon with a valid manifest gets its description, is enabled by the server and is recorded as a pladdon. Any other jar falls back to a class loader. It is loaded whenever `ClassLoaderAccepts` holds, so its main class extends `Module` and can be instantiated, and it then gets exactly one new loader. |
| Registry.ModuleManager.LoadAsPladdon | src/main/java/xyz/geik/gmanager/api/managers/ModuleManager.java:163-191 | A jar the server loads as a pladdon: with a valid manifest its add-on is described, enabled by the server and recorded as a pladdon, and no loader is added. With an invalid manifest nothing is loaded and nothing changes. |
| Registry.ModuleManager.AdoptPladdon | src/main/java/xyz/geik/gmanager/api/managers/ModuleManager.java:167-171 | The pladdon's add-on gets the manifest's description and starts DISABLED. The server records one enable call for the plugin, and the pladdon table maps the add-on to it. |
| Registry.ModuleManager.LoadFallback | src/main/java/xyz/geik/gmanager/api/managers/ModuleManager.java:172-191 | The class-loader fallback, tried twice when `loadPlugin` returned a non-pladdon. It succeeds when `ClassLoaderAccepts` holds (a valid manifest and an instantiable `Module` main class), and only with a valid manifest. A success registers one new loader. |
| Registry.ModuleManager.LoadAddon | src/main/java/xyz/geik/gmanager/api/managers/ModuleManager.java:126-158 | See the list after this table. |
| Registry.ModuleManager.LoadEach | src/main/java/xyz/geik/gmanager/api/managers/ModuleManager.java:114-115 | The `forEach(this::loadAddon)` loop: one outcome per jar, in listing order. The added modules are exactly the present outcomes, appended to the list. Each came from its own jar's valid manifest and carries that description. |
| Registry.ModuleManager.LoadNext | src/main/java/xyz/geik/gmanager/api/managers/ModuleManager.java:115 | One turn of that loop: the jar's outcome is recorded, and a loaded module is appended to the list and to the added modules. |
| Registry.EachLoadedFromSnoc | src/main/java/xyz/geik/gmanager/api/managers/ModuleManager.java:114-115 | Recording one more jar and what it loaded keeps every earlier jar's record. |
| Registry.ModuleManager.LoadAgain | src/main/java/xyz/geik/gmanager/api/managers/ModuleManager.java:184-190 | The retry in the `catch` block. It succeeds when `ClassLoaderAccepts` holds (a valid manifest and an instantiable `Module` main class), and only with a valid manifest. It then registers exactly one new loader for the new module over the jar's classes. A failure leaves the loaders unchanged. |
| Registry.ModuleManager.LoadAddons | src/main/java/xyz/geik/gmanager/api/managers/ModuleManager.java:107-121 | No add-on folder → no jar is tried, and the list, the tables, every loader's classes, the plugin calls and the events are all unchanged. Otherwise every jar is tried in order, with one outcome per jar. Each loaded module came from its own jar's valid manifest. If a loaded module remains, the list is then the `Ordering.Sort` of the extended list; if none does, it is the extended list itself. |
| Registry.ModuleManager.SortIfLoaded | src/main/java/xyz/geik/gmanager/api/managers/ModuleManager.java:118-120 | The list is sorted iff some module is LOADED. |
| Registry.ModuleManager.ReloadAddons | src/main/java/xyz/geik/gmanager/api/managers/ModuleManager.java:340-344 | Unless a linkage error escapes the teardown, only modules loaded by this call remain, at most one per jar, and none is left LOADED. With no add-on folder the list ends empty. |
| Registry.ModuleManager.GetAddonByName | src/main/java/xyz/geik/gmanager/api/managers/ModuleManager.java:373-376 | Empty iff no module's name equals the text ignoring case. Otherwise it is the first such module in list order. |
| Registry.ModuleManager.GetAddonByMainClassName | src/main/java/xyz/geik/gmanager/api/managers/ModuleManager.java:385-388 | The same for the main class name. |
| Registry.LookupIgnoresCase | src/main/java/xyz/geik/gmanager/api/managers/ModuleManager.java:373-376 | Names that differ only in letter case find the same module. |
| Registry.ModuleManager.SortAddons | src/main/java/xyz/geik/gmanager/api/managers/ModuleManager.java:466-512 | The new list is exactly the items of `Ordering.Sort` over the old list's nodes. It is no longer than the old list and holds only modules of it. |
| Registry.SortedListValid | src/main/java/xyz/geik/gmanager/api/managers/ModuleManager.java:509-511 | The sorted list keeps the manager's invariant: duplicate-free, described, and drawn from the old list. |
| Registry.SortedModules | src/main/java/xyz/geik/gmanager/api/managers/ModuleManager.java:466-511 | The loops of `sortAddons` compute the specification `Ordering.Sort`. |
| Registry.AllIn | src/main/java/xyz/geik/gmanager/api/managers/ModuleManager.java:474-481 | The dependency loop finds no missing name iff every dependency is among the discovered names. |
| Registry.Pruned | src/main/java/xyz/geik/gmanager/api/managers/ModuleManager.java:471-482 | The iterator loop removes exactly the modules that `Ordering.Prune` drops. |
| Registry.SeedMap | src/main/java/xyz/geik/gmanager/api/managers/ModuleManager.java:487-490 | The seeding loop builds exactly `Ordering.Seed`. |
| Registry.RemainingOf | src/main/java/xyz/geik/gmanager/api/managers/ModuleManager.java:492-493 | The filter builds exactly `Ordering.Remaining`. |
| Registry.RunPass | src/main/java/xyz/geik/gmanager/api/managers/ModuleManager.java:496-508 | The `forEach` over the remaining modules builds exactly `Ordering.Pass`. |
| RequestBuilder.ModuleRequestBuilder.constructor | src/main/java/xyz/geik/gmanager/api/modules/requests/ModuleRequestBuilder.java:21-23 | No module name and no label are set, and the metadata is empty. |
| RequestBuilder.ModuleRequestBuilder.Addon | src/main/java/xyz/geik/gmanager/api/modules/requests/ModuleRequestBuilder.java:30-33 | The module name is overwritten, and the same builder is returned. |
| RequestBuilder.ModuleRequestBuilder.Label | src/main/java/xyz/geik/gmanager/api/modules/requests/ModuleRequestBuilder.java:40-43 | The label is overwritten, and the same builder is returned. |
| RequestBuilder.ModuleRequestBuilder.AddMetaData | src/main/java/xyz/geik/gmanager/api/modules/requests/ModuleRequestBuilder.java:51-54 | One key is set, a later value replaces an earlier one, and the other entries stay. The same builder is returned. |
| RequestBuilder.ModuleRequestBuilder.Request | src/main/java/xyz/geik/gmanager/api/modules/requests/ModuleRequestBuilder.java:61-71 | It fails iff the name, or else the label, was never set. It answers empty when no module has that name ignoring case. Otherwise the answer is the first matching module's `request(label, metaData)`. |
| RequestBuilder.RequestIgnoresCase | src/main/java/xyz/geik/gmanager/api/modules/requests/ModuleRequestBuilder.java:61-71 | Builders whose name and label differ only in letter case, with the same metadata, get the same answer. |

Details for the rows that point here:

- **Manifests.AsDescription** on success:
  - the four required keys are present and copied;
  - `depend` and `softdepend` are split into lists;
  - `metrics` defaults to true and `repository` to `""`;
  - the icon is the upper-cased `icon`, default `PAPER`, and is a known material;
  - the api-version matches the grammar once `-SNAPSHOT` is removed;
  - there is exactly one warning iff the api-version contains `-SNAPSHOT`.
- **Registry.ModuleClassLoader.FindClass**:
  - a name in `xyz.geik.gmanager` gets no answer, and no cache or table changes;
  - otherwise the answer is recorded under the name, even when there is none;
  - a cached class is returned with the manager's table unchanged;
  - a lookup without a global check returns the jar's own class;
  - a lookup with a global check returns a class the manager already shares, and answers empty only if the jar lacks the name;
  - the manager's table gains at most the asked name.
- **Registry.ModuleManager.EnableAddons**:
  - the list is unchanged and only LOADED modules change state, to their enable state;
  - afterwards no module is LOADED;
  - EnableEvents go to exactly the modules whose `onEnable` completes;
  - if any module was loaded, the permissions of every ENABLED module are registered.
- **Registry.ModuleManager.Disable**:
  - the module's listeners are unregistered and its commands registered again;
  - an ENABLED module whose `onDisable` throws a linkage error escapes and changes nothing else;
  - otherwise an ENABLED module is announced;
  - its classes and loader are removed, and with a loader it becomes DISABLED;
  - a pladdon is disabled by the server;
  - the module leaves the list.
- **Registry.ModuleManager.DisableAddons**:
  - the result is escaped iff some enabled non-pladdon's `onDisable` throws a linkage error;
  - otherwise the list and all four tables are empty, `unregisterCommands` is the last command call, and DisableEvents go to the enabled non-pladdons in list order;
  - with no enabled module, only the `unregisterCommands` call happens;
  - on escape, the state `DisableEach` leaves at the first throwing module is kept (the earlier non-pladdons gone, it and the later ones listed and ENABLED with their pladdon and loader entries), the shared class table has only lost entries, and no `unregisterCommands` call was made.
- **Registry.ModuleManager.LoadAddon**:
  - a jar without a manifest loads nothing and changes nothing;
  - so does a jar whose main class matches a listed module's main class ignoring case;
  - an invalid manifest loads nothing;
  - on success a fresh described module is appended, takes its `onLoad` state, and is announced by exactly one LoadEvent;
  - a pladdon is recorded and enabled by the server;
  - a jar that is no pladdon, whose main class is not listed yet and whose manifest passes `ClassLoaderAccepts` (valid, main class outside the plugin's package, extending `Module` and instantiable) is loaded with exactly one new loader over the jar's classes.

`Modules.Module.IsEnabled` is the predicate `state == ENABLED`. The
constructor's contract and `Disable`'s contract use it.

## Left out

- Jar and file I/O are not modelled:
  - `loadAddons` lists the `addons` folder, which is a sequence of `Jar` values here;
  - the folder check and `mkdirs` are the `folderReady` parameter;
  - `addonDescription` reads `addon.yml`, which is the jar's `manifest` (`None` for a missing or unreadable file);
  - `setDataFolder`/`setFile` and the resource and config helpers of `Module` are not modelled.
- YAML is a flat map from dotted key paths to strings.
  - `getBoolean` reads the YAML boolean spellings: `true`/`True`/`TRUE`,
    `yes`/`Yes`/`YES` and `on`/`On`/`ON` as true, the matching `false`, `no`
    and `off` forms as false, and any other text as absent, which gives the default (`Manifests.GetBoolean`).
  - The `permissions` section holds the keys under `permissions.`.
- Bukkit and JVM calls are modelled as inputs, tables or recorded calls:
  - `loadPlugin` is the jar's `plugin` outcome;
  - `Material.getMaterial` and `PermissionDefault.getByName` are host tables;
  - `URLClassLoader.findClass` is the jar's `archive`;
  - the parent loader is the manager's `parentClasses`;
  - `registerEvents`, `HandlerList.unregisterAll`, `disablePlugin`, `registerCommand`, `unregisterCommands`, `registerPermission` and `callEvent` are recorded calls on `Host` or `EventBus`.
- `Class.forName` is modelled as a lookup: first the parent's classes, then `findClass(main, true)`. The parent loader's own class cache and static initialisers are not modelled.
- Whether `getDeclaredConstructor().newInstance()` builds a main class is the class's `instantiable` flag. Which of its exceptions is thrown is not modelled; each gives `NotInstantiable`.
- Which `Throwable` a failing class lookup raises is not modelled. `getClassByName`'s `catch (Exception)` is unreachable in the model.
- `registerAddon` and `setAddonFile` are not modelled. They use reflection to let a pladdon register itself. Pladdon.java is not part of this model.
- `Module.registerListener` and `Module.getAddonByName` are not modelled. They only forward to the manager through the plugin's static singleton. `Registry.ModuleManager.RegisterListener` and `Registry.ModuleManager.GetAddonByName` model the manager side.
- `getAddons` and `getLoader` are not modelled. They read the `modules` and `loaders` fields directly.
- The manager's own log messages and stack traces are not modelled. `handleAddonIncompatibility` and `handleAddonError` are modelled only by the state they set.
- `Module.logWarning` and `Module.logError` are not modelled separately. They build the same line as `log`, which is `Modules.Module.Log` with a level.
- Reflection-based event helpers (`GManagerEvent.getKeyValues`/`setKeyValues`) are not modelled. Neither is the `HandlerList` boilerplate of the `Module*Event` subclasses. An event's class is its `EventKind`.
- Hook bodies are user code. Each is one fixed outcome per module, so a hook behaves the same every time it runs.
- `Registry.ModuleManager.ProbeLoaders`: `loaders.values().stream()` iterates a `HashMap` in an unspecified order. The model probes the loaders in an arbitrary order, and its contract does not say which loader's class is the answer when several jars hold the same name.
- `Registry.ModuleManager.GetClassByName` does not state which loader answered. It states what a missing answer means, and that the shared table wins.
- `Registry.ModuleManager.ReloadAddons` states the outcome of the whole reload, not the individual event and permission effects of each step. Those are stated by `DisableAddons`, `LoadAddons` and `EnableAddons`, which it calls in order.
- Concurrency is not modelled. The engine runs on the server's main thread.
- Java `toLowerCase`/`toUpperCase` with `Locale.ENGLISH`, and `equalsIgnoreCase` (`Text.EqualsIgnoreCase`), are modelled on ASCII letters only. Other characters are left unchanged.
- Registry.ModuleManager.LoadWithClassLoader: success is not stated when another add-on's loader already holds the main class name. That loader's class may answer first, and the order in which the loaders are asked (a `HashMap`'s values) is unspecified.
- Registry.ModuleManager.LoadEach: does not restate, jar by jar, when a jar loads, because that depends on the modules the earlier jars added. `Registry.ModuleManager.LoadAddon` states it for one jar.
