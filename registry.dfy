/**
 * `ModuleManager` and `ModuleClassLoader`: the registry of loaded modules,
 * the class tables shared between add-on class loaders, and the load,
 * enable, disable and post-load steps of the module lifecycle.
 *
 * The two classes refer to each other (every loader asks its manager for
 * classes other add-ons published), so they live in one module.
 */
module Registry {
  import opened Common
  import opened Text
  import opened Platform
  import opened Manifests
  import opened Permissions
  import opened Modules
  import opened Events
  import opened Ordering

  // ------------------------------------------------------------ inputs and outcomes

  /** Why building a `ModuleClassLoader` for a jar throws. */
  datatype LoadError =
    | NoMain                        // addon.yml names no main class
    | ClassNotFound(main: string)   // `Class.forName` finds no such class
    | ReservedPackage(main: string) // the main class is in the plugin's own package
    | InvalidInherit(main: string)  // the main class does not extend `Module`
    | NotInstantiable(main: string) // `getDeclaredConstructor().newInstance()` throws
    | InvalidModuleDescription(error: DescriptionError)

  /** What `Bukkit.getPluginManager().loadPlugin(jar)` makes of an add-on jar. */
  datatype PluginLoad =
    | IsPladdon(plugin: Plugin, code: ModuleCode) // a `Pladdon`, whose `getAddon()` runs `code`
    | NotPladdon                                  // a plugin that is not a `Pladdon`, or `null`
    | LoadFails                                   // `loadPlugin` throws

  /** An add-on jar: its `addon.yml` (`None` when it has none or it does not
      parse), what the server's plugin loader makes of it, and the classes it
      holds by binary name. */
  datatype Jar = Jar(manifest: Option<Manifest>, plugin: PluginLoad, archive: map<string, JavaClass>)

  /** The state `initializeAddon` leaves a module in, by the way `onLoad` ends. */
  function StateAfterLoad(outcome: HookOutcome): (s: State)
    ensures s == LOADED <==> outcome == Completes
    ensures s == DISABLED <==> outcome == DisablesItself
    ensures s == INCOMPATIBLE <==> outcome == LinkageError
    ensures s == ERROR <==> outcome == Exception
  {
    match outcome
    case Completes => LOADED
    case DisablesItself => DISABLED
    case LinkageError => INCOMPATIBLE
    case Exception => ERROR
  }

  /** The state `enableAddon` leaves a module in that was not DISABLED before. */
  function StateAfterEnable(outcome: HookOutcome): (s: State)
    ensures s == ENABLED <==> outcome == Completes
    ensures s == DISABLED <==> outcome == DisablesItself
    ensures s == INCOMPATIBLE <==> outcome == LinkageError
    ensures s == ERROR <==> outcome == Exception
  {
    match outcome
    case Completes => ENABLED
    case DisablesItself => DISABLED
    case LinkageError => INCOMPATIBLE
    case Exception => ERROR
  }

  /** A hook that ended with a `LinkageError` or an `Exception`. */
  predicate Failed(outcome: HookOutcome) {
    outcome == LinkageError || outcome == Exception
  }

  /** The events announce `kind` for the modules, one each, in order. */
  predicate Announces(events: seq<ModuleBaseEvent>, kind: EventKind, ms: seq<Module>) {
    |events| == |ms| && forall i :: 0 <= i < |ms| ==> events[i].kind == kind && events[i].addon == Some(ms[i])
  }

  function Unregistrations(ls: seq<Listener>): (calls: seq<ListenerCall>)
    ensures |calls| == |ls|
    ensures forall i :: 0 <= i < |ls| ==> calls[i] == ListenerUnregistered(ls[i])
  {
    seq(|ls|, i requires 0 <= i < |ls| => ListenerUnregistered(ls[i]))
  }

  /** An `onEnable` that ends normally. */
  /** The modules, in list order, whose `onEnable` ends normally. */
  function Completing(ms: seq<Module>): seq<Module> {
    if ms == [] then []
    else
      var last := ms[|ms| - 1];
      Completing(ms[..|ms| - 1]) + if last.code.onEnable == Completes then [last] else []
  }

  /** Events published after an announcing log extend what it announces. */
  lemma AnnouncesExtend(before: seq<ModuleBaseEvent>, after: seq<ModuleBaseEvent>, mark: nat, kind: EventKind, ms: seq<Module>, ns: seq<Module>)
    requires mark <= |before| <= |after| && after[..|before|] == before
    requires Announces(before[mark..], kind, ms) && Announces(after[|before|..], kind, ns)
    ensures after[..mark] == before[..mark]
    ensures Announces(after[mark..], kind, ms + ns)
  {
    assert after[mark..] == before[mark..] + after[|before|..];
    forall i | 0 <= i < |ms + ns| ensures after[mark..][i].kind == kind && after[mark..][i].addon == Some((ms + ns)[i]) {
      if i < |ms| {
        assert after[mark..][i] == before[mark..][i];
      } else {
        assert after[mark..][i] == after[|before|..][i - |ms|];
      }
    }
  }

  /** Announcing the enabled modules of one more list element keeps the log
      announcing exactly the enabled modules of the longer prefix. */
  lemma AnnouncesEnabledStep(before: seq<ModuleBaseEvent>, after: seq<ModuleBaseEvent>, mark: nat, ms: seq<Module>, i: nat)
    requires i < |ms|
    requires mark <= |before| <= |after| && after[..|before|] == before
    requires Announces(before[mark..], EnableEvent, Completing(ms[..i]))
    requires Announces(after[|before|..], EnableEvent, if ms[i].code.onEnable == Completes then [ms[i]] else [])
    ensures after[..mark] == before[..mark]
    ensures Announces(after[mark..], EnableEvent, Completing(ms[..i + 1]))
  {
    AnnouncesExtend(before, after, mark, EnableEvent, Completing(ms[..i]), if ms[i].code.onEnable == Completes then [ms[i]] else []);
    assert ms[..i + 1][..i] == ms[..i];
  }

  /** `filter(addon -> !pladdons.containsKey(addon))` */
  function Unpladdoned(ms: seq<Module>, pladdons: map<Module, Plugin>): seq<Module> {
    if ms == [] then []
    else
      var last := ms[|ms| - 1];
      Unpladdoned(ms[..|ms| - 1], pladdons) + if last !in pladdons then [last] else []
  }

  /** Where the pass of `disableAddons` over `ms` stops: the position of the
      first module that is no pladdon and whose `onDisable` throws a
      `LinkageError`, or `|ms|` when there is none. */
  function FirstEscape(ms: seq<Module>, pladdons: map<Module, Plugin>): (k: nat)
    ensures k <= |ms|
    ensures k < |ms| ==> ms[k] !in pladdons && ms[k].code.onDisable == LinkageError
    ensures forall j :: 0 <= j < k ==> ms[j] in pladdons || ms[j].code.onDisable != LinkageError
  {
    if ms == [] then 0
    else if ms[0] !in pladdons && ms[0].code.onDisable == LinkageError then 0
    else
      var k := 1 + FirstEscape(ms[1..], pladdons);
      assert forall j :: 1 <= j < k ==> ms[j] == ms[1..][j - 1];
      k
  }

  /** `after` is `before` followed by command registrations only, so no
      `unregisterCommands` call was made in between. */
  predicate RegistersOnly(before: seq<CommandCall>, after: seq<CommandCall>) {
    && |before| <= |after| && after[..|before|] == before
    && forall i :: |before| <= i < |after| ==> after[i].CommandRegistered?
  }

  /** Appending registrations keeps the log free of unregistrations. */
  lemma RegistersOnlyAppend(a: seq<CommandCall>, b: seq<CommandCall>, t: seq<CommandCall>)
    requires RegistersOnly(a, b)
    requires forall i :: 0 <= i < |t| ==> t[i].CommandRegistered?
    ensures RegistersOnly(a, b + t)
  {
    assert (b + t)[..|a|] == b[..|a|];
  }

  /** Announcing one more list element, unless it is a pladdon, keeps the log
      announcing exactly the non-pladdons of the longer prefix. */
  lemma AnnouncesUnpladdonedStep(before: seq<ModuleBaseEvent>, after: seq<ModuleBaseEvent>, mark: nat, ms: seq<Module>, i: nat, pladdons: map<Module, Plugin>)
    requires i < |ms|
    requires mark <= |before| <= |after| && after[..|before|] == before
    requires Announces(before[mark..], DisableEvent, Unpladdoned(ms[..i], pladdons))
    requires Announces(after[|before|..], DisableEvent, if ms[i] !in pladdons then [ms[i]] else [])
    ensures after[..mark] == before[..mark]
    ensures Announces(after[mark..], DisableEvent, Unpladdoned(ms[..i + 1], pladdons))
  {
    AnnouncesExtend(before, after, mark, DisableEvent, Unpladdoned(ms[..i], pladdons), if ms[i] !in pladdons then [ms[i]] else []);
    assert ms[..i + 1][..i] == ms[..i];
  }

  /** The state `allLoaded(module)` leaves a module in, given its state
      before and whether it had a class loader. */
  function AfterAllLoaded(m: Module, before: State, hadLoader: bool): State {
    match m.code.allLoaded
    case Completes => before
    case DisablesItself => DISABLED
    case LinkageError => if hadLoader then DISABLED else INCOMPATIBLE
    case Exception => if hadLoader then DISABLED else ERROR
  }

  /** The manager's tables and the server's call logs at some moment, with
      each loader's class names. */
  datatype Tables = Tables(
    loaders: map<Module, ModuleClassLoader>, names: map<Module, set<string>>,
    pladdons: map<Module, Plugin>, listeners: map<Module, seq<Listener>>, classes: map<string, JavaClass>,
    listenerCalls: seq<ListenerCall>, commandCalls: seq<CommandCall>, pluginCalls: seq<PluginCall>)

  /** `now` is `t` once the failing modules of `done` have been disabled, in order. */
  ghost predicate Ledger(t: Tables, done: seq<Module>, now: Tables)
    reads (set m | m in done)`commandList
  {
    now.names == t.names && LedgerTables(t, done, now) && LedgerCalls(t, done, now)
  }

  /** The tables part of `Ledger`: the failing modules' entries are gone. */
  ghost predicate LedgerTables(t: Tables, done: seq<Module>, now: Tables) {
    && now.loaders == t.loaders - Dropped(done) && now.pladdons == t.pladdons - Dropped(done)
    && now.listeners == t.listeners - Dropped(done)
    && now.classes == t.classes - DroppedClassNames(done, t.names)
  }

  /** The call-log part of `Ledger`: the failing modules' calls are appended. */
  ghost predicate LedgerCalls(t: Tables, done: seq<Module>, now: Tables)
    reads (set m | m in done)`commandList
  {
    && now.listenerCalls == t.listenerCalls + DroppedListenerCalls(done, t.listeners)
    && now.commandCalls == t.commandCalls + DroppedCommandCalls(done)
    && now.pluginCalls == t.pluginCalls + DroppedPluginCalls(done, t.pladdons)
  }

  /** What `allLoaded(m)` does to the tables: nothing, unless the hook
      throws and `m` is disabled. */
  ghost predicate StepTables(before: Tables, after: Tables, m: Module) {
    && after.names == before.names
    && if Failed(m.code.allLoaded) then
      && after.loaders == before.loaders - {m} && after.pladdons == before.pladdons - {m}
      && after.listeners == before.listeners - {m}
      && after.classes == (if m in before.loaders && m in before.names then before.classes - before.names[m] else before.classes)
    else
      && after.loaders == before.loaders && after.pladdons == before.pladdons
      && after.listeners == before.listeners && after.classes == before.classes
  }

  /** What `allLoaded(m)` sends to the server: nothing, unless the hook
      throws and `m` is disabled. */
  ghost predicate StepCalls(before: Tables, after: Tables, m: Module)
    reads m`commandList
  {
    if Failed(m.code.allLoaded) then
      && after.listenerCalls == before.listenerCalls + (if m in before.listeners then Unregistrations(before.listeners[m]) else [])
      && after.commandCalls == before.commandCalls + Reregistrations(m.commandList)
      && after.pluginCalls == before.pluginCalls + (if m in before.pladdons then [PluginDisabled(before.pladdons[m])] else [])
    else
      && after.listenerCalls == before.listenerCalls && after.commandCalls == before.commandCalls
      && after.pluginCalls == before.pluginCalls
  }

  /** The failing modules of a list are in it. */
  lemma {:induction false} DroppedWithin(ms: seq<Module>)
    ensures forall m :: m in Dropped(ms) ==> m in ms
  {
    if ms != [] {
      DroppedWithin(ms[..|ms| - 1]);
    }
  }

  /** One more module handled keeps the tables part of the ledger. */
  lemma LedgerTablesStep(t: Tables, ms: seq<Module>, i: nat, before: Tables, after: Tables)
    requires Distinct(ms) && i < |ms| && t.names.Keys == t.loaders.Keys && before.names == t.names
    requires LedgerTables(t, ms[..i], before) && StepTables(before, after, ms[i])
    ensures LedgerTables(t, ms[..i + 1], after)
  {
    DroppedStep(t.loaders, ms, i, before.loaders, after.loaders);
    DroppedStep(t.pladdons, ms, i, before.pladdons, after.pladdons);
    DroppedStep(t.listeners, ms, i, before.listeners, after.listeners);
    DroppedClassesStep(t, ms, i, before, after);
  }

  /** One more module handled keeps a table equal to the start table without
      the failing modules. */
  lemma DroppedStep<V>(start: map<Module, V>, ms: seq<Module>, i: nat, before: map<Module, V>, after: map<Module, V>)
    requires i < |ms| && before == start - Dropped(ms[..i])
    requires after == if Failed(ms[i].code.allLoaded) then before - {ms[i]} else before
    ensures after == start - Dropped(ms[..i + 1])
  {
    assert ms[..i + 1][..i] == ms[..i];
  }

  /** One more module handled keeps the shared class table equal to the start
      table without the failing modules' class names. */
  lemma DroppedClassesStep(t: Tables, ms: seq<Module>, i: nat, before: Tables, after: Tables)
    requires Distinct(ms) && i < |ms| && t.names.Keys == t.loaders.Keys && before.names == t.names
    requires LedgerTables(t, ms[..i], before) && StepTables(before, after, ms[i])
    ensures after.classes == t.classes - DroppedClassNames(ms[..i + 1], t.names)
  {
    var m, done := ms[i], ms[..i + 1];
    assert done[..i] == ms[..i] && done[i] == m;
    if Failed(m.code.allLoaded) {
      DroppedWithin(ms[..i]);
      assert m !in Dropped(ms[..i]);
      assert m in before.loaders <==> m in t.names;
    }
  }

  /** One more module handled keeps the call-log part of the ledger. */
  lemma LedgerCallsStep(t: Tables, ms: seq<Module>, i: nat, before: Tables, after: Tables)
    requires Distinct(ms) && i < |ms|
    requires LedgerTables(t, ms[..i], before) && LedgerCalls(t, ms[..i], before) && StepCalls(before, after, ms[i])
    ensures LedgerCalls(t, ms[..i + 1], after)
  {
    ListenerCallsStep(t, ms, i, before, after);
    CommandCallsStep(t, ms, i, before, after);
    PluginCallsStep(t, ms, i, before, after);
  }

  /** One more module handled appends its listener unregistrations, if any. */
  lemma ListenerCallsStep(t: Tables, ms: seq<Module>, i: nat, before: Tables, after: Tables)
    requires Distinct(ms) && i < |ms| && before.listeners == t.listeners - Dropped(ms[..i])
    requires before.listenerCalls == t.listenerCalls + DroppedListenerCalls(ms[..i], t.listeners)
    requires StepCalls(before, after, ms[i])
    ensures after.listenerCalls == t.listenerCalls + DroppedListenerCalls(ms[..i + 1], t.listeners)
  {
    var m, done := ms[i], ms[..i + 1];
    assert done[..i] == ms[..i] && done[i] == m;
    if Failed(m.code.allLoaded) {
      DroppedWithin(ms[..i]);
      assert m !in Dropped(ms[..i]);
    }
  }

  /** One more module handled appends its command re-registrations, if any. */
  lemma CommandCallsStep(t: Tables, ms: seq<Module>, i: nat, before: Tables, after: Tables)
    requires i < |ms|
    requires before.commandCalls == t.commandCalls + DroppedCommandCalls(ms[..i])
    requires StepCalls(before, after, ms[i])
    ensures after.commandCalls == t.commandCalls + DroppedCommandCalls(ms[..i + 1])
  {
    var m, done := ms[i], ms[..i + 1];
    assert done[..i] == ms[..i] && done[i] == m;
  }

  /** One more module handled appends the server's disable call for it when
      it is a pladdon. */
  lemma PluginCallsStep(t: Tables, ms: seq<Module>, i: nat, before: Tables, after: Tables)
    requires Distinct(ms) && i < |ms| && before.pladdons == t.pladdons - Dropped(ms[..i])
    requires before.pluginCalls == t.pluginCalls + DroppedPluginCalls(ms[..i], t.pladdons)
    requires StepCalls(before, after, ms[i])
    ensures after.pluginCalls == t.pluginCalls + DroppedPluginCalls(ms[..i + 1], t.pladdons)
  {
    var m, done := ms[i], ms[..i + 1];
    assert done[..i] == ms[..i] && done[i] == m;
    if Failed(m.code.allLoaded) {
      DroppedWithin(ms[..i]);
      assert m !in Dropped(ms[..i]);
    }
  }

  /** The modules among `ms` whose `allLoaded` throws, so `allLoaded()`
      disables them. */
  function Dropped(ms: seq<Module>): set<Module> {
    if ms == [] then {}
    else
      var m := ms[|ms| - 1];
      Dropped(ms[..|ms| - 1]) + (if Failed(m.code.allLoaded) then {m} else {})
  }

  /** The shared class names the failing modules' loaders take with them,
      given each loader's names. */
  function DroppedClassNames(ms: seq<Module>, names: map<Module, set<string>>): set<string> {
    if ms == [] then {}
    else
      var m := ms[|ms| - 1];
      DroppedClassNames(ms[..|ms| - 1], names) + (if Failed(m.code.allLoaded) && m in names then names[m] else {})
  }

  /** The listener unregistrations of the failing modules, in order. */
  function DroppedListenerCalls(ms: seq<Module>, listeners: map<Module, seq<Listener>>): seq<ListenerCall> {
    if ms == [] then []
    else
      var m := ms[|ms| - 1];
      DroppedListenerCalls(ms[..|ms| - 1], listeners) +
        (if Failed(m.code.allLoaded) && m in listeners then Unregistrations(listeners[m]) else [])
  }

  /** The command re-registrations of the failing modules, in order. */
  function DroppedCommandCalls(ms: seq<Module>): seq<CommandCall>
    reads (set m | m in ms)`commandList
  {
    if ms == [] then []
    else
      var m := ms[|ms| - 1];
      DroppedCommandCalls(ms[..|ms| - 1]) + (if Failed(m.code.allLoaded) then Reregistrations(m.commandList) else [])
  }

  /** The server's disable calls for the failing pladdons, in order. */
  function DroppedPluginCalls(ms: seq<Module>, pladdons: map<Module, Plugin>): seq<PluginCall> {
    if ms == [] then []
    else
      var m := ms[|ms| - 1];
      DroppedPluginCalls(ms[..|ms| - 1], pladdons) +
        (if Failed(m.code.allLoaded) && m in pladdons then [PluginDisabled(pladdons[m])] else [])
  }

  /** `getDeclaredConstructor().newInstance()` yields a `Module` of this class. */
  predicate Builds(c: JavaClass) {
    c.extendsModule && c.instantiable
  }

  /** The module a class loader built, if it was built. */
  function Built(r: Result<Module, LoadError>): (m: Option<Module>)
    ensures m.Some? <==> r.Ok?
    ensures m.Some? ==> m.value == r.value
  {
    match r
    case Ok(built) => Some(built)
    case Err(_) => None
  }

  // ------------------------------------------------------------ module lists

  predicate Described(ms: seq<Module>)
    reads (set m | m in ms)`description
  {
    forall i :: 0 <= i < |ms| ==> ms[i].description.Some?
  }

  /** Removing a module, and adding a described one at the end, keeps a
      list described. */
  lemma RemoveFirstDescribed(ms: seq<Module>, m: Module)
    requires Described(ms)
    ensures Described(RemoveFirst(ms, m))
    ensures m.description.Some? ==> Described(RemoveFirst(ms, m) + [m])
  {
    var r := RemoveFirst(ms, m);
    forall i | 0 <= i < |r| ensures r[i].description.Some? {
      assert r[i] in ms;
      var j :| 0 <= j < |ms| && ms[j] == r[i];
    }
  }

  /** A module as `sortAddons` sees it. */
  function NodeOf(m: Module): Node<Module>
    reads m`description
    requires m.description.Some?
  {
    Node(m, m.description.value.name, m.description.value.dependencies, m.description.value.softDependencies)
  }

  function NodesOf(ms: seq<Module>): (ns: seq<Node<Module>>)
    reads (set m | m in ms)`description
    requires Described(ms)
    ensures |ns| == |ms| && Items(ns) == ms
    ensures forall i :: 0 <= i < |ms| ==> ns[i] == NodeOf(ms[i])
  {
    if ms == [] then []
    else
      var ns := NodesOf(ms[..|ms| - 1]) + [NodeOf(ms[|ms| - 1])];
      assert Items(ns) == ms by {
        forall i | 0 <= i < |ms| ensures Items(ns)[i] == ms[i] {
          if i < |ms| - 1 { assert ms[..|ms| - 1][i] == ms[i]; }
        }
      }
      ns
  }

  /** `modules.stream().filter(a -> a.getState().equals(s)).toList()` */
  function WithState(ms: seq<Module>, s: State): (r: seq<Module>)
    reads (set m | m in ms)`state
    ensures Subseq(r, ms)
    ensures forall i :: 0 <= i < |r| ==> r[i].state == s
    ensures forall i :: 0 <= i < |ms| && ms[i].state == s ==> ms[i] in r
    ensures Described(ms) ==> Described(r)
  {
    if ms == [] then []
    else if ms[0].state == s then [ms[0]] + WithState(ms[1..], s)
    else
      var r := WithState(ms[1..], s);
      assert forall i :: 1 <= i < |ms| ==> ms[i] == ms[1..][i - 1];
      r
  }

  /** The filter finds nothing when no module is in the state. */
  lemma WithStateNone(ms: seq<Module>, s: State)
    requires forall i :: 0 <= i < |ms| ==> ms[i].state != s
    ensures WithState(ms, s) == []
  {
    SubseqMembers(WithState(ms, s), ms);
  }

  /** `!getLoadedAddons().isEmpty()`, and its kin for the other states: some
      listed module is in state `s` (`AnyInStateAgrees` ties it to `WithState`). */
  predicate AnyInState(ms: seq<Module>, s: State)
    reads (set m | m in ms)`state
  {
    exists i :: 0 <= i < |ms| && ms[i].state == s
  }

  /** The filter is empty exactly when no module is in the state. */
  lemma AnyInStateAgrees(ms: seq<Module>, s: State)
    ensures AnyInState(ms, s) <==> WithState(ms, s) != []
  {
    if !AnyInState(ms, s) {
      WithStateNone(ms, s);
    }
  }

  /** A filtered list of distinct modules holds only listed modules, each once. */
  lemma WithStateWithin(ms: seq<Module>, s: State)
    requires Distinct(ms)
    ensures Distinct(WithState(ms, s))
    ensures forall m :: m in WithState(ms, s) ==> m in ms && m.state == s
  {
    var r := WithState(ms, s);
    SubseqMembers(r, ms);
    SubseqDistinct(r, ms);
    forall m | m in r ensures m.state == s {
      var i :| 0 <= i < |r| && r[i] == m;
    }
  }

  /** The module's name (`Name`) or main class (`Main`), as the lookups compare them. */
  datatype Field = Name | Main

  function FieldOf(m: Module, f: Field): string
    reads m`description
    requires m.description.Some?
  {
    match f
    case Name => m.description.value.name
    case Main => m.description.value.main
  }

  /** The position of the first module whose field equals `text` ignoring case. */
  function FirstMatch(ms: seq<Module>, f: Field, text: string): (r: Option<nat>)
    reads (set m | m in ms)`description
    requires Described(ms)
    ensures r.None? <==> forall j :: 0 <= j < |ms| ==> !EqualsIgnoreCase(FieldOf(ms[j], f), text)
    ensures r.Some? ==> r.value < |ms| && EqualsIgnoreCase(FieldOf(ms[r.value], f), text)
    ensures r.Some? ==> forall j :: 0 <= j < r.value ==> !EqualsIgnoreCase(FieldOf(ms[j], f), text)
  {
    FirstMatchFrom(ms, f, text, 0)
  }

  /** The search of `FirstMatch`, from position `k` on. */
  function FirstMatchFrom(ms: seq<Module>, f: Field, text: string, k: nat): (r: Option<nat>)
    reads (set m | m in ms)`description
    requires Described(ms) && k <= |ms|
    decreases |ms| - k
    ensures r.None? <==> forall j :: k <= j < |ms| ==> !EqualsIgnoreCase(FieldOf(ms[j], f), text)
    ensures r.Some? ==> k <= r.value < |ms| && EqualsIgnoreCase(FieldOf(ms[r.value], f), text)
    ensures r.Some? ==> forall j :: k <= j < r.value ==> !EqualsIgnoreCase(FieldOf(ms[j], f), text)
  {
    if k == |ms| then None
    else if EqualsIgnoreCase(FieldOf(ms[k], f), text) then Some(k)
    else
      var r := FirstMatchFrom(ms, f, text, k + 1);
      assert !EqualsIgnoreCase(FieldOf(ms[k], f), text);
      r
  }

  // ------------------------------------------------------------ the class loader

  class ModuleClassLoader {
    const manager: ModuleManager
    /** The classes the jar holds, by binary name (the `URLClassLoader`'s own lookup). */
    const archive: map<string, JavaClass>
    /** Every name this loader was asked for, with what it found (`None` for `null`). */
    var classes: map<string, Option<JavaClass>>
    var addon: Option<Module>

    constructor (manager: ModuleManager, archive: map<string, JavaClass>)
      ensures this.manager == manager && this.archive == archive
      ensures classes == map[] && addon == None
    {
      this.manager := manager;
      this.archive := archive;
      classes := map[];
      addon := None;
    }

    /** Neither the jar nor an earlier answer of this loader holds a class
        of that name. */
    predicate Lacks(name: string)
      reads this
    {
      name !in archive && !(name in classes && classes[name].Some?)
    }

    /** `getClasses()`: the names this loader was asked for. */
    function GetClasses(): (names: set<string>)
      reads this
      ensures forall n :: n in names <==> n in classes
    {
      classes.Keys
    }

    /** `findClass(name, checkGlobal)`: refuse the plugin's own package; else
        this loader's earlier answer if it found something; else the classes
        other add-ons published (only when `checkGlobal`), then the jar itself,
        publishing what the jar holds. The answer is remembered either way. */
    method FindClass(name: string, checkGlobal: bool) returns (r: Option<JavaClass>)
      requires manager.OwnsLoaders()
      modifies this`classes, manager`classes, (if checkGlobal then manager.loaders.Values else {})`classes
      decreases if checkGlobal then 3 else 0
      ensures StartsWith(name, ReservedPrefix) ==>
        r.None? && classes == old(classes) && manager.classes == old(manager.classes)
      ensures !StartsWith(name, ReservedPrefix) ==> classes == old(classes)[name := r]
      ensures !StartsWith(name, ReservedPrefix) && name in old(classes) && old(classes)[name].Some? ==>
        r == old(classes)[name] && manager.classes == old(manager.classes)
      ensures manager.classes == old(manager.classes) ||
        (name !in old(manager.classes) && r.Some? && manager.classes == old(manager.classes)[name := r.value])
      ensures !checkGlobal && !StartsWith(name, ReservedPrefix) && !(name in old(classes) && old(classes)[name].Some?) ==>
        r == Get(archive, name)
      ensures checkGlobal ==> forall l :: l in manager.loaders.Values ==> KeptExcept(l, name)
      ensures checkGlobal && !StartsWith(name, ReservedPrefix) && !(name in old(classes) && old(classes)[name].Some?) ==>
        && (name in old(manager.classes) ==> r == Some(old(manager.classes)[name]))
        && (r.None? ==> name !in archive)
      // when no add-on holds the name, the jar's own class is the answer
      ensures checkGlobal && !StartsWith(name, ReservedPrefix) && !(name in old(classes) && old(classes)[name].Some?) &&
              name !in old(manager.classes) && old(AllLack(manager.loaders.Values, name)) ==>
        r == Get(archive, name)
    {
      if StartsWith(name, ReservedPrefix) {
        return None;
      }
      if name in classes && classes[name].Some? {
        r := classes[name];
        assert classes[name := r] == classes;
        return;
      }
      r := None;
      ghost var before := classes;
      if checkGlobal {
        r := manager.GetClassByName(name);
      }
      assert classes - {name} == before - {name} by {
        if checkGlobal && this in manager.loaders.Values {
          assert KeptExcept(this, name);
        }
      }
      if r.None? {
        r := Get(archive, name);
        if r.Some? {
          manager.SetClass(name, r.value);
        }
      }
      AgreeAfterUpdate(classes, before, name, r);
      classes := classes[name := r];
    }

    /** The constructor's checks on the main class, then the module instance
        and its description (`Class.forName(main, true, this)` asks the
        parent loader first). */
    method Init(data: Manifest) returns (r: Result<Module, LoadError>, found: Option<JavaClass>)
      requires manager.OwnsLoaders()
      modifies this`classes, this`addon, manager`classes, manager.loaders.Values`classes
      ensures "main" !in data ==> r == Err(NoMain) && found.None?
      // where the main class comes from: the parent loader first, then this
      // loader's lookup (the shared table, other add-ons, the jar)
      ensures "main" in data && data["main"] in manager.parentClasses ==>
        found == Some(manager.parentClasses[data["main"]])
      ensures "main" in data && data["main"] !in manager.parentClasses && !StartsWith(data["main"], ReservedPrefix) &&
              !(data["main"] in old(classes) && old(classes)[data["main"]].Some?) ==>
        && (data["main"] in old(manager.classes) ==> found == Some(old(manager.classes)[data["main"]]))
        && (found.None? ==> data["main"] !in archive)
        && (data["main"] !in old(manager.classes) && old(AllLack(manager.loaders.Values, data["main"])) ==>
              found == Get(archive, data["main"]))
      // the checks on it, in order
      ensures "main" in data && found.None? ==> r == Err(ClassNotFound(data["main"]))
      ensures "main" in data && found.Some? && StartsWith(data["main"], ReservedPrefix) ==>
        r == Err(ReservedPackage(data["main"]))
      ensures "main" in data && found.Some? && !StartsWith(data["main"], ReservedPrefix) && !found.value.extendsModule ==>
        r == Err(InvalidInherit(data["main"]))
      ensures "main" in data && found.Some? && !StartsWith(data["main"], ReservedPrefix) && found.value.extendsModule &&
              !found.value.instantiable ==>
        r == Err(NotInstantiable(data["main"]))
      ensures "main" in data && found.Some? && !StartsWith(data["main"], ReservedPrefix) && found.value.extendsModule &&
              found.value.instantiable ==>
        && (AsDescription(data, manager.host.materials).Err? ==>
              r == Err(InvalidModuleDescription(AsDescription(data, manager.host.materials).error)))
        && (AsDescription(data, manager.host.materials).Ok? ==> r.Ok?)
      ensures r.Ok? ==> found.Some? && found.value.extendsModule && found.value.instantiable && r.value.code == found.value.code
      ensures "main" in data && StartsWith(data["main"], ReservedPrefix) ==> r.Err?
      ensures AsDescription(data, manager.host.materials).Err? ==> r.Err?
      ensures r.Ok? ==>
        && fresh(r.value) && addon == Some(r.value) && r.value.state == DISABLED
        && r.value.description == Some(AsDescription(data, manager.host.materials).value.description)
        && r.value.commandList == [] && r.value.requestHandlers == map[]
      ensures r.Ok? ==> "main" in data && !StartsWith(data["main"], ReservedPrefix)
    {
      if "main" !in data {
        return Err(NoMain), None;
      }
      var main := data["main"];
      if main in manager.parentClasses {
        found := Some(manager.parentClasses[main]);
      } else {
        found := FindClass(main, true);
      }
      if found.None? {
        return Err(ClassNotFound(main)), found;
      }
      if StartsWith(main, ReservedPrefix) {
        return Err(ReservedPackage(main)), found;
      }
      if !found.value.extendsModule {
        return Err(InvalidInherit(main)), found;
      }
      if !found.value.instantiable {
        return Err(NotInstantiable(main)), found;
      }
      var m := new Module(found.value.code);
      addon := Some(m);
      var parsed := AsDescription(data, manager.host.materials);
      if parsed.Err? {
        return Err(InvalidModuleDescription(parsed.error)), found;
      }
      m.description := Some(parsed.value.description);
      r := Ok(m);
    }
  }

  // ------------------------------------------------------------ permissions of modules

  /** What `setPerms` registers for a module. */
  function SectionGrants(m: Module, defaults: map<string, PermissionDefault>): set<Grant>
    reads m`description
    requires m.description.Some?
  {
    match m.description.value.permissions
    case None => {}
    case Some(section) => Grants(section, defaults)
  }

  /** What `setPerms` registers for each of the modules in turn. */
  function ModuleGrants(ms: seq<Module>, defaults: map<string, PermissionDefault>): set<Grant>
    reads (set m | m in ms)`description
    requires Described(ms)
  {
    if ms == [] then {}
    else
      var init := ms[..|ms| - 1];
      assert forall i :: 0 <= i < |init| ==> init[i] == ms[i];
      ModuleGrants(init, defaults) + SectionGrants(ms[|ms| - 1], defaults)
  }

  /** One more visited path adds that path's permission, if it is a node
      with a known default. */
  lemma GrantsOverGrows(section: Manifest, defaults: map<string, PermissionDefault>, visited: set<string>, p: string)
    ensures GrantsOver(section, defaults, visited + {p}) ==
      GrantsOver(section, defaults, visited) +
      (if IsNode(section, p) && GrantFor(section, p, defaults).Some? then {GrantFor(section, p, defaults).value} else {})
  {
  }

  /** The loop of `setPerms`: each path of the section, in the section's
      (unspecified) order, that is a node has its permission registered; a
      node whose default is missing or unknown is skipped. */
  method RegisterNodes(host: Host, section: Manifest)
    modifies host`permissions
    ensures host.permissions == old(host.permissions) + Grants(section, host.permissionDefaults)
  {
    var defaults := host.permissionDefaults;
    var left := Paths(section);
    ghost var visited: set<string> := {};
    while left != {}
      invariant visited + left == Paths(section)
      invariant host.permissions == old(host.permissions) + GrantsOver(section, defaults, visited)
      decreases left
    {
      var p :| p in left;
      if IsNode(section, p) {
        var grant := GrantFor(section, p, defaults);
        if grant.Some? {
          host.permissions := host.permissions + {grant.value};
        }
      }
      GrantsOverGrows(section, defaults, visited, p);
      left, visited := left - {p}, visited + {p};
    }
  }

  /** Only the entry for `name` of the loader's table changed. */
  /** No loader of the set has a class of that name. */
  predicate AllLack(ls: set<ModuleClassLoader>, name: string)
    reads ls
  {
    forall l :: l in ls ==> l.Lacks(name)
  }

  /** `m` was loaded from `jar`: the jar has a valid `addon.yml`, and `m`
      carries the description parsed from it. */
  predicate LoadedFrom(jar: Jar, m: Module, materials: set<string>)
    reads m
  {
    && jar.manifest.Some? && AsDescription(jar.manifest.value, materials).Ok?
    && m.description == Some(AsDescription(jar.manifest.value, materials).value.description)
  }

  /** Jar by jar, the module each one loaded (if any) was loaded from it. */
  predicate EachLoadedFrom(jars: seq<Jar>, outcomes: seq<Option<Module>>, materials: set<string>)
    reads set k | 0 <= k < |outcomes| && outcomes[k].Some? :: outcomes[k].value
  {
    && |jars| == |outcomes|
    && forall k :: 0 <= k < |outcomes| && outcomes[k].Some? ==> LoadedFrom(jars[k], outcomes[k].value, materials)
  }

  /** The next jar and its outcome extend the record, and the modules
      it lists. */
  lemma EachLoadedFromSnoc(jars: seq<Jar>, i: nat, outcomes: seq<Option<Module>>, o: Option<Module>, materials: set<string>)
    requires i < |jars| && EachLoadedFrom(jars[..i], outcomes, materials)
    requires o.Some? ==> LoadedFrom(jars[i], o.value, materials)
    ensures EachLoadedFrom(jars[..i + 1], outcomes + [o], materials)
    ensures Somes(outcomes + [o]) == Somes(outcomes) + (if o.Some? then [o.value] else [])
  {
    forall k | 0 <= k < |outcomes| + 1 && (outcomes + [o])[k].Some?
      ensures LoadedFrom(jars[..i + 1][k], (outcomes + [o])[k].value, materials)
    {
      if k < |outcomes| {
        assert (outcomes + [o])[k] == outcomes[k];
        assert jars[..i + 1][k] == jars[..i][k];
      }
    }
    assert (outcomes + [o])[..|outcomes|] == outcomes;
  }

  twostate predicate KeptExcept(l: ModuleClassLoader, name: string)
    reads l
  {
    l.classes - {name} == old(l.classes) - {name}
  }

  // ------------------------------------------------------------ the manager

  class ModuleManager {
    const host: Host
    const bus: EventBus
    /** The classes the plugin's own class loader, the parent of every add-on
        loader, resolves. */
    const parentClasses: map<string, JavaClass>

    var modules: seq<Module>
    var loaders: map<Module, ModuleClassLoader>
    var pladdons: map<Module, Plugin>
    var classes: map<string, JavaClass>
    var listeners: map<Module, seq<Listener>>

    constructor (host: Host, bus: EventBus, parentClasses: map<string, JavaClass>)
      ensures this.host == host && this.bus == bus && this.parentClasses == parentClasses
      ensures modules == [] && loaders == map[] && pladdons == map[] && classes == map[] && listeners == map[]
      ensures Valid()
    {
      this.host := host;
      this.bus := bus;
      this.parentClasses := parentClasses;
      modules := [];
      loaders := map[];
      pladdons := map[];
      classes := map[];
      listeners := map[];
    }

    /** Every loader registered here answers to this manager. */
    predicate OwnsLoaders()
      reads this
    {
      forall l :: l in loaders.Values ==> l.manager == this
    }

    /** The manager's invariant: the listed modules are distinct and
        described, and it owns its loaders. */
    predicate Valid()
      reads this, (set m | m in modules)`description
    {
      Distinct(modules) && Described(modules) && OwnsLoaders()
    }

    /** `setClass`: the first class published under a name stays. */
    method SetClass(name: string, c: JavaClass)
      modifies this`classes
      ensures classes == PutIfAbsent(old(classes), name, c)
    {
      classes := PutIfAbsent(classes, name, c);
    }

    /** `new ModuleEvent().builder().addon(m).reason(reason).build()` */
    method Fire(m: Module, reason: Reason) returns (event: ModuleBaseEvent)
      modifies bus`published
      ensures fresh(event) && event.kind == KindOf(reason) && event.addon == Some(m)
      ensures bus.published == old(bus.published) + [event]
    {
      var builder := new AddonEventBuilder();
      builder := builder.WithAddon(m);
      builder := builder.WithReason(reason);
      event := builder.Build(bus);
    }

    /** `initializeAddon`: announce the load, move the module to the end of
        the list, and run `onLoad` from state LOADED. */
    method InitializeAddon(m: Module)
      requires Valid() && m.description.Some?
      modifies this`modules, bus`published, m`state
      ensures Valid()
      ensures modules == RemoveFirst(old(modules), m) + [m]
      ensures m.state == StateAfterLoad(m.code.onLoad)
      ensures |bus.published| == |old(bus.published)| + 1 && bus.published[..|old(bus.published)|] == old(bus.published)
      ensures Announces(bus.published[|old(bus.published)|..], LoadEvent, [m])
    {
      var event := Fire(m, LOAD);
      RemoveFirstDistinct(modules, m);
      RemoveFirstDescribed(modules, m);
      modules := RemoveFirst(modules, m) + [m];
      m.state := LOADED;
      match m.code.onLoad {
        case Completes =>
        case DisablesItself => m.state := DISABLED;
        case LinkageError => m.state := INCOMPATIBLE;
        case Exception => m.state := ERROR;
      }
    }

    /** `enableAddon`: run `onEnable`; a module that is DISABLED afterwards
        stays so and is not announced; otherwise a normal end announces the
        module and makes it ENABLED, and a failure marks it. */
    method EnableAddon(m: Module)
      modifies m`state, bus`published
      ensures m.state == (if m.code.onEnable == Completes && old(m.state) == DISABLED then DISABLED
                          else StateAfterEnable(m.code.onEnable))
      ensures |old(bus.published)| <= |bus.published| && bus.published[..|old(bus.published)|] == old(bus.published)
      ensures Announces(bus.published[|old(bus.published)|..], EnableEvent,
                        if m.code.onEnable == Completes && old(m.state) != DISABLED then [m] else [])
    {
      match m.code.onEnable
      case DisablesItself => m.state := DISABLED;
      case LinkageError => m.state := INCOMPATIBLE;
      case Exception => m.state := ERROR;
      case Completes =>
        if m.state != DISABLED {
          var event := Fire(m, ENABLE);
          m.state := ENABLED;
        }
    }

    /** One `forEach(this::enableAddon)` pass over LOADED modules: each runs
        `onEnable` once, and those whose hook ends normally are announced,
        in list order. */
    method EnableEach(ms: seq<Module>)
      requires Distinct(ms)
      requires forall i :: 0 <= i < |ms| ==> ms[i].state == LOADED
      modifies (set m | m in ms)`state, bus`published
      ensures forall i :: 0 <= i < |ms| ==> ms[i].state == StateAfterEnable(ms[i].code.onEnable)
      ensures |old(bus.published)| <= |bus.published| && bus.published[..|old(bus.published)|] == old(bus.published)
      ensures Announces(bus.published[|old(bus.published)|..], EnableEvent, Completing(ms))
    {
      ghost var start := bus.published;
      ghost var mark := |start|;
      var i := 0;
      while i < |ms|
        invariant 0 <= i <= |ms|
        invariant forall j :: 0 <= j < i ==> ms[j].state == StateAfterEnable(ms[j].code.onEnable)
        invariant forall j :: i <= j < |ms| ==> ms[j].state == LOADED
        invariant mark <= |bus.published| && bus.published[..mark] == start
        invariant Announces(bus.published[mark..], EnableEvent, Completing(ms[..i]))
      {
        ghost var before := bus.published;
        EnableAt(ms, i);
        AnnouncesEnabledStep(before, bus.published, mark, ms, i);
        i := i + 1;
      }
      assert ms[..i] == ms;
    }

    /** One turn of the pass: the module at `i` is enabled unless it is
        DISABLED (it never is, being LOADED), and no other listed module
        changes. */
    method EnableAt(ms: seq<Module>, i: nat)
      requires Distinct(ms) && i < |ms| && ms[i].state == LOADED
      modifies {ms[i]}`state, bus`published
      ensures forall j :: 0 <= j < |ms| && j != i ==> ms[j].state == old(ms[j].state)
      ensures ms[i].state == StateAfterEnable(ms[i].code.onEnable)
      ensures |old(bus.published)| <= |bus.published| && bus.published[..|old(bus.published)|] == old(bus.published)
      ensures Announces(bus.published[|old(bus.published)|..], EnableEvent,
                        if ms[i].code.onEnable == Completes then [ms[i]] else [])
    {
      if ms[i].state != DISABLED {
        EnableAddon(ms[i]);
      }
      forall j | 0 <= j < |ms| && j != i ensures ms[j].state == old(ms[j].state) {
        assert ms[j] != ms[i];
      }
    }

    /** `setPerms`: every path of the module's permissions section that is a
        node gets its permission registered; a module without the section
        registers nothing and reports `false`. */
    method SetPerms(m: Module) returns (hasSection: bool)
      requires m.description.Some?
      modifies host`permissions
      ensures hasSection <==> m.description.value.permissions.Some?
      ensures host.permissions == old(host.permissions) + SectionGrants(m, host.permissionDefaults)
    {
      var perms := m.description.value.permissions;
      if perms.None? {
        return false;
      }
      RegisterNodes(host, perms.value);
      return true;
    }

    /** `enableAddons`: nothing when no module is LOADED; otherwise the
        LOADED modules are enabled (the second pass finds none left), and the
        permissions of every ENABLED module are registered. */
    method EnableAddons()
      requires Valid()
      modifies (set m | m in modules)`state, bus`published, host`permissions
      ensures Valid() && modules == old(modules)
      ensures forall i :: 0 <= i < |modules| ==>
        modules[i].state == if old(modules[i].state) == LOADED then StateAfterEnable(modules[i].code.onEnable) else old(modules[i].state)
      ensures forall i :: 0 <= i < |modules| ==> modules[i].state != LOADED
      ensures |old(bus.published)| <= |bus.published| && bus.published[..|old(bus.published)|] == old(bus.published)
      ensures Announces(bus.published[|old(bus.published)|..], EnableEvent,
                        Completing(old(WithState(modules, LOADED))))
      ensures host.permissions == old(host.permissions) +
        (if old(WithState(modules, LOADED)) == [] then {} else ModuleGrants(WithState(modules, ENABLED), host.permissionDefaults))
    {
      var loaded := WithState(modules, LOADED);
      if loaded == [] {
        forall i | 0 <= i < |modules| ensures modules[i].state != LOADED {
          assert modules[i] !in loaded;
        }
        return;
      }
      FirstPass(loaded);
      SecondPass();
      var enabled := WithState(modules, ENABLED);
      SetPermsEach(enabled);
    }

    /** The first `forEach(this::enableAddon)` of `enableAddons`: every
        LOADED module runs `onEnable`, and the others keep their state. */
    method FirstPass(loaded: seq<Module>)
      requires Valid() && loaded == WithState(modules, LOADED)
      modifies (set m | m in modules)`state, bus`published
      ensures Valid()
      ensures forall i :: 0 <= i < |modules| ==>
        modules[i].state == if old(modules[i].state) == LOADED then StateAfterEnable(modules[i].code.onEnable) else old(modules[i].state)
      ensures forall i :: 0 <= i < |modules| ==> modules[i].state != LOADED
      ensures |old(bus.published)| <= |bus.published| && bus.published[..|old(bus.published)|] == old(bus.published)
      ensures Announces(bus.published[|old(bus.published)|..], EnableEvent, Completing(loaded))
    {
      WithStateWithin(modules, LOADED);
      EnableEach(loaded);
      forall i | 0 <= i < |modules|
        ensures modules[i].state == if old(modules[i].state) == LOADED then StateAfterEnable(modules[i].code.onEnable) else old(modules[i].state)
        ensures modules[i].state != LOADED
      {
        if modules[i] in loaded {
          var k :| 0 <= k < |loaded| && loaded[k] == modules[i];
        } else {
          assert old(modules[i].state) != LOADED;
        }
      }
    }

    /** The second `forEach(this::enableAddon)` of `enableAddons`: once no
        module is LOADED it finds nothing to enable. */
    method SecondPass()
      requires Valid() && forall i :: 0 <= i < |modules| ==> modules[i].state != LOADED
      modifies (set m | m in modules)`state, bus`published
      ensures Valid()
      ensures bus.published == old(bus.published)
      ensures forall i :: 0 <= i < |modules| ==> modules[i].state == old(modules[i].state)
    {
      var second := WithState(modules, LOADED);
      WithStateNone(modules, LOADED);
      assert (set m | m in second) == {};
      EnableEach(second);
    }

    /** `getEnabledAddons().forEach(this::setPerms)` */
    method SetPermsEach(ms: seq<Module>)
      requires Described(ms)
      modifies host`permissions
      ensures host.permissions == old(host.permissions) + ModuleGrants(ms, host.permissionDefaults)
    {
      var i := 0;
      while i < |ms|
        invariant 0 <= i <= |ms|
        invariant host.permissions == old(host.permissions) + ModuleGrants(ms[..i], host.permissionDefaults)
      {
        var _ := SetPerms(ms[i]);
        assert ms[..i + 1][..i] == ms[..i];
        i := i + 1;
      }
      assert ms[..i] == ms;
    }

    /** `registerListener`: the listener is registered with the server and
        remembered, last, among the module's listeners. */
    method RegisterListener(m: Module, l: Listener)
      modifies this`listeners, host`listenerCalls
      ensures host.listenerCalls == old(host.listenerCalls) + [ListenerRegistered(l)]
      ensures listeners == old(listeners)[m := (if m in old(listeners) then old(listeners)[m] else []) + [l]]
    {
      host.listenerCalls := host.listenerCalls + [ListenerRegistered(l)];
      var registered := if m in listeners then listeners[m] else [];
      listeners := listeners[m := registered + [l]];
    }

    /** The first step of `disable`: the module's listeners are unregistered
        in the order they were registered, and forgotten. */
    method UnregisterListeners(m: Module)
      modifies this`listeners, host`listenerCalls
      ensures listeners == old(listeners) - {m}
      ensures host.listenerCalls == old(host.listenerCalls) + (if m in old(listeners) then Unregistrations(old(listeners)[m]) else [])
    {
      if m in listeners {
        var ls := listeners[m];
        var i := 0;
        while i < |ls|
          invariant 0 <= i <= |ls|
          invariant host.listenerCalls == old(host.listenerCalls) + Unregistrations(ls[..i])
          invariant listeners == old(listeners)
        {
          host.listenerCalls := host.listenerCalls + [ListenerUnregistered(ls[i])];
          assert Unregistrations(ls[..i + 1]) == Unregistrations(ls[..i]) + [ListenerUnregistered(ls[i])];
          i := i + 1;
        }
        assert ls[..i] == ls;
        listeners := listeners - {m};
      } else {
        assert listeners - {m} == listeners;
      }
    }

    /** The loop of `disable` over `getClasses()`: every name the module's
        loader was asked for leaves the shared table. */
    method RemoveClasses(names: set<string>)
      modifies this`classes
      ensures classes == old(classes) - names
    {
      var left := names;
      while left != {}
        invariant left <= names
        invariant classes == old(classes) - (names - left)
        decreases |left|
      {
        var n :| n in left;
        assert old(classes) - (names - (left - {n})) == (old(classes) - (names - left)) - {n};
        classes := classes - {n};
        left := left - {n};
      }
      assert names - left == names;
    }

    /** `disable`: listeners and commands go first; an enabled module runs
        `onDisable` (an `Exception` is logged, a `LinkageError` escapes the
        method) and is announced; a module with a loader forgets its classes
        and becomes DISABLED; a pladdon is disabled by the server; and the
        module leaves the list. */
    method Disable(m: Module) returns (escaped: bool)
      requires Valid()
      modifies this`modules, this`listeners, this`loaders, this`pladdons, this`classes, m`state
      modifies host`listenerCalls, host`commandCalls, host`pluginCalls, bus`published
      ensures Valid()
      ensures escaped <==> old(m.state) == ENABLED && m.code.onDisable == LinkageError
      ensures listeners == old(listeners) - {m}
      ensures host.listenerCalls == old(host.listenerCalls) + (if m in old(listeners) then Unregistrations(old(listeners)[m]) else [])
      ensures host.commandCalls == old(host.commandCalls) + Reregistrations(m.commandList)
      ensures escaped ==>
        && modules == old(modules) && loaders == old(loaders) && pladdons == old(pladdons) && classes == old(classes)
        && host.pluginCalls == old(host.pluginCalls) && bus.published == old(bus.published) && m.state == old(m.state)
      ensures !escaped ==>
        && modules == RemoveFirst(old(modules), m) && m !in modules
        && loaders == old(loaders) - {m} && pladdons == old(pladdons) - {m}
        && classes == (if m in old(loaders) then old(classes) - old(loaders[m].classes.Keys) else old(classes))
        && host.pluginCalls == old(host.pluginCalls) + (if m in old(pladdons) then [PluginDisabled(old(pladdons)[m])] else [])
      ensures !escaped ==>
        && |old(bus.published)| <= |bus.published| && bus.published[..|old(bus.published)|] == old(bus.published)
        && Announces(bus.published[|old(bus.published)|..], DisableEvent, if old(m.state) == ENABLED then [m] else [])
        && m.state == (if m in old(loaders) then DISABLED
                       else if old(m.state) == ENABLED && m.code.onDisable == DisablesItself then DISABLED
                       else old(m.state))
    {
      UnregisterListeners(m);
      m.UnloadAllCommands(host);
      escaped := RunOnDisable(m);
      if !escaped {
        Forget(m);
      }
    }

    /** The middle of `disable`: an enabled module runs `onDisable`, whose
        exceptions are caught but whose linkage errors escape, and is then
        announced. */
    method RunOnDisable(m: Module) returns (escaped: bool)
      modifies m`state, bus`published
      ensures escaped <==> old(m.state) == ENABLED && m.code.onDisable == LinkageError
      ensures escaped ==> bus.published == old(bus.published) && m.state == old(m.state)
      ensures !escaped ==>
        && |old(bus.published)| <= |bus.published| && bus.published[..|old(bus.published)|] == old(bus.published)
        && Announces(bus.published[|old(bus.published)|..], DisableEvent, if old(m.state) == ENABLED then [m] else [])
        && m.state == (if old(m.state) == ENABLED && m.code.onDisable == DisablesItself then DISABLED else old(m.state))
    {
      if m.IsEnabled() {
        match m.code.onDisable {
          case LinkageError => return true;
          case DisablesItself => m.state := DISABLED;
          case Completes =>
          case Exception =>
        }
        var event := Fire(m, DISABLE);
      }
      escaped := false;
    }

    /** The end of `disable`: a module with a loader forgets the classes the
        loader was asked for and becomes DISABLED, a pladdon is disabled by
        the server, and the module leaves every table and the list. */
    method Forget(m: Module)
      requires Valid()
      modifies this`modules, this`loaders, this`pladdons, this`classes, m`state, host`pluginCalls
      ensures Valid()
      ensures modules == RemoveFirst(old(modules), m) && m !in modules
      ensures loaders == old(loaders) - {m} && pladdons == old(pladdons) - {m}
      ensures classes == (if m in old(loaders) then old(classes) - old(loaders[m].classes.Keys) else old(classes))
      ensures host.pluginCalls == old(host.pluginCalls) + (if m in old(pladdons) then [PluginDisabled(old(pladdons)[m])] else [])
      ensures m.state == (if m in old(loaders) then DISABLED else old(m.state))
    {
      RemoveFirstDistinct(modules, m);
      RemoveFirstDescribed(modules, m);
      ForgetLoader(m);
      ForgetPladdon(m);
      modules := RemoveFirst(modules, m);
    }

    /** "Clear loaders": the classes the module's loader was asked for leave
        the shared table, the module becomes DISABLED and its loader is
        dropped; a module without a loader is untouched. */
    method ForgetLoader(m: Module)
      requires OwnsLoaders()
      modifies this`loaders, this`classes, m`state
      ensures OwnsLoaders()
      ensures loaders == old(loaders) - {m}
      ensures classes == (if m in old(loaders) then old(classes) - old(loaders[m].classes.Keys) else old(classes))
      ensures m.state == (if m in old(loaders) then DISABLED else old(m.state))
    {
      if m in loaders {
        var names := loaders[m].GetClasses();
        RemoveClasses(names);
        m.state := DISABLED;
        loaders := loaders - {m};
      } else {
        assert loaders - {m} == loaders;
      }
    }

    /** "Disable pladdons": the server disables the module's plugin and the
        entry is dropped; a module that is no pladdon is untouched. */
    method ForgetPladdon(m: Module)
      modifies this`pladdons, host`pluginCalls
      ensures pladdons == old(pladdons) - {m}
      ensures host.pluginCalls == old(host.pluginCalls) + (if m in old(pladdons) then [PluginDisabled(old(pladdons)[m])] else [])
    {
      if m in pladdons {
        host.pluginCalls := host.pluginCalls + [PluginDisabled(pladdons[m])];
        pladdons := pladdons - {m};
      } else {
        assert pladdons - {m} == pladdons;
      }
    }

    /** One step of the pass of `disableAddons`: a module that is a pladdon
        (checked as its turn comes) is left to the server, any other one is
        disabled. */
    method DisableUnlessPladdon(m: Module) returns (escaped: bool)
      requires Valid() && m.state == ENABLED
      modifies this`modules, this`listeners, this`loaders, this`pladdons, this`classes, m`state
      modifies host`listenerCalls, host`commandCalls, host`pluginCalls, bus`published
      ensures Valid()
      ensures escaped <==> m !in old(pladdons) && m.code.onDisable == LinkageError
      ensures escaped ==> modules == old(modules) && loaders == old(loaders) && pladdons == old(pladdons) && m.state == old(m.state)
      ensures escaped ==> bus.published == old(bus.published)
      ensures forall x :: x != m && x in old(loaders) ==> x in loaders && loaders[x] == old(loaders)[x]
      ensures forall n :: n in classes ==> n in old(classes) && classes[n] == old(classes)[n]
      ensures host.commandCalls == old(host.commandCalls) + (if m !in old(pladdons) then Reregistrations(m.commandList) else [])
      ensures !escaped ==> forall x :: x in old(modules) && x != m ==> x in modules
      ensures !escaped ==> forall x :: x in modules ==> x in old(modules)
      ensures !escaped && m !in old(pladdons) ==> m !in modules
      ensures |old(host.commandCalls)| <= |host.commandCalls|
      ensures !escaped ==> forall x :: x != m ==> (x in pladdons <==> x in old(pladdons))
      ensures !escaped ==>
        && |old(bus.published)| <= |bus.published| && bus.published[..|old(bus.published)|] == old(bus.published)
        && Announces(bus.published[|old(bus.published)|..], DisableEvent, if m !in old(pladdons) then [m] else [])
    {
      escaped := false;
      if m !in pladdons {
        escaped := Disable(m);
      } else {
        assert bus.published[|bus.published|..] == [];
        assert host.commandCalls + [] == host.commandCalls;
      }
    }

    /** The pass of `disableAddons` over the ENABLED modules: each one that
        is not a pladdon (checked as its turn comes) is disabled, until a
        `LinkageError` escapes. */
    method DisableEach(ms: seq<Module>) returns (escaped: bool)
      requires Valid() && Distinct(ms)
      requires forall i :: 0 <= i < |ms| ==> ms[i] in modules && ms[i].state == ENABLED
      modifies this`modules, this`listeners, this`loaders, this`pladdons, this`classes, (set m | m in ms)`state
      modifies host`listenerCalls, host`commandCalls, host`pluginCalls, bus`published
      ensures Valid()
      ensures escaped <==> exists i :: 0 <= i < |ms| && ms[i] !in old(pladdons) && ms[i].code.onDisable == LinkageError
      ensures !escaped ==> forall i :: 0 <= i < |ms| && ms[i] !in old(pladdons) ==> ms[i] !in modules
      // a `LinkageError` stops the pass at the first module that throws one:
      // the modules before it are gone, it and the rest are still listed
      ensures escaped ==>
        var k := FirstEscape(ms, old(pladdons));
        && k < |ms|
        && (forall j :: 0 <= j < k && ms[j] !in old(pladdons) ==> ms[j] !in modules)
        && (forall j :: k <= j < |ms| ==> ms[j] in modules && ms[j].state == ENABLED && (ms[j] in pladdons <==> ms[j] in old(pladdons)))
        && (forall j :: k <= j < |ms| && ms[j] in old(loaders) ==> ms[j] in loaders && loaders[ms[j]] == old(loaders)[ms[j]])
      ensures forall n :: n in classes ==> n in old(classes) && classes[n] == old(classes)[n]
      ensures RegistersOnly(old(host.commandCalls), host.commandCalls)
      ensures |old(host.commandCalls)| <= |host.commandCalls|
      ensures !escaped ==>
        && |old(bus.published)| <= |bus.published| && bus.published[..|old(bus.published)|] == old(bus.published)
        && Announces(bus.published[|old(bus.published)|..], DisableEvent, Unpladdoned(ms, old(pladdons)))
    {
      ghost var start, pl0, lo0, cl0, c0 := bus.published, pladdons, loaders, classes, host.commandCalls;
      assert ms[..0] == [];
      var i := 0;
      while i < |ms|
        invariant 0 <= i <= |ms| && Valid()
        invariant DisablePass(ms, i, pl0, lo0, cl0, c0, start)
      {
        var e := DisableAt(ms, i, pl0, lo0, cl0, c0, start);
        if e {
          return true;
        }
        i := i + 1;
      }
      assert ms[..i] == ms;
      escaped := false;
    }

    /** Where the pass of `disableAddons` stands before the module at `i`:
        the earlier non-pladdons are gone and were announced, the rest are
        listed and ENABLED with their pladdon and loader entries, the shared
        class table has only lost entries, and only registrations were added
        to the command log. */
    ghost predicate DisablePass(ms: seq<Module>, i: nat, pl0: map<Module, Plugin>, lo0: map<Module, ModuleClassLoader>,
                                cl0: map<string, JavaClass>, c0: seq<CommandCall>, start: seq<ModuleBaseEvent>)
      reads this, host, bus, (set m | m in ms)`state
    {
      && i <= |ms|
      && (forall j :: i <= j < |ms| ==>
            && ms[j] in modules && ms[j].state == ENABLED && (ms[j] in pladdons <==> ms[j] in pl0)
            && (ms[j] in lo0 ==> ms[j] in loaders && loaders[ms[j]] == lo0[ms[j]]))
      && (forall j :: 0 <= j < i && ms[j] !in pl0 ==> ms[j].code.onDisable != LinkageError && ms[j] !in modules)
      && |start| <= |bus.published| && bus.published[..|start|] == start
      && Announces(bus.published[|start|..], DisableEvent, Unpladdoned(ms[..i], pl0))
      && RegistersOnly(c0, host.commandCalls)
      && (forall n :: n in classes ==> n in cl0 && classes[n] == cl0[n])
    }

    /** One turn of the pass of `disableAddons`: the module at `i` is
        disabled unless it is a pladdon, or the pass stops there. */
    method DisableAt(ms: seq<Module>, i: nat, ghost pl0: map<Module, Plugin>, ghost lo0: map<Module, ModuleClassLoader>,
                     ghost cl0: map<string, JavaClass>, ghost c0: seq<CommandCall>, ghost start: seq<ModuleBaseEvent>)
      returns (escaped: bool)
      requires Valid() && Distinct(ms) && i < |ms| && DisablePass(ms, i, pl0, lo0, cl0, c0, start)
      modifies this`modules, this`listeners, this`loaders, this`pladdons, this`classes, (set m | m in ms)`state
      modifies host`listenerCalls, host`commandCalls, host`pluginCalls, bus`published
      ensures Valid()
      ensures escaped ==> FirstEscape(ms, pl0) == i && DisablePass(ms, i, pl0, lo0, cl0, c0, start)
      ensures !escaped ==> DisablePass(ms, i + 1, pl0, lo0, cl0, c0, start)
    {
      var m := ms[i];
      ghost var before := bus.published;
      ghost var calls := host.commandCalls;
      ghost var inPl := m in pladdons;
      assert (m !in pl0) == !inPl;
      escaped := DisableUnlessPladdon(m);
      RegistersOnlyAppend(c0, calls, if !inPl then Reregistrations(m.commandList) else []);
      if escaped {
        assert FirstEscape(ms, pl0) == i;
        return;
      }
      AnnouncesUnpladdonedStep(before, bus.published, |start|, ms, i, pl0);
      assert forall j :: i < j < |ms| ==> ms[j] != m;
    }

    /** `disableAddons`: the ENABLED modules that are not pladdons are
        disabled; unless a `LinkageError` escapes, `unregisterCommands` is
        called and every table and the list are cleared. */
    method DisableAddons() returns (escaped: bool)
      requires Valid()
      modifies this`modules, this`listeners, this`loaders, this`pladdons, this`classes, (set m | m in modules)`state
      modifies host`listenerCalls, host`commandCalls, host`pluginCalls, bus`published
      ensures Valid()
      ensures escaped <==> exists m :: m in old(WithState(modules, ENABLED)) && m !in old(pladdons) && m.code.onDisable == LinkageError
      // a `LinkageError` escapes before `unregisterCommands` and the clearing
      ensures escaped ==>
        var ms := old(WithState(modules, ENABLED));
        var k := FirstEscape(ms, old(pladdons));
        && k < |ms|
        && (forall j :: 0 <= j < k && ms[j] !in old(pladdons) ==> ms[j] !in modules)
        && (forall j :: k <= j < |ms| ==> ms[j] in modules && ms[j].state == ENABLED && (ms[j] in pladdons <==> ms[j] in old(pladdons)))
        && (forall j :: k <= j < |ms| && ms[j] in old(loaders) ==> ms[j] in loaders && loaders[ms[j]] == old(loaders)[ms[j]])
      ensures escaped ==> RegistersOnly(old(host.commandCalls), host.commandCalls)
      ensures escaped ==> forall n :: n in classes ==> n in old(classes) && classes[n] == old(classes)[n]
      ensures !escaped ==> modules == [] && loaders == map[] && pladdons == map[] && classes == map[] && listeners == map[]
      ensures !escaped ==>
        && |old(host.commandCalls)| < |host.commandCalls| && host.commandCalls[|host.commandCalls| - 1] == CommandsUnregistered
        && |old(bus.published)| <= |bus.published| && bus.published[..|old(bus.published)|] == old(bus.published)
        && Announces(bus.published[|old(bus.published)|..], DisableEvent, Unpladdoned(old(WithState(modules, ENABLED)), old(pladdons)))
      ensures old(WithState(modules, ENABLED)) == [] ==>
        && !escaped && host.commandCalls == old(host.commandCalls) + [CommandsUnregistered]
        && bus.published == old(bus.published) && host.pluginCalls == old(host.pluginCalls)
        && host.listenerCalls == old(host.listenerCalls)
    {
      var enabled := WithState(modules, ENABLED);
      WithStateWithin(modules, ENABLED);
      if enabled != [] {
        escaped := DisableEach(enabled);
        if escaped {
          return;
        }
      }
      escaped := false;
      ClearAll();
    }

    /** The end of `disableAddons`: the command manager's
        `unregisterCommands` call is recorded and the tables and the list are
        cleared. */
    method ClearAll()
      modifies this`modules, this`listeners, this`loaders, this`pladdons, this`classes, host`commandCalls
      ensures Valid()
      ensures modules == [] && loaders == map[] && pladdons == map[] && classes == map[] && listeners == map[]
      ensures host.commandCalls == old(host.commandCalls) + [CommandsUnregistered]
    {
      host.commandCalls := host.commandCalls + [CommandsUnregistered];
      listeners := map[];
      pladdons := map[];
      modules := [];
      loaders := map[];
      classes := map[];
    }

    /** `allLoaded(module)`: run the hook; a failure marks the module
        INCOMPATIBLE or ERROR and disables it, which cannot escape because the
        module is no longer ENABLED. */
    method AllLoadedOne(m: Module)
      requires Valid()
      modifies this`modules, this`listeners, this`loaders, this`pladdons, this`classes, m`state
      modifies host`listenerCalls, host`commandCalls, host`pluginCalls, bus`published
      ensures Valid() && bus.published == old(bus.published)
      ensures m.state == AfterAllLoaded(m, old(m.state), m in old(loaders))
      ensures !Failed(m.code.allLoaded) ==>
        && modules == old(modules) && loaders == old(loaders) && pladdons == old(pladdons)
        && listeners == old(listeners) && classes == old(classes)
        && host.listenerCalls == old(host.listenerCalls) && host.commandCalls == old(host.commandCalls)
        && host.pluginCalls == old(host.pluginCalls)
      ensures Failed(m.code.allLoaded) ==>
        && modules == RemoveFirst(old(modules), m) && m !in modules
        && loaders == old(loaders) - {m} && pladdons == old(pladdons) - {m} && listeners == old(listeners) - {m}
        && classes == (if m in old(loaders) then old(classes) - old(loaders[m].classes.Keys) else old(classes))
        && host.listenerCalls == old(host.listenerCalls) + (if m in old(listeners) then Unregistrations(old(listeners)[m]) else [])
        && host.commandCalls == old(host.commandCalls) + Reregistrations(m.commandList)
        && host.pluginCalls == old(host.pluginCalls) + (if m in old(pladdons) then [PluginDisabled(old(pladdons)[m])] else [])
    {
      match m.code.allLoaded {
        case Completes =>
        case DisablesItself =>
          m.state := DISABLED;
        case LinkageError =>
          m.state := INCOMPATIBLE;
          var escaped := Disable(m);
          assert bus.published == old(bus.published)[..] + bus.published[|old(bus.published)|..];
        case Exception =>
          m.state := ERROR;
          var escaped := Disable(m);
          assert bus.published == old(bus.published)[..] + bus.published[|old(bus.published)|..];
      }
    }

    /** `getClassByName`: the loaders are asked in unspecified (hash) order,
        without the global step, until one answers; the default thus computed
        is overridden by a class published under the name. */
    method GetClassByName(name: string) returns (r: Option<JavaClass>)
      requires OwnsLoaders()
      modifies this`classes, loaders.Values`classes
      decreases 2
      ensures name in old(classes) ==> r == Some(old(classes)[name])
      ensures classes == old(classes) || (name !in old(classes) && r.Some? && classes == old(classes)[name := r.value])
      ensures r.None? ==> forall l :: l in loaders.Values ==>
        StartsWith(name, ReservedPrefix) || (name in l.classes && l.classes[name].None?)
      ensures forall l :: l in loaders.Values ==> KeptExcept(l, name)
      ensures name !in old(classes) && old(AllLack(loaders.Values, name)) ==> r.None?
    {
      var probe := ProbeLoaders(name);
      r := if name in classes then Some(classes[name]) else probe;
    }

    /** The stream inside `getClassByName`: `findClass(name, false)` on each
        loader in turn until one yields a class. */
    method ProbeLoaders(name: string) returns (probe: Option<JavaClass>)
      requires OwnsLoaders()
      modifies this`classes, loaders.Values`classes
      decreases 1
      ensures probe.None? ==> classes == old(classes)
      ensures classes == old(classes) || (name !in old(classes) && probe.Some? && classes == old(classes)[name := probe.value])
      ensures probe.None? ==> forall l :: l in loaders.Values ==>
        StartsWith(name, ReservedPrefix) || (name in l.classes && l.classes[name].None?)
      ensures forall l :: l in loaders.Values ==> KeptExcept(l, name)
      ensures old(AllLack(loaders.Values, name)) ==> probe.None?
    {
      probe := None;
      var left := loaders.Values;
      ghost var visited: set<ModuleClassLoader> := {};
      ghost var allLack := AllLack(left, name);
      while left != {} && probe.None?
        invariant visited + left == loaders.Values
        invariant probe.None? ==> classes == old(classes)
        invariant classes == old(classes) || (name !in old(classes) && probe.Some? && classes == old(classes)[name := probe.value])
        invariant probe.None? ==> forall l :: l in visited ==>
          StartsWith(name, ReservedPrefix) || (name in l.classes && l.classes[name].None?)
        invariant forall l :: l in loaders.Values ==> KeptExcept(l, name)
        invariant allLack ==> probe.None? && AllLack(left, name)
        decreases left
      {
        var l :| l in left;
        ghost var pre := l.classes;
        probe := l.FindClass(name, false);
        if !StartsWith(name, ReservedPrefix) {
          UpdateHidden(pre, name, probe);
        }
        left, visited := left - {l}, visited + {l};
      }
    }

    /** `allLoaded()`: tell every ENABLED module that all modules are loaded;
        a module whose hook fails is disabled and leaves the list. */
    method AllLoaded()
      requires Valid()
      modifies this`modules, this`listeners, this`loaders, this`pladdons, this`classes, (set m | m in modules)`state
      modifies host`listenerCalls, host`commandCalls, host`pluginCalls, bus`published
      ensures Valid() && bus.published == old(bus.published)
      ensures forall m :: m in old(modules) ==>
        m.state == (if old(m.state) == ENABLED then AfterAllLoaded(m, ENABLED, m in old(loaders)) else old(m.state))
      ensures forall m :: m in old(modules) ==>
        (m in modules <==> !(old(m.state) == ENABLED && Failed(m.code.allLoaded)))
      ensures forall m :: m in modules ==> m in old(modules)
      ensures loaders == old(loaders) - Dropped(old(WithState(modules, ENABLED)))
      ensures pladdons == old(pladdons) - Dropped(old(WithState(modules, ENABLED)))
      ensures listeners == old(listeners) - Dropped(old(WithState(modules, ENABLED)))
      ensures classes == old(classes) -
        DroppedClassNames(old(WithState(modules, ENABLED)), old(map m | m in loaders :: loaders[m].classes.Keys))
      ensures host.listenerCalls == old(host.listenerCalls) + DroppedListenerCalls(old(WithState(modules, ENABLED)), old(listeners))
      ensures host.commandCalls == old(host.commandCalls) + old(DroppedCommandCalls(WithState(modules, ENABLED)))
      ensures host.pluginCalls == old(host.pluginCalls) + DroppedPluginCalls(old(WithState(modules, ENABLED)), old(pladdons))
    {
      var enabled := WithState(modules, ENABLED);
      WithStateWithin(modules, ENABLED);
      AllLoadedEach(enabled);
      forall m | m in old(modules) && old(m.state) == ENABLED ensures m in enabled {
        var k :| 0 <= k < |old(modules)| && old(modules)[k] == m;
      }
    }

    /** The loop of `allLoaded()` over the modules that were ENABLED. */
    method AllLoadedEach(ms: seq<Module>)
      requires Valid() && Distinct(ms)
      requires forall m :: m in ms ==> m in modules && m.state == ENABLED
      modifies this`modules, this`listeners, this`loaders, this`pladdons, this`classes, (set m | m in ms)`state
      modifies host`listenerCalls, host`commandCalls, host`pluginCalls, bus`published
      ensures Valid() && bus.published == old(bus.published)
      ensures forall m :: m in ms ==> m.state == AfterAllLoaded(m, ENABLED, m in old(loaders))
      ensures forall m :: m in ms ==> (m in modules <==> !Failed(m.code.allLoaded))
      ensures forall m :: m in old(modules) && m !in ms ==> m in modules
      ensures forall m :: m in modules ==> m in old(modules)
      ensures loaders == old(loaders) - Dropped(ms) && pladdons == old(pladdons) - Dropped(ms)
      ensures listeners == old(listeners) - Dropped(ms)
      ensures classes == old(classes) - DroppedClassNames(ms, old(map m | m in loaders :: loaders[m].classes.Keys))
      ensures host.listenerCalls == old(host.listenerCalls) + DroppedListenerCalls(ms, old(listeners))
      ensures host.commandCalls == old(host.commandCalls) + DroppedCommandCalls(ms)
      ensures host.pluginCalls == old(host.pluginCalls) + DroppedPluginCalls(ms, old(pladdons))
    {
      ghost var ms0 := modules;
      ghost var t := Tables(loaders, map m | m in loaders :: loaders[m].classes.Keys, pladdons, listeners, classes,
                            host.listenerCalls, host.commandCalls, host.pluginCalls);
      assert t.names.Keys == t.loaders.Keys;
      for i := 0 to |ms|
        invariant Valid() && bus.published == old(bus.published)
        invariant Visiting(ms, i, t, ms0)
      {
        AllLoadedStep(ms, i, ms[i], t, ms0);
      }
      assert ms[..|ms|] == ms;
    }

    /** The tables and logs now, with the given class names per loader. */
    ghost function Now(names: map<Module, set<string>>): Tables
      reads this, host
    {
      Tables(loaders, names, pladdons, listeners, classes, host.listenerCalls, host.commandCalls, host.pluginCalls)
    }

    /** Where the loop of `allLoaded()` stands before visiting `ms[i]`: the
        modules still to visit are listed and ENABLED, the visited ones have
        taken their state and stay listed iff their hook did not fail, the
        ledger records what the failures did, and no other module left. */
    ghost predicate Visiting(ms: seq<Module>, i: nat, t: Tables, ms0: seq<Module>)
      reads this, host, set x | x in ms
    {
      && i <= |ms|
      && (forall j :: i <= j < |ms| ==> ms[j] in modules && ms[j].state == ENABLED && (ms[j] in loaders <==> ms[j] in t.loaders))
      && Ledger(t, ms[..i], Now(t.names))
      && (forall j :: 0 <= j < i ==> ms[j].state == AfterAllLoaded(ms[j], ENABLED, ms[j] in t.loaders))
      && (forall j :: 0 <= j < i ==> (ms[j] in modules <==> !Failed(ms[j].code.allLoaded)))
      && (forall x :: x in ms0 && x !in ms ==> x in modules)
      && (forall x :: x in modules ==> x in ms0)
    }

    /** One turn of the loop of `allLoaded()`, seen from the whole list. */
    method AllLoadedStep(ms: seq<Module>, i: nat, m: Module, ghost t: Tables, ghost ms0: seq<Module>)
      requires Valid() && Distinct(ms) && i < |ms| && m == ms[i]
      requires t.names.Keys == t.loaders.Keys && forall k :: k in t.loaders ==> t.names[k] == t.loaders[k].classes.Keys
      requires Visiting(ms, i, t, ms0)
      modifies this`modules, this`listeners, this`loaders, this`pladdons, this`classes, m`state
      modifies host`listenerCalls, host`commandCalls, host`pluginCalls, bus`published
      ensures Valid() && bus.published == old(bus.published)
      ensures Visiting(ms, i + 1, t, ms0)
    {
      AllLoadedLedger(m, t, ms, i);
      forall j | 0 <= j < |ms| && j != i
        ensures ms[j] != m && ms[j].state == old(ms[j].state)
        ensures ms[j] in modules <==> ms[j] in old(modules)
        ensures ms[j] in loaders <==> ms[j] in old(loaders)
      {
        assert ms[j] != m;
      }
    }

    /** `allLoaded(m)` for the module at position `i`, with what it does to
        the tables and logs recorded in the ledger. */
    method AllLoadedLedger(m: Module, ghost t: Tables, ghost ms: seq<Module>, ghost i: nat)
      requires Valid() && Distinct(ms) && i < |ms| && m == ms[i]
      requires t.names.Keys == t.loaders.Keys && forall k :: k in t.loaders ==> t.names[k] == t.loaders[k].classes.Keys
      requires Ledger(t, ms[..i], Now(t.names))
      modifies this`modules, this`listeners, this`loaders, this`pladdons, this`classes, m`state
      modifies host`listenerCalls, host`commandCalls, host`pluginCalls, bus`published
      ensures Valid() && bus.published == old(bus.published)
      ensures m.state == AfterAllLoaded(m, old(m.state), m in old(loaders))
      ensures !Failed(m.code.allLoaded) ==> modules == old(modules) && loaders == old(loaders)
      ensures Failed(m.code.allLoaded) ==>
        modules == RemoveFirst(old(modules), m) && m !in modules && loaders == old(loaders) - {m}
      ensures Ledger(t, ms[..i + 1], Now(t.names))
    {
      assert m in loaders ==> m in t.loaders && loaders[m] == t.loaders[m];
      ghost var before := AllLoadedOneStep(m, t.names);
      LedgerTablesStep(t, ms, i, before, Now(t.names));
      LedgerCallsStep(t, ms, i, before, Now(t.names));
    }

    /** `allLoaded(m)`, with its effect on the tables and logs stated as one
        step between two snapshots. */
    method AllLoadedOneStep(m: Module, ghost names: map<Module, set<string>>) returns (ghost before: Tables)
      requires Valid() && (m in loaders ==> m in names && names[m] == loaders[m].classes.Keys)
      modifies this`modules, this`listeners, this`loaders, this`pladdons, this`classes, m`state
      modifies host`listenerCalls, host`commandCalls, host`pluginCalls, bus`published
      ensures Valid() && bus.published == old(bus.published)
      ensures m.state == AfterAllLoaded(m, old(m.state), m in old(loaders))
      ensures !Failed(m.code.allLoaded) ==> modules == old(modules) && loaders == old(loaders)
      ensures Failed(m.code.allLoaded) ==>
        modules == RemoveFirst(old(modules), m) && m !in modules && loaders == old(loaders) - {m}
      ensures before == old(Now(names))
      ensures StepTables(before, Now(names), m) && StepCalls(before, Now(names), m)
    {
      before := Now(names);
      AllLoadedOne(m);
    }

    // ---------------------------------------------------------- loading

    /** `new ModuleClassLoader(this, data, jar, …)` and, when the loader is
        built, `loaders.put(module, loader)`. */
    method LoadWithClassLoader(data: Manifest, archive: map<string, JavaClass>)
      returns (r: Result<Module, LoadError>, found: Option<JavaClass>)
      requires Valid()
      modifies this`loaders, this`classes, loaders.Values`classes
      ensures Valid()
      ensures "main" !in data ==> r == Err(NoMain)
      ensures "main" in data && data["main"] in parentClasses ==> found == Some(parentClasses[data["main"]])
      ensures "main" in data && data["main"] !in parentClasses && !StartsWith(data["main"], ReservedPrefix) ==>
        && (data["main"] in old(classes) ==> found == Some(old(classes)[data["main"]]))
        && (data["main"] in archive ==> found.Some?)
      ensures "main" in data && found.None? ==> r == Err(ClassNotFound(data["main"]))
      ensures "main" in data && found.Some? && !StartsWith(data["main"], ReservedPrefix) && !found.value.extendsModule ==>
        r == Err(InvalidInherit(data["main"]))
      ensures "main" in data && found.Some? && !StartsWith(data["main"], ReservedPrefix) && found.value.extendsModule &&
              !found.value.instantiable ==>
        r == Err(NotInstantiable(data["main"]))
      ensures "main" in data && found.Some? && !StartsWith(data["main"], ReservedPrefix) && found.value.extendsModule &&
              found.value.instantiable ==>
        AsDescription(data, host.materials).Ok? ==> r.Ok?
      ensures r.Ok? ==> found.Some? && found.value.extendsModule && found.value.instantiable && r.value.code == found.value.code
      ensures AsDescription(data, host.materials).Err? ==> r.Err?
      ensures old(ClassLoaderAccepts(data, archive)) ==> r.Ok?
      ensures r.Err? ==> loaders == old(loaders)
      ensures r.Ok? ==>
        && fresh(r.value) && r.value.state == DISABLED
        && r.value.description == Some(AsDescription(data, host.materials).value.description)
        && r.value in loaders && fresh(loaders[r.value]) && loaders[r.value].archive == archive
        && loaders == old(loaders)[r.value := loaders[r.value]]
    {
      var loader := new ModuleClassLoader(this, archive);
      r, found := loader.Init(data);
      if r.Ok? {
        Register(r.value, loader);
      }
    }

    /** `loaders.put(module, loader)` */
    method Register(m: Module, loader: ModuleClassLoader)
      requires Valid() && loader.manager == this
      modifies this`loaders
      ensures Valid() && loaders == old(loaders)[m := loader]
    {
      loaders := loaders[m := loader];
    }

    /** The class-loader path of `loadPladdon` succeeds: the manifest is valid,
        and its main class, outside the plugin's own package, extends `Module`
        and can be instantiated.
        The class is the parent loader's, else the one add-ons already share,
        else, when no add-on loader holds the name, the jar's own. */
    predicate ClassLoaderAccepts(data: Manifest, archive: map<string, JavaClass>)
      reads this, loaders.Values
    {
      && AsDescription(data, host.materials).Ok?
      && !StartsWith(data["main"], ReservedPrefix)
      && MainClassBuilds(data["main"], archive)
    }

    /** The main class a new loader finds extends `Module` and can be
        instantiated, in the cases where which class it finds is determined. */
    predicate MainClassBuilds(main: string, archive: map<string, JavaClass>)
      reads this, loaders.Values
    {
      if main in parentClasses then Builds(parentClasses[main])
      else if main in classes then Builds(classes[main])
      else AllLack(loaders.Values, main) && main in archive && Builds(archive[main])
    }

    /** `loadPladdon`: a jar the server loads as a `Pladdon` gives its module,
        described by `addon.yml`, and is marked enabled; any other jar, and a
        pladdon whose description throws, is loaded with a class loader
        (twice for a plugin that is not a pladdon, as the first failure is
        caught). `None` stands for the exception that escapes. */
    method LoadPladdon(data: Manifest, jar: Jar) returns (r: Option<Module>)
      requires Valid()
      modifies this`loaders, this`pladdons, this`classes, loaders.Values`classes, host`pluginCalls
      ensures Valid()
      ensures forall l :: l in loaders.Values ==> l in old(loaders.Values) || fresh(l)
      ensures AsDescription(data, host.materials).Err? ==>
        r.None? && loaders == old(loaders) && pladdons == old(pladdons) && host.pluginCalls == old(host.pluginCalls)
      ensures r.Some? ==>
        && fresh(r.value) && r.value.state == DISABLED
        && r.value.description == Some(AsDescription(data, host.materials).value.description)
      ensures jar.plugin.IsPladdon? && AsDescription(data, host.materials).Ok? ==>
        && r.Some? && r.value.code == jar.plugin.code && loaders == old(loaders)
        && pladdons == old(pladdons)[r.value := jar.plugin.plugin]
        && host.pluginCalls == old(host.pluginCalls) + [PluginEnabled(jar.plugin.plugin)]
      ensures !jar.plugin.IsPladdon? && old(ClassLoaderAccepts(data, jar.archive)) ==> r.Some?
      ensures !jar.plugin.IsPladdon? ==>
        && pladdons == old(pladdons) && host.pluginCalls == old(host.pluginCalls)
        && (r.None? ==> loaders == old(loaders))
        && (r.Some? ==> r.value in loaders && loaders[r.value].archive == jar.archive
                        && loaders == old(loaders)[r.value := loaders[r.value]])
    {
      match jar.plugin {
        case IsPladdon(plugin, code) =>
          r := LoadAsPladdon(data, plugin, code, jar.archive);
        case NotPladdon =>
          r := LoadFallback(data, jar.archive, true);
        case LoadFails =>
          r := LoadFallback(data, jar.archive, false);
      }
    }

    /** The pladdon branch of `loadPladdon`: a described pladdon is enabled
        on the host and recorded; otherwise one class-loader attempt. */
    method LoadAsPladdon(data: Manifest, plugin: Plugin, code: ModuleCode, archive: map<string, JavaClass>)
      returns (r: Option<Module>)
      requires Valid()
      modifies this`loaders, this`pladdons, this`classes, loaders.Values`classes, host`pluginCalls
      ensures Valid()
      ensures forall l :: l in loaders.Values ==> l in old(loaders.Values) || fresh(l)
      ensures AsDescription(data, host.materials).Err? ==>
        r.None? && loaders == old(loaders) && pladdons == old(pladdons) && host.pluginCalls == old(host.pluginCalls)
      ensures r.Some? ==>
        && fresh(r.value) && r.value.state == DISABLED
        && r.value.description == Some(AsDescription(data, host.materials).value.description)
      ensures AsDescription(data, host.materials).Ok? ==>
        && r.Some? && r.value.code == code && loaders == old(loaders)
        && pladdons == old(pladdons)[r.value := plugin]
        && host.pluginCalls == old(host.pluginCalls) + [PluginEnabled(plugin)]
    {
      var parsed := AsDescription(data, host.materials);
      if parsed.Ok? {
        var m := AdoptPladdon(plugin, code, parsed.value.description);
        return Some(m);
      }
      r := LoadFallback(data, archive, false);
    }

    /** A described pladdon: its add-on carries the description, the host
        enables the plugin, and the add-on is recorded as a pladdon. */
    method AdoptPladdon(plugin: Plugin, code: ModuleCode, d: Description) returns (m: Module)
      requires Valid()
      modifies this`pladdons, host`pluginCalls
      ensures Valid()
      ensures fresh(m) && m.state == DISABLED && m.code == code && m.description == Some(d)
      ensures pladdons == old(pladdons)[m := plugin]
      ensures host.pluginCalls == old(host.pluginCalls) + [PluginEnabled(plugin)]
    {
      m := new Module(code);
      m.description := Some(d);
      host.pluginCalls := host.pluginCalls + [PluginEnabled(plugin)];
      pladdons := pladdons[m := plugin];
    }

    /** The class-loader branches of `loadPladdon`: one attempt, or two when
        the first one's exception is caught and the loader built again. */
    method LoadFallback(data: Manifest, archive: map<string, JavaClass>, twice: bool) returns (r: Option<Module>)
      requires Valid()
      modifies this`loaders, this`classes, loaders.Values`classes
      ensures Valid()
      ensures forall l :: l in loaders.Values ==> l in old(loaders.Values) || fresh(l)
      ensures AsDescription(data, host.materials).Err? ==> r.None?
      ensures old(ClassLoaderAccepts(data, archive)) ==> r.Some?
      ensures r.None? ==> loaders == old(loaders)
      ensures r.Some? ==>
        && fresh(r.value) && r.value.state == DISABLED
        && r.value.description == Some(AsDescription(data, host.materials).value.description)
        && r.value in loaders && loaders[r.value].archive == archive
        && loaders == old(loaders)[r.value := loaders[r.value]]
    {
      var loaded, _ := LoadWithClassLoader(data, archive);
      if twice && loaded.Err? {
        loaded := LoadAgain(data, archive);
      }
      r := Built(loaded);
    }

    /** The second class-loader attempt, made after the first one failed
        and left the loaders as they were. */
    method LoadAgain(data: Manifest, archive: map<string, JavaClass>) returns (r: Result<Module, LoadError>)
      requires Valid()
      modifies this`loaders, this`classes, loaders.Values`classes
      ensures Valid()
      ensures forall l :: l in loaders.Values ==> l in old(loaders.Values) || fresh(l)
      ensures AsDescription(data, host.materials).Err? ==> r.Err?
      ensures old(ClassLoaderAccepts(data, archive)) ==> r.Ok?
      ensures r.Err? ==> loaders == old(loaders)
      ensures r.Ok? ==>
        && fresh(r.value) && r.value.state == DISABLED
        && r.value.description == Some(AsDescription(data, host.materials).value.description)
        && r.value in loaders && loaders[r.value].archive == archive
        && loaders == old(loaders)[r.value := loaders[r.value]]
    {
      var loaded, _ := LoadWithClassLoader(data, archive);
      r := loaded;
    }

    /** `loadAddon`: read `addon.yml`, refuse a main class already listed,
        load the module and initialise it. `None` when nothing was loaded. */
    method LoadAddon(jar: Jar) returns (loaded: Option<Module>)
      requires Valid()
      modifies this`modules, this`loaders, this`pladdons, this`classes, loaders.Values`classes
      modifies host`pluginCalls, bus`published
      ensures Valid()
      ensures forall l :: l in loaders.Values ==> l in old(loaders.Values) || fresh(l)
      ensures loaded.None? ==> modules == old(modules) && bus.published == old(bus.published)
      ensures jar.manifest.None? || ("main" in jar.manifest.value && old(GetAddonByMainClassName(jar.manifest.value["main"])).Some?) ==>
        && loaded.None? && loaders == old(loaders) && pladdons == old(pladdons) && classes == old(classes)
        && host.pluginCalls == old(host.pluginCalls)
      ensures jar.manifest.Some? && AsDescription(jar.manifest.value, host.materials).Err? ==> loaded.None?
      ensures loaded.Some? ==>
        && jar.manifest.Some? && AsDescription(jar.manifest.value, host.materials).Ok?
        && fresh(loaded.value) && modules == old(modules) + [loaded.value]
        && loaded.value.description == Some(AsDescription(jar.manifest.value, host.materials).value.description)
        && loaded.value.state == StateAfterLoad(loaded.value.code.onLoad)
        && |bus.published| == |old(bus.published)| + 1 && bus.published[..|old(bus.published)|] == old(bus.published)
        && Announces(bus.published[|old(bus.published)|..], LoadEvent, [loaded.value])
      ensures !jar.plugin.IsPladdon? && jar.manifest.Some? && old(ClassLoaderAccepts(jar.manifest.value, jar.archive)) &&
              !old(GetAddonByMainClassName(jar.manifest.value["main"])).Some? ==>
        && loaded.Some? && loaded.value in loaders && loaders == old(loaders)[loaded.value := loaders[loaded.value]]
        && loaders[loaded.value].archive == jar.archive && pladdons == old(pladdons)
      ensures jar.plugin.IsPladdon? && jar.manifest.Some? && AsDescription(jar.manifest.value, host.materials).Ok? &&
              !("main" in jar.manifest.value && old(GetAddonByMainClassName(jar.manifest.value["main"])).Some?) ==>
        && loaded.Some? && loaded.value.code == jar.plugin.code
        && pladdons == old(pladdons)[loaded.value := jar.plugin.plugin]
        && host.pluginCalls == old(host.pluginCalls) + [PluginEnabled(jar.plugin.plugin)]
    {
      if jar.manifest.None? {
        return None;
      }
      var data := jar.manifest.value;
      if "main" in data && GetAddonByMainClassName(data["main"]).Some? {
        return None;
      }
      loaded := LoadPladdon(data, jar);
      if loaded.Some? {
        var m := loaded.value;
        InitializeAddon(m);
        assert RemoveFirst(old(modules), m) == old(modules);
      }
    }

    /** The loop of `loadAddons` over the jars of the add-on folder, in
        listing order: the modules it adds, in order. */
    method LoadEach(jars: seq<Jar>) returns (added: seq<Module>, ghost outcomes: seq<Option<Module>>)
      requires Valid()
      modifies this`modules, this`loaders, this`pladdons, this`classes, loaders.Values`classes
      modifies host`pluginCalls, bus`published
      ensures Valid()
      ensures forall l :: l in loaders.Values ==> l in old(loaders.Values) || fresh(l)
      ensures modules == old(modules) + added && |added| <= |jars|
      ensures forall m :: m in added ==> fresh(m) && m.state == StateAfterLoad(m.code.onLoad)
      // jar by jar: what each one loaded, in listing order
      ensures added == Somes(outcomes) && EachLoadedFrom(jars, outcomes, host.materials)
    {
      added, outcomes := [], [];
      for i := 0 to |jars|
        invariant Valid() && modules == old(modules) + added
        invariant forall m :: m in added ==> fresh(m) && m.state == StateAfterLoad(m.code.onLoad)
        invariant forall l :: l in loaders.Values ==> l in old(loaders.Values) || fresh(l)
        invariant added == Somes(outcomes) && EachLoadedFrom(jars[..i], outcomes, host.materials)
      {
        var loaded;
        loaded, added, outcomes := LoadNext(jars, i, added, outcomes);
      }
      assert jars[..|jars|] == jars;
    }

    /** One turn of the loop of `loadAddons`: load the next jar and record
        what it loaded. */
    method LoadNext(jars: seq<Jar>, i: nat, added0: seq<Module>, ghost outcomes0: seq<Option<Module>>)
      returns (loaded: Option<Module>, added: seq<Module>, ghost outcomes: seq<Option<Module>>)
      requires Valid() && i < |jars| && added0 == Somes(outcomes0) && EachLoadedFrom(jars[..i], outcomes0, host.materials)
      modifies this`modules, this`loaders, this`pladdons, this`classes, loaders.Values`classes
      modifies host`pluginCalls, bus`published
      ensures Valid()
      ensures forall l :: l in loaders.Values ==> l in old(loaders.Values) || fresh(l)
      ensures loaded.Some? ==> fresh(loaded.value) && loaded.value.state == StateAfterLoad(loaded.value.code.onLoad)
      ensures added == added0 + (if loaded.Some? then [loaded.value] else [])
      ensures modules == old(modules) + (if loaded.Some? then [loaded.value] else [])
      ensures outcomes == outcomes0 + [loaded]
      ensures added == Somes(outcomes) && EachLoadedFrom(jars[..i + 1], outcomes, host.materials)
    {
      loaded := LoadAddon(jars[i]);
      added := added0 + (if loaded.Some? then [loaded.value] else []);
      EachLoadedFromSnoc(jars, i, outcomes0, loaded, host.materials);
      outcomes := outcomes0 + [loaded];
    }

    /** `loadAddons`: when the add-on folder exists or can be made, load each
        jar in it, then sort the modules if any of them is LOADED. */
    method LoadAddons(folderReady: bool, jars: seq<Jar>) returns (ghost added: seq<Module>, ghost outcomes: seq<Option<Module>>)
      requires Valid()
      modifies this`modules, this`loaders, this`pladdons, this`classes, loaders.Values`classes
      modifies host`pluginCalls, bus`published
      ensures Valid() && |added| <= |jars|
      ensures forall m :: m in added ==> fresh(m) && m.state == StateAfterLoad(m.code.onLoad)
      ensures !folderReady ==> added == [] && outcomes == [] && modules == old(modules)
      ensures folderReady ==> added == Somes(outcomes) && EachLoadedFrom(jars, outcomes, host.materials)
      ensures !folderReady ==> loaders == old(loaders) && pladdons == old(pladdons) && classes == old(classes)
      ensures !folderReady ==> host.pluginCalls == old(host.pluginCalls) && bus.published == old(bus.published)
      ensures !folderReady ==> forall l :: l in old(loaders.Values) ==> l.classes == old(l.classes)
      ensures |modules| <= |old(modules)| + |jars| && forall m :: m in modules ==> m in old(modules) || m in added
      ensures Described(old(modules) + added)
      ensures folderReady && !AnyInState(old(modules) + added, LOADED) ==> modules == old(modules) + added
      ensures folderReady && AnyInState(old(modules) + added, LOADED) ==> modules == Items(Sort(NodesOf(old(modules) + added)))
    {
      if !folderReady {
        return [], [];
      }
      added, outcomes := LoadEach(jars);
      ghost var ns := NodesOf(modules);
      SortIfLoaded();
      assert NodesOf(old(modules) + added) == ns;
    }

    /** The end of `loadAddons`: sort when some module is LOADED. */
    method SortIfLoaded()
      requires Valid()
      modifies this`modules
      ensures Valid()
      ensures !AnyInState(old(modules), LOADED) ==> modules == old(modules)
      ensures AnyInState(old(modules), LOADED) ==> modules == old(Items(Sort(NodesOf(modules))))
      ensures |modules| <= |old(modules)| && forall m :: m in modules ==> m in old(modules)
    {
      if AnyInState(modules, LOADED) {
        SortAddons();
      }
    }

    /** `reloadAddons`: disable every module, load the add-on folder again
        and enable what loaded. A `LinkageError` escaping the disable step
        ends it there. */
    method ReloadAddons(folderReady: bool, jars: seq<Jar>) returns (escaped: bool)
      requires Valid()
      modifies this`modules, this`listeners, this`loaders, this`pladdons, this`classes, (set m | m in modules)`state
      modifies host`listenerCalls, host`commandCalls, host`pluginCalls, host`permissions, bus`published
      ensures Valid()
      ensures escaped <==> exists m :: m in old(WithState(modules, ENABLED)) && m !in old(pladdons) && m.code.onDisable == LinkageError
      ensures !escaped ==> |modules| <= |jars| && forall m :: m in modules ==> fresh(m)
      ensures !escaped ==> forall i :: 0 <= i < |modules| ==> modules[i].state != LOADED
      ensures !escaped && !folderReady ==> modules == []
    {
      escaped := DisableAddons();
      if escaped {
        return;
      }
      ghost var added, outcomes := LoadAddons(folderReady, jars);
      EnableAddons();
    }

    // ---------------------------------------------------------- lookups

    /** `getAddonByName`: the first listed module whose name equals `name`
        ignoring case. */
    function GetAddonByName(name: string): (r: Option<Module>)
      reads this, (set m | m in modules)`description
      requires Valid()
      ensures r.None? <==> forall i :: 0 <= i < |modules| ==> !EqualsIgnoreCase(modules[i].description.value.name, name)
      ensures r.Some? ==> exists i :: 0 <= i < |modules| && modules[i] == r.value &&
                                    EqualsIgnoreCase(modules[i].description.value.name, name) &&
                                    (forall j :: 0 <= j < i ==> !EqualsIgnoreCase(modules[j].description.value.name, name))
    {
      match FirstMatch(modules, Name, name)
      case None => None
      case Some(i) => Some(modules[i])
    }

    /** `getAddonByMainClassName`: the first listed module whose main class
        equals `main` ignoring case. */
    function GetAddonByMainClassName(main: string): (r: Option<Module>)
      reads this, (set m | m in modules)`description
      requires Valid()
      ensures r.None? <==> forall i :: 0 <= i < |modules| ==> !EqualsIgnoreCase(modules[i].description.value.main, main)
      ensures r.Some? ==> exists i :: 0 <= i < |modules| && modules[i] == r.value &&
                                    EqualsIgnoreCase(modules[i].description.value.main, main) &&
                                    (forall j :: 0 <= j < i ==> !EqualsIgnoreCase(modules[j].description.value.main, main))
    {
      match FirstMatch(modules, Main, main)
      case None => None
      case Some(i) => Some(modules[i])
    }

    // ---------------------------------------------------------- sorting

    /** `sortAddons`: drop the modules with a missing hard dependency, seed a
        linked map with the modules without dependencies, make one pass over
        the rest, and list the map's values. */
    method SortAddons()
      requires Valid()
      modifies this`modules
      ensures Valid()
      ensures modules == old(Items(Sort(NodesOf(modules))))
      ensures forall m :: m in modules ==> m in old(modules)
      ensures |modules| <= |old(modules)|
    {
      SortedListValid(modules);
      var sorted := SortedModules(NodesOf(modules));
      assert Described(sorted);
      modules := sorted;
    }
  }

  // ------------------------------------------------------------ lookups

  /** The lookup by name ignores letter case: names that differ only in case
      find the same module. */
  lemma LookupIgnoresCase(manager: ModuleManager, a: string, b: string)
    requires manager.Valid() && EqualsIgnoreCase(a, b)
    ensures manager.GetAddonByName(a) == manager.GetAddonByName(b)
  {
    FirstMatchIgnoresCase(manager.modules, Name, a, b);
  }

  lemma FirstMatchIgnoresCase(ms: seq<Module>, f: Field, a: string, b: string)
    requires Described(ms) && EqualsIgnoreCase(a, b)
    ensures FirstMatch(ms, f, a) == FirstMatch(ms, f, b)
  {
    FirstMatchFromIgnoresCase(ms, f, a, b, 0);
  }

  lemma {:induction false} FirstMatchFromIgnoresCase(ms: seq<Module>, f: Field, a: string, b: string, k: nat)
    requires Described(ms) && k <= |ms| && EqualsIgnoreCase(a, b)
    decreases |ms| - k
    ensures FirstMatchFrom(ms, f, a, k) == FirstMatchFrom(ms, f, b, k)
  {
    if k < |ms| {
      EqualsIgnoreCaseAgree(FieldOf(ms[k], f), a, b);
      FirstMatchFromIgnoresCase(ms, f, a, b, k + 1);
    }
  }

  // ------------------------------------------------------------ the loops of `sortAddons`

  /** The sorted list holds only listed modules, each once, so the manager
      stays valid. */
  lemma SortedListValid(ms: seq<Module>)
    requires Described(ms) && Distinct(ms)
    ensures Distinct(Items(Sort(NodesOf(ms))))
    ensures forall m :: m in Items(Sort(NodesOf(ms))) ==> m in ms
    ensures Described(Items(Sort(NodesOf(ms))))
    ensures |Sort(NodesOf(ms))| <= |ms|
  {
    var ns := NodesOf(ms);
    var out := Items(Sort(ns));
    SortShrinks(ns);
    SortKeepsItemsDistinct(ns);
    forall i | 0 <= i < |out| ensures out[i] in ms && out[i].description.Some? {
      assert Sort(ns)[i] in ns;
      var k :| 0 <= k < |ns| && ns[k] == Sort(ns)[i];
      assert ns[k].item == ms[k];
    }
  }

  /** The body of `sortAddons` on the module list. */
  method SortedModules(ns: seq<Node<Module>>) returns (sorted: seq<Module>)
    ensures sorted == Items(Sort(ns))
  {
    var names := Names(ns);
    var kept := Pruned(ns, names);
    var lm := SeedMap(kept);
    var rest := RemainingOf(kept, lm);
    lm := RunPass(rest, lm);
    sorted := Items(Values(lm));
  }

  /** The dependency check of one module: are all its hard dependencies
      among the names? */
  method AllIn(deps: seq<string>, names: seq<string>) returns (present: bool)
    ensures present <==> forall d :: d in deps ==> d in names
  {
    for k := 0 to |deps|
      invariant forall d :: d in deps[..k] ==> d in names
    {
      if deps[k] !in names {
        return false;
      }
      assert deps[..k + 1] == deps[..k] + [deps[k]];
    }
    assert deps[..|deps|] == deps;
    return true;
  }

  /** The iterator loop of `sortAddons` that removes the modules with a
      missing hard dependency. */
  method Pruned<T>(ns: seq<Node<T>>, names: seq<string>) returns (kept: seq<Node<T>>)
    ensures kept == Prune(ns, names)
  {
    kept := [];
    for i := 0 to |ns|
      invariant kept == Prune(ns[..i], names)
    {
      var present := AllIn(ns[i].deps, names);
      PruneSnoc(ns[..i], ns[i], names);
      assert ns[..i + 1] == ns[..i] + [ns[i]];
      if present {
        kept := kept + [ns[i]];
      }
    }
    assert ns[..|ns|] == ns;
  }

  /** The modules without hard or soft dependencies, put in list order. */
  method SeedMap<T>(ns: seq<Node<T>>) returns (lm: LinkedMap<T>)
    ensures lm == Seed(ns)
  {
    lm := EmptyMap();
    for i := 0 to |ns|
      invariant lm == Seed(ns[..i])
    {
      assert ns[..i + 1][..i] == ns[..i];
      if Leaf(ns[i]) {
        lm := Put(lm, ns[i].name, ns[i]);
      }
    }
    assert ns[..|ns|] == ns;
  }

  /** The modules the seed did not place, in list order. */
  method RemainingOf<T>(ns: seq<Node<T>>, lm: LinkedMap<T>) returns (rest: seq<Node<T>>)
    ensures rest == Remaining(ns, lm)
  {
    rest := [];
    for i := 0 to |ns|
      invariant rest == Remaining(ns[..i], lm)
    {
      RemainingSnoc(ns[..i], ns[i], lm);
      assert ns[..i + 1] == ns[..i] + [ns[i]];
      if ns[i].name !in lm.vals {
        rest := rest + [ns[i]];
      }
    }
    assert ns[..|ns|] == ns;
  }

  /** The pass over the remaining modules: each is put if none of its
      dependencies still outstanding is a hard one. */
  method RunPass<T>(rs: seq<Node<T>>, start: LinkedMap<T>) returns (lm: LinkedMap<T>)
    requires WellFormed(start)
    ensures lm == Pass(rs, start)
  {
    lm := start;
    for i := 0 to |rs|
      invariant lm == Pass(rs[..i], start)
    {
      assert rs[..i + 1][..i] == rs[..i];
      var outstanding := Outstanding(rs[i], lm);
      if forall d :: d in outstanding ==> d !in rs[i].deps {
        lm := Put(lm, rs[i].name, rs[i]);
      }
    }
    assert rs[..|rs|] == rs;
  }
}
