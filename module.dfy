/**
 * `Module`, the base class of every add-on: its run-time state, its
 * description, the commands it registered and its request handlers.
 *
 * The four hooks (`onLoad`, `onEnable`, `onDisable`, `allLoaded`) are the
 * add-on's own code; each is represented by the way it ends.
 */
module Modules {
  import opened Common
  import opened Text
  import opened Platform
  import opened Manifests
  import opened RequestHandlers

  /** `Module.State` */
  datatype State = LOADED | ENABLED | DISABLED | INCOMPATIBLE | MISSING_DEPENDENCY | ERROR

  /** How a hook ends: normally, normally after setting its own state to
      DISABLED, with a `LinkageError` (`NoClassDefFoundError`,
      `NoSuchMethodError`, `NoSuchFieldError`), or with an `Exception`. */
  datatype HookOutcome = Completes | DisablesItself | LinkageError | Exception

  datatype ModuleCode = ModuleCode(onLoad: HookOutcome, onEnable: HookOutcome, onDisable: HookOutcome, allLoaded: HookOutcome)

  /** A class in an add-on archive: its binary name, whether it extends
      `Module`, whether `getDeclaredConstructor().newInstance()` builds it (it
      is concrete, and its no-argument constructor exists, is accessible and
      returns normally), and, if it is a module, its hooks. */
  datatype JavaClass = JavaClass(name: string, extendsModule: bool, instantiable: bool, code: ModuleCode)

  datatype Level = Info | Warning | Severe

  datatype LogLine = LogLine(level: Level, text: string)

  function Reregistrations(commands: seq<Command>): (calls: seq<CommandCall>)
    ensures |calls| == |commands|
    ensures forall i :: 0 <= i < |commands| ==> calls[i] == CommandRegistered(commands[i])
  {
    seq(|commands|, i requires 0 <= i < |commands| => CommandRegistered(commands[i]))
  }

  class Module {
    const code: ModuleCode
    var state: State
    var description: Option<Description>
    var commandList: seq<Command>
    var requestHandlers: map<string, RequestHandler>

    /** A new module is DISABLED, has no description yet, no commands and no handlers. */
    constructor (code: ModuleCode)
      ensures this.code == code
      ensures state == DISABLED && !IsEnabled()
      ensures description == None && commandList == [] && requestHandlers == map[]
    {
      this.code := code;
      state := DISABLED;
      description := None;
      commandList := [];
      requestHandlers := map[];
    }

    predicate IsEnabled()
      reads this
    {
      state == ENABLED
    }

    /** Registers the command with the command manager and remembers it, in order. */
    method RegisterCommand(command: Command, host: Host)
      modifies this`commandList, host`commandCalls
      ensures commandList == old(commandList) + [command]
      ensures host.commandCalls == old(host.commandCalls) + [CommandRegistered(command)]
    {
      host.commandCalls := host.commandCalls + [CommandRegistered(command)];
      commandList := commandList + [command];
    }

    /** Registers every remembered command again, in order, and forgets none. */
    method UnloadAllCommands(host: Host)
      modifies host`commandCalls
      ensures host.commandCalls == old(host.commandCalls) + Reregistrations(commandList)
    {
      if commandList != [] {
        var i := 0;
        while i < |commandList|
          invariant 0 <= i <= |commandList|
          invariant host.commandCalls == old(host.commandCalls) + Reregistrations(commandList[..i])
        {
          host.commandCalls := host.commandCalls + [CommandRegistered(commandList[i])];
          assert Reregistrations(commandList[..i + 1]) == Reregistrations(commandList[..i]) + [CommandRegistered(commandList[i])];
          i := i + 1;
        }
        assert commandList[..i] == commandList;
      }
    }

    /** Stores the handler under its label, replacing an earlier handler with
        that labelText; no other entry changes. A handler's label is lower
        case, as `NewHandler` makes it, so a request under any case variant
        of it reaches this handler. */
    method RegisterRequestHandler(handler: RequestHandler)
      requires IsLowerCase(handler.labelText)
      modifies this`requestHandlers
      ensures requestHandlers == old(requestHandlers)[handler.labelText := handler]
      ensures forall md :: Request(handler.labelText, md) == handler.handle(md)
    {
      requestHandlers := requestHandlers[handler.labelText := handler];
      LowerCaseFixed(handler.labelText);
    }

    /** The answer of the handler registered under the lower-cased label, or
        `None` (`null`) when there is none. */
    function Request(labelText: string, metaData: MetaData): (r: Option<Value>)
      reads this
      ensures ToLower(labelText) in requestHandlers ==> r == requestHandlers[ToLower(labelText)].handle(metaData)
      ensures ToLower(labelText) !in requestHandlers ==> r == None
    {
      var key := ToLower(labelText);
      if key in requestHandlers then requestHandlers[key].handle(metaData) else None
    }

    /** The lower-cased module name followed by a dot. */
    function PermissionPrefix(): (p: string)
      reads this
      requires description.Some?
      ensures |p| == |description.value.name| + 1 && p[|p| - 1] == '.'
      ensures IsLowerCase(p)
      ensures EqualsIgnoreCase(p[..|p| - 1], description.value.name)
    {
      var name := description.value.name;
      ToLowerIdempotent(name);
      EqualsIgnoreCaseIffLower(ToLower(name), name);
      var p := ToLower(name) + ".";
      assert p[..|p| - 1] == ToLower(name);
      p
    }

    /** `log`, `logWarning` and `logError`: the message, prefixed with the
        module's name in brackets once a description is set. */
    function Log(level: Level, message: string): (line: LogLine)
      reads this
      ensures line.level == level
      ensures |message| <= |line.text| && line.text[|line.text| - |message|..] == message
      ensures description.None? ==> line.text == message
      ensures description.Some? ==>
        |line.text| == |description.value.name| + 3 + |message| &&
        StartsWith(line.text, "[" + description.value.name + "] ")
    {
      if description.Some? then
        var prefix := "[" + description.value.name + "] ";
        var text := prefix + message;
        assert text[|text| - |message|..] == message;
        assert text[..|prefix|] == prefix;
        LogLine(level, text)
      else LogLine(level, message)
    }
  }

  /** A request under any case variant of a label reaches the same handler. */
  lemma RequestIgnoresCase(m: Module, labelText: string, variant: string, metaData: MetaData)
    requires EqualsIgnoreCase(labelText, variant)
    ensures m.Request(labelText, metaData) == m.Request(variant, metaData)
  {
    EqualsIgnoreCaseIffLower(labelText, variant);
  }

  /** Once a handler is registered, a request under its label in any letter
      case is answered by that handler. */
  lemma RegisteredHandlerAnswers(m: Module, labelText: string, handle: MetaData -> Option<Value>, variant: string, metaData: MetaData)
    requires NewHandler(labelText, handle).labelText in m.requestHandlers
    requires m.requestHandlers[NewHandler(labelText, handle).labelText] == NewHandler(labelText, handle)
    requires EqualsIgnoreCase(variant, labelText)
    ensures m.Request(variant, metaData) == handle(metaData)
  {
    var h := NewHandler(labelText, handle);
    EqualsIgnoreCaseIffLower(variant, labelText);
    ToLowerIdempotent(labelText);
    LowerCaseFixed(h.labelText);
    assert h.labelText == ToLower(labelText) by {
      EqualsIgnoreCaseIffLower(h.labelText, labelText);
    }
  }

  /** Modules whose names differ only in letter case share a permission prefix. */
  lemma PermissionPrefixIgnoresCase(a: Module, b: Module)
    requires a.description.Some? && b.description.Some?
    requires EqualsIgnoreCase(a.description.value.name, b.description.value.name)
    ensures a.PermissionPrefix() == b.PermissionPrefix()
  {
    EqualsIgnoreCaseIffLower(a.description.value.name, b.description.value.name);
  }
}
