/**
 * The host platform (the server, its plugin manager and the plugin's command
 * manager) as seen from the lifecycle engine: opaque handles, two lookup
 * tables the engine consults, and the calls the engine makes, recorded in
 * order so that contracts can say which calls an operation makes.
 */
module Platform {
  import opened Common

  /** An arbitrary Java object: request metadata values and request answers. */
  datatype Value = Value(id: nat)

  /** A command object a module registers with the command manager. */
  datatype Command = Command(id: nat)

  /** An event listener a module registers with the plugin manager. */
  datatype Listener = Listener(id: nat)

  /** A plugin loaded by the server itself. */
  datatype Plugin = Plugin(id: nat)

  /** Bukkit's permission default levels. */
  datatype PermissionDefault = TRUE | FALSE | OP | NOT_OP

  /** A permission node as handed to the server. */
  datatype Grant = Grant(name: string, description: Option<string>, level: PermissionDefault)

  datatype CommandCall = CommandRegistered(command: Command) | CommandsUnregistered
  datatype ListenerCall = ListenerRegistered(listener: Listener) | ListenerUnregistered(listener: Listener)
  datatype PluginCall = PluginEnabled(plugin: Plugin) | PluginDisabled(plugin: Plugin)

  class Host {
    /** The material names the server knows (`Material.getMaterial`). */
    const materials: set<string>
    /** The names `PermissionDefault.getByName` resolves. */
    const permissionDefaults: map<string, PermissionDefault>

    var commandCalls: seq<CommandCall>
    var listenerCalls: seq<ListenerCall>
    var pluginCalls: seq<PluginCall>
    var permissions: set<Grant>

    constructor (materials: set<string>, permissionDefaults: map<string, PermissionDefault>)
      ensures this.materials == materials && this.permissionDefaults == permissionDefaults
      ensures commandCalls == [] && listenerCalls == [] && pluginCalls == [] && permissions == {}
    {
      this.materials := materials;
      this.permissionDefaults := permissionDefaults;
      commandCalls := [];
      listenerCalls := [];
      pluginCalls := [];
      permissions := {};
    }
  }
}
