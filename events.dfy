/**
 * The lifecycle events: `ModuleEvent.AddonEventBuilder`, which picks the
 * event class from a reason and publishes the event, and `ModuleBaseEvent`,
 * the payload every such event carries.
 */
module Events {
  import opened Common
  import opened Platform
  import opened Modules

  /** `ModuleEvent.Reason` */
  datatype Reason = ENABLE | DISABLE | LOAD | UNKNOWN

  /** The concrete event classes: `ModuleEnableEvent`, `ModuleDisableEvent`,
      `ModuleLoadEvent` and `ModuleGeneralEvent`. */
  datatype EventKind = EnableEvent | DisableEvent | LoadEvent | GeneralEvent

  /** The event class `getEvent` instantiates for a reason. */
  function KindOf(reason: Reason): (kind: EventKind)
    ensures kind == EnableEvent <==> reason == ENABLE
    ensures kind == DisableEvent <==> reason == DISABLE
    ensures kind == LoadEvent <==> reason == LOAD
    ensures kind == GeneralEvent <==> reason == UNKNOWN
  {
    match reason
    case ENABLE => EnableEvent
    case DISABLE => DisableEvent
    case LOAD => LoadEvent
    case _ => GeneralEvent
  }

  /** A `HashMap<String, Object>`: an object, so that every holder of a
      reference sees the same entries. */
  class KeyValueMap {
    var entries: map<string, Value>

    constructor ()
      ensures entries == map[]
    {
      entries := map[];
    }

    method Put(key: string, value: Value)
      modifies this
      ensures entries == old(entries)[key := value]
    {
      entries := entries[key := value];
    }
  }

  class ModuleBaseEvent {
    const kind: EventKind
    /** `None` stands for a `null` module. */
    const addon: Option<Module>
    const keyValues: KeyValueMap
    var newEvent: Option<ModuleBaseEvent>

    /** The module and the key/value map object are kept as given; no
        replacement event is set yet. */
    constructor (kind: EventKind, addon: Option<Module>, keyValues: KeyValueMap)
      ensures this.kind == kind && this.addon == addon && this.keyValues == keyValues
      ensures newEvent == None
    {
      this.kind := kind;
      this.addon := addon;
      this.keyValues := keyValues;
      newEvent := None;
    }

    /** `setNewEvent`: the last replacement set is the one `getNewEvent` yields. */
    method SetNewEvent(event: ModuleBaseEvent)
      modifies this`newEvent
      ensures newEvent == Some(event)
    {
      newEvent := Some(event);
    }
  }

  /** The server's plugin manager as far as `callEvent` goes: it records the
      events in the order they are published. */
  class EventBus {
    var published: seq<ModuleBaseEvent>

    constructor ()
      ensures published == []
    {
      published := [];
    }

    method CallEvent(event: ModuleBaseEvent)
      modifies this`published
      ensures published == old(published) + [event]
    {
      published := published + [event];
    }
  }

  class AddonEventBuilder {
    var addon: Option<Module>
    var reason: Reason
    var keyValues: KeyValueMap

    /** No module, reason UNKNOWN, and a new, empty key/value map. */
    constructor ()
      ensures addon == None && reason == UNKNOWN
      ensures fresh(keyValues) && keyValues.entries == map[]
    {
      addon := None;
      reason := UNKNOWN;
      keyValues := new KeyValueMap();
    }

    method WithKeyValues(keyValues: KeyValueMap) returns (self: AddonEventBuilder)
      modifies this`keyValues
      ensures this.keyValues == keyValues && self == this
    {
      this.keyValues := keyValues;
      self := this;
    }

    method WithAddon(addon: Module) returns (self: AddonEventBuilder)
      modifies this`addon
      ensures this.addon == Some(addon) && self == this
    {
      this.addon := Some(addon);
      self := this;
    }

    method WithReason(reason: Reason) returns (self: AddonEventBuilder)
      modifies this`reason
      ensures this.reason == reason && self == this
    {
      this.reason := reason;
      self := this;
    }

    /** A new event of the class the reason selects, carrying the builder's
        module and the very same key/value map object. */
    method GetEvent() returns (event: ModuleBaseEvent)
      ensures fresh(event) && event.newEvent == None
      ensures event.kind == KindOf(reason) && event.addon == addon && event.keyValues == keyValues
    {
      match reason
      case ENABLE => event := new ModuleBaseEvent(EnableEvent, addon, keyValues);
      case DISABLE => event := new ModuleBaseEvent(DisableEvent, addon, keyValues);
      case LOAD => event := new ModuleBaseEvent(LoadEvent, addon, keyValues);
      case _ => event := new ModuleBaseEvent(GeneralEvent, addon, keyValues);
    }

    /** Publishes the event and returns the instance it published. */
    method Build(bus: EventBus) returns (event: ModuleBaseEvent)
      modifies bus`published
      ensures fresh(event) && event.newEvent == None
      ensures event.kind == KindOf(reason) && event.addon == addon && event.keyValues == keyValues
      ensures bus.published == old(bus.published) + [event]
    {
      event := GetEvent();
      bus.CallEvent(event);
    }
  }

  /** A listener that writes through the event's map changes the map the
      publisher holds. */
  method PutThroughEvent(builder: AddonEventBuilder, bus: EventBus, key: string, value: Value) returns (event: ModuleBaseEvent)
    modifies bus`published, builder.keyValues
    ensures event.keyValues == builder.keyValues
    ensures builder.keyValues.entries == old(builder.keyValues.entries)[key := value]
  {
    event := builder.Build(bus);
    event.keyValues.Put(key, value);
  }
}
