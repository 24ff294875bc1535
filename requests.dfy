/**
 * `ModuleRequestBuilder`: how a plugin asks a module, found by name, for
 * data under a label, with a metadata map passed along.
 */
module RequestBuilder {
  import opened Common
  import opened Text
  import opened Platform
  import opened RequestHandlers
  import opened Modules
  import opened Registry

  /** Why `request()` throws: `Validate.notNull` on a field never set. */
  datatype RequestError = AddonNameMissing | LabelMissing

  class ModuleRequestBuilder {
    var addonName: Option<string>
    var requestLabel: Option<string>
    var metaData: MetaData

    /** A new builder names no module and no label, and carries no metadata. */
    constructor ()
      ensures addonName == None && requestLabel == None && metaData == map[]
    {
      addonName := None;
      requestLabel := None;
      metaData := map[];
    }

    /** `addon(name)`: the module to ask; the builder itself is returned. */
    method Addon(name: string) returns (self: ModuleRequestBuilder)
      modifies this`addonName
      ensures self == this && addonName == Some(name)
    {
      addonName := Some(name);
      self := this;
    }

    /** `label(label)`: the label to ask under; the builder itself is returned. */
    method Label(labelText: string) returns (self: ModuleRequestBuilder)
      modifies this`requestLabel
      ensures self == this && requestLabel == Some(labelText)
    {
      requestLabel := Some(labelText);
      self := this;
    }

    /** `addMetaData(key, value)`: a later value for a key replaces the earlier one. */
    method AddMetaData(key: string, value: Value) returns (self: ModuleRequestBuilder)
      modifies this`metaData
      ensures self == this && metaData == old(metaData)[key := value]
    {
      metaData := metaData[key := value];
      self := this;
    }

    /** `request()`: fails when the module name or the label is missing;
        otherwise the answer of the first module whose name equals the given
        one ignoring case, or `None` (`null`) when no module has that name. */
    function Request(manager: ModuleManager): (r: Result<Option<Value>, RequestError>)
      reads this, manager, set m | m in manager.modules
      requires manager.Valid()
      ensures r == Err(AddonNameMissing) <==> addonName.None?
      ensures r == Err(LabelMissing) <==> addonName.Some? && requestLabel.None?
      ensures addonName.Some? && requestLabel.Some? &&
              (forall i :: 0 <= i < |manager.modules| ==> !EqualsIgnoreCase(manager.modules[i].description.value.name, addonName.value)) ==>
                r == Ok(None)
      ensures addonName.Some? && requestLabel.Some? ==>
        forall i :: 0 <= i < |manager.modules| &&
                    EqualsIgnoreCase(manager.modules[i].description.value.name, addonName.value) &&
                    (forall j :: 0 <= j < i ==> !EqualsIgnoreCase(manager.modules[j].description.value.name, addonName.value)) ==>
          r == Ok(manager.modules[i].Request(requestLabel.value, metaData))
    {
      if addonName.None? then Err(AddonNameMissing)
      else if requestLabel.None? then Err(LabelMissing)
      else
        match manager.GetAddonByName(addonName.value)
        case None => Ok(None)
        case Some(m) => Ok(m.Request(requestLabel.value, metaData))
    }
  }

  /** Builders whose module names and labels differ only in letter case, and
      that carry the same metadata, get the same answer. */
  lemma RequestIgnoresCase(manager: ModuleManager, a: ModuleRequestBuilder, b: ModuleRequestBuilder)
    requires manager.Valid()
    requires a.addonName.Some? && b.addonName.Some? && EqualsIgnoreCase(a.addonName.value, b.addonName.value)
    requires a.requestLabel.Some? && b.requestLabel.Some? && EqualsIgnoreCase(a.requestLabel.value, b.requestLabel.value)
    requires a.metaData == b.metaData
    ensures a.Request(manager) == b.Request(manager)
  {
    LookupIgnoresCase(manager, a.addonName.value, b.addonName.value);
    match manager.GetAddonByName(a.addonName.value) {
      case None =>
      case Some(m) =>
        Modules.RequestIgnoresCase(m, a.requestLabel.value, b.requestLabel.value, a.metaData);
    }
  }
}
