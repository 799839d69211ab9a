/**
 * The store of layout modes: a map from mode name to a JSON object
 * describing the mode.  Loading upgrades the saved file so that the
 * reserved mode `自定义` exists and every mode has the fields later
 * versions added; deleting and saving guard the reserved name.
 */
module ModeStore {
  import opened Wrappers
  import opened Text

  /** A parsed JSON value; numbers are decimal literals, coefficient times a power of ten. */
  datatype Json =
    | Null
    | Bool(b: bool)
    | Num(coef: int, exp: int)
    | Str(s: string)
    | Arr(items: seq<Json>)
    | Obj(fields: map<string, Json>)

  /** The mode that is always present and can be neither deleted nor saved over. */
  const Reserved: string := "自定义"

  /** The reserved mode as the tool ships it: no template, first slide, no layouts. */
  function DefaultMode(): Json
  {
    Obj(map[
      "description" := Str("手动配置每张图片的位置和大小"),
      "template_file" := Null,
      "slide_index" := Num(0, 0),
      "layouts" := Arr([]),
      "text_layouts" := Arr([])
    ])
  }

  /** The map used when there is no usable file. */
  function DefaultModes(): map<string, Json>
  {
    map[Reserved := DefaultMode()]
  }

  /** A mode as every later reader expects it: an object with the three upgraded fields. */
  predicate Normalized(mode: Json) {
    mode.Obj? && "template_file" in mode.fields && "slide_index" in mode.fields && "text_layouts" in mode.fields
  }

  /** The fields of a mode with `template_file`, `slide_index` and `text_layouts` added where missing. */
  function WithDefaults(fields: map<string, Json>): map<string, Json>
  {
    var a := if "template_file" in fields then fields else fields["template_file" := Null];
    var b := if "slide_index" in a then a else a["slide_index" := Num(0, 0)];
    if "text_layouts" in b then b else b["text_layouts" := Arr([])]
  }

  /**
   * The upgrade adds exactly the three fields, each with its default, and
   * leaves every field already present as it was.
   */
  lemma WithDefaultsMeans(fields: map<string, Json>)
    ensures WithDefaults(fields).Keys == fields.Keys + {"template_file", "slide_index", "text_layouts"}
    ensures forall key | key in fields :: WithDefaults(fields)[key] == fields[key]
    ensures "template_file" !in fields ==> WithDefaults(fields)["template_file"] == Null
    ensures "slide_index" !in fields ==> WithDefaults(fields)["slide_index"] == Num(0, 0)
    ensures "text_layouts" !in fields ==> WithDefaults(fields)["text_layouts"] == Arr([])
  {
  }

  /** Upgrading a mode: objects gain the missing fields; anything else makes the load fail. */
  function NormalizeMode(mode: Json): Option<Json>
  {
    if mode.Obj? then Some(Obj(WithDefaults(mode.fields))) else None
  }

  /**
   * The upgrade as the loader writes it, with Python's `in` and item
   * assignment on whatever the mode is: on a string `in` is a substring
   * test and on a list a membership test, and assigning into either
   * raises; on a number, boolean or null `in` itself raises.  So a string
   * or list that happens to contain all three field names passes through
   * unchanged.
   */
  function NormalizeModeAsWritten(mode: Json): Option<Json>
  {
    match mode
    case Obj(fields) => Some(Obj(WithDefaults(fields)))
    case Str(s) =>
      if Contains(s, "template_file") && Contains(s, "slide_index") && Contains(s, "text_layouts") then Some(mode)
      else None
    case Arr(items) =>
      if Str("template_file") in items && Str("slide_index") in items && Str("text_layouts") in items then Some(mode)
      else None
    case _ => None
  }

  /** The map with the reserved mode added when it is missing. */
  function WithReserved(found: map<string, Json>): (modes: map<string, Json>)
    ensures modes.Keys == found.Keys + {Reserved}
  {
    if Reserved in found then found else found[Reserved := DefaultMode()]
  }

  /** Every mode survives the upgrade. */
  predicate Upgradable(modes: map<string, Json>, normalize: Json -> Option<Json>) {
    forall name | name in modes :: normalize(modes[name]).Some?
  }

  /**
   * The loaded map for a file read as `file` (None when it is missing or
   * is not valid JSON), upgrading each mode with `normalize`; any failure
   * gives the default map.
   */
  function LoadWith(file: Option<Json>, normalize: Json -> Option<Json>): map<string, Json>
  {
    if file.None? || !file.value.Obj? then DefaultModes()
    else
      var found := WithReserved(file.value.fields);
      if Upgradable(found, normalize) then Upgraded(found, normalize) else DefaultModes()
  }

  /** Every mode upgraded. */
  function Upgraded(modes: map<string, Json>, normalize: Json -> Option<Json>): map<string, Json>
    requires Upgradable(modes, normalize)
  {
    map name | name in modes :: normalize(modes[name]).value
  }

  lemma UpgradedIs(found: map<string, Json>, modes: map<string, Json>)
    requires modes.Keys == found.Keys
    requires forall name | name in found :: NormalizeMode(found[name]) == Some(modes[name])
    ensures Upgradable(found, NormalizeMode) && Upgraded(found, NormalizeMode) == modes
  {
  }

  /**
   * The map the loader is meant to give: the load with the corrected
   * upgrade, which takes only object modes.  It agrees with the load as
   * written on every file without a list or string mode that passes the
   * field tests (AsWrittenAgrees).
   */
  function Loaded(file: Option<Json>): map<string, Json>
  {
    LoadWith(file, NormalizeMode)
  }

  /**
   * The loader with the corrected upgrade: it adds the reserved mode, then
   * upgrades each mode in place, falling back to the default map when a
   * mode is not an object.
   */
  method LoadModes(file: Option<Json>) returns (modes: map<string, Json>)
    ensures modes == Loaded(file)
  {
    if file.None? || !file.value.Obj? {
      return DefaultModes();
    }
    var found := file.value.fields;
    if Reserved !in found {
      found := found[Reserved := DefaultMode()];
    }
    assert found == WithReserved(file.value.fields);
    var upgraded := UpgradeAll(found);
    modes := if upgraded.Some? then upgraded.value else DefaultModes();
  }

  /**
   * The loop over the modes with the corrected upgrade: it stops at the
   * first mode that is not an object, where the code as written lets a
   * list or string naming the three fields through unchanged.
   */
  method UpgradeAll(found: map<string, Json>) returns (upgraded: Option<map<string, Json>>)
    ensures upgraded.Some? <==> Upgradable(found, NormalizeMode)
    ensures upgraded.Some? ==> upgraded.value == Upgraded(found, NormalizeMode)
  {
    var modes := found;
    var pending := found.Keys;
    while pending != {}
      invariant pending <= found.Keys && modes.Keys == found.Keys
      invariant forall name | name in found && name !in pending :: NormalizeMode(found[name]) == Some(modes[name])
      decreases |pending|
    {
      var name :| name in pending;
      var mode := found[name];
      if !mode.Obj? {
        assert NormalizeMode(found[name]).None?;
        return None;
      }
      var fields := AddDefaults(mode.fields);
      assert NormalizeMode(found[name]) == Some(Obj(fields));
      modes := modes[name := Obj(fields)];
      pending := pending - {name};
    }
    UpgradedIs(found, modes);
    upgraded := Some(modes);
  }

  /** The three `if ... not in mode` assignments of the loader. */
  method AddDefaults(mode: map<string, Json>) returns (fields: map<string, Json>)
    ensures fields == WithDefaults(mode)
  {
    fields := mode;
    if "template_file" !in fields {
      fields := fields["template_file" := Null];
    }
    if "slide_index" !in fields {
      fields := fields["slide_index" := Num(0, 0)];
    }
    if "text_layouts" !in fields {
      fields := fields["text_layouts" := Arr([])];
    }
  }

  /**
   * Whatever the file holds, the loaded map has the reserved mode and
   * every mode in it is an object with the three upgraded fields.
   */
  lemma LoadedNormalized(file: Option<Json>)
    ensures Reserved in Loaded(file)
    ensures forall name | name in Loaded(file) :: Normalized(Loaded(file)[name])
  {
    if file.Some? && file.value.Obj? {
      var found := WithReserved(file.value.fields);
      if Upgradable(found, NormalizeMode) {
        forall name | name in found ensures Normalized(Loaded(file)[name]) {
          WithDefaultsMeans(found[name].fields);
        }
      }
    }
  }

  /**
   * A file that loads keeps its names, adding only the reserved one, and
   * a reserved mode the file lacks is the default one.
   */
  lemma LoadedNames(fields: map<string, Json>)
    requires Upgradable(WithReserved(fields), NormalizeMode)
    ensures Loaded(Some(Obj(fields))).Keys == fields.Keys + {Reserved}
    ensures Reserved !in fields ==> Loaded(Some(Obj(fields)))[Reserved] == DefaultMode()
  {
    if Reserved !in fields {
      LoadedMode(fields, Reserved);
      WithDefaultsMeans(DefaultMode().fields);
      assert WithDefaults(DefaultMode().fields) == DefaultMode().fields;
    }
  }

  /**
   * A file that loads keeps every field its modes already had; the
   * upgrade only adds the missing ones.
   */
  lemma LoadedKeepsFields(fields: map<string, Json>, name: string)
    requires Upgradable(WithReserved(fields), NormalizeMode)
    requires name in fields
    ensures name in Loaded(Some(Obj(fields))) && Loaded(Some(Obj(fields)))[name].Obj?
    ensures forall key | key in fields[name].fields ::
              key in Loaded(Some(Obj(fields)))[name].fields
              && Loaded(Some(Obj(fields)))[name].fields[key] == fields[name].fields[key]
  {
    LoadedMode(fields, name);
    assert WithReserved(fields)[name] == fields[name];
    WithDefaultsMeans(fields[name].fields);
  }

  lemma LoadedMode(fields: map<string, Json>, name: string)
    requires Upgradable(WithReserved(fields), NormalizeMode)
    requires name in WithReserved(fields)
    ensures name in Loaded(Some(Obj(fields)))
    ensures Loaded(Some(Obj(fields)))[name] == Obj(WithDefaults(WithReserved(fields)[name].fields))
  {
  }

  /**
   * Under the corrected upgrade, a missing or unparsable file, a top level
   * that is not an object, and any mode that is not an object all give
   * exactly the default map.
   */
  lemma LoadFailsToDefaults(file: Option<Json>)
    requires file.None? || !file.value.Obj?
             || exists name | name in file.value.fields :: !file.value.fields[name].Obj?
    ensures Loaded(file) == DefaultModes()
  {
    if file.Some? && file.value.Obj? {
      var name :| name in file.value.fields && !file.value.fields[name].Obj?;
      var found := WithReserved(file.value.fields);
      if Reserved in file.value.fields {
        assert found[name] == file.value.fields[name];
      } else {
        assert name != Reserved;
      }
      assert NormalizeMode(found[name]).None?;
    }
  }

  /** Loading what was loaded changes nothing. */
  lemma LoadIdempotent(file: Option<Json>)
    ensures Loaded(Some(Obj(Loaded(file)))) == Loaded(file)
  {
    var once := Loaded(file);
    LoadedNormalized(file);
    assert WithReserved(once) == once;
    forall name | name in once ensures NormalizeMode(once[name]) == Some(once[name]) {
      var fields := once[name].fields;
      WithDefaultsMeans(fields);
      assert WithDefaults(fields) == fields;
    }
    assert Upgradable(once, NormalizeMode);
  }

  /**
   * As written, a mode that is a list naming the three fields is loaded
   * unchanged although it has none of them; the corrected upgrade rejects
   * the file instead.
   */
  lemma ListModePassesAsWritten()
    ensures var listed := Arr([Str("template_file"), Str("slide_index"), Str("text_layouts")]);
            var file := Some(Obj(map["old" := listed]));
            LoadWith(file, NormalizeModeAsWritten)["old"] == listed
            && !Normalized(LoadWith(file, NormalizeModeAsWritten)["old"])
            && Loaded(file) == DefaultModes()
  {
    var listed := Arr([Str("template_file"), Str("slide_index"), Str("text_layouts")]);
    var fields := map["old" := listed];
    var found := WithReserved(fields);
    assert found == map["old" := listed, Reserved := DefaultMode()];
    assert NormalizeModeAsWritten(listed) == Some(listed);
    assert NormalizeModeAsWritten(DefaultMode()).Some?;
    assert Upgradable(found, NormalizeModeAsWritten);
    assert "old" in fields && !fields["old"].Obj?;
    LoadFailsToDefaults(Some(Obj(fields)));
  }

  /** On objects the two upgrades agree; the corrected one accepts nothing else. */
  lemma NormalizeModeCorrects(mode: Json)
    ensures mode.Obj? ==> NormalizeMode(mode) == NormalizeModeAsWritten(mode)
    ensures NormalizeMode(mode).Some? <==> mode.Obj?
    ensures NormalizeMode(mode).Some? ==> Normalized(NormalizeMode(mode).value)
  {
    if mode.Obj? {
      WithDefaultsMeans(mode.fields);
    }
  }

  /**
   * The load as written and the corrected load give the same map for every
   * file in which no mode is a list or string that passes the field tests:
   * missing files, non-object files, files whose modes are all objects,
   * and files with a number, boolean or null mode.
   */
  lemma AsWrittenAgrees(file: Option<Json>)
    requires file.Some? && file.value.Obj? ==>
               forall name | name in file.value.fields ::
                 file.value.fields[name].Obj? || NormalizeModeAsWritten(file.value.fields[name]).None?
    ensures LoadWith(file, NormalizeModeAsWritten) == Loaded(file)
  {
    if file.Some? && file.value.Obj? {
      var fields := file.value.fields;
      var found := WithReserved(fields);
      assert forall name | name in found ::
               found[name].Obj? || NormalizeModeAsWritten(found[name]).None? by {
        forall name | name in found
          ensures found[name].Obj? || NormalizeModeAsWritten(found[name]).None?
        {
          if name in fields {
            assert found[name] == fields[name];
          }
        }
      }
      forall name | name in found
        ensures NormalizeModeAsWritten(found[name]).Some? <==> NormalizeMode(found[name]).Some?
        ensures NormalizeMode(found[name]).Some? ==> NormalizeModeAsWritten(found[name]) == NormalizeMode(found[name])
      {
        NormalizeModeCorrects(found[name]);
      }
      if Upgradable(found, NormalizeMode) {
        assert Upgradable(found, NormalizeModeAsWritten);
        assert Upgraded(found, NormalizeModeAsWritten) == Upgraded(found, NormalizeMode);
      } else {
        assert !Upgradable(found, NormalizeModeAsWritten);
      }
    }
  }

  // ---------------------------------------------------------------------
  // Saving

  /** Why a save is refused. */
  datatype SaveError = EmptyName | ReservedName | NothingToSave

  /** The hint shown for a refused save. */
  function SaveMessage(e: SaveError): string
  {
    match e
    case EmptyName => "请输入模式名称！"
    case ReservedName => "不能使用'自定义'作为模式名称！"
    case NothingToSave => "没有有效的配置可保存！"
  }

  /** The name a save stores under, or why it is refused, checked in the tool's order. */
  function SaveName(rawName: string, images: nat, texts: nat): Result<string, SaveError>
  {
    var name := Strip(rawName);
    if name == [] then Err(EmptyName)
    else if name == Reserved then Err(ReservedName)
    else if images == 0 && texts == 0 then Err(NothingToSave)
    else Ok(name)
  }

  /**
   * A save goes through exactly when the trimmed name is nonempty, is not
   * the reserved name and there is a layout to store; the name it stores
   * under is the trimmed name, which trims to itself.
   */
  lemma SaveNameMeans(rawName: string, images: nat, texts: nat)
    ensures SaveName(rawName, images, texts).Ok?
            <==> Strip(rawName) != [] && Strip(rawName) != Reserved && (images > 0 || texts > 0)
    ensures SaveName(rawName, images, texts).Ok? ==>
              var name := SaveName(rawName, images, texts).value;
              name == Strip(rawName) && Strip(name) == name && name != Reserved
    ensures SaveName(rawName, images, texts) == Err(ReservedName) <==> Strip(rawName) == Reserved
  {
    StripIdempotent(rawName);
  }

  /** The description of a saved mode: the counts, and the template page when one was chosen. */
  function Description(images: nat, texts: nat, page: Option<nat>): string
  {
    var head := IntToString(images) + "张图片布局";
    var withPage := if page.Some? then head + "（模板第" + IntToString(page.value) + "页）" else head;
    if texts > 0 then withPage + "，" + IntToString(texts) + "个文本" else withPage
  }

  /**
   * The mode a save stores.  `page` is the 1-based template page the user
   * picked, None when there is no template or no page was picked.
   */
  function SavedMode(layouts: seq<Json>, textLayouts: seq<Json>, template: string, page: Option<nat>): Json
  {
    Obj(map[
      "description" := Str(Description(|layouts|, |textLayouts|, page)),
      "template_file" := if template == [] then Null else Str(template),
      "slide_index" := Num(if page.Some? && page.value >= 1 then page.value - 1 else 0, 0),
      "layouts" := Arr(layouts),
      "text_layouts" := Arr(textLayouts)
    ])
  }

  /**
   * A saved mode is upgraded already, keeps the layouts it was given, and
   * stores the picked page 0-based.
   */
  lemma SavedModeMeans(layouts: seq<Json>, textLayouts: seq<Json>, template: string, page: Option<nat>)
    requires page.Some? ==> page.value >= 1
    ensures var mode := SavedMode(layouts, textLayouts, template, page);
            Normalized(mode)
            && NormalizeMode(mode) == Some(mode)
            && mode.fields["layouts"] == Arr(layouts) && mode.fields["text_layouts"] == Arr(textLayouts)
            && mode.fields["slide_index"] == Num(if page.Some? then page.value - 1 else 0, 0)
            && (mode.fields["template_file"] == Null <==> template == [])
  {
    var mode := SavedMode(layouts, textLayouts, template, page);
    WithDefaultsMeans(mode.fields);
    assert WithDefaults(mode.fields) == mode.fields;
  }

  /** The modes the tool holds while it runs. */
  class Store {
    var modes: map<string, Json>

    /** The reserved mode exists and every mode is upgraded. */
    ghost predicate Valid()
      reads this
    {
      Reserved in modes && forall name | name in modes :: Normalized(modes[name])
    }

    /** The store as loaded at start-up, by the corrected loader. */
    constructor (file: Option<Json>)
      ensures modes == Loaded(file)
      ensures Valid()
    {
      var loaded := LoadModes(file);
      modes := loaded;
      LoadedNormalized(file);
    }

    /** The modes the delete dialog offers: every name except the reserved one. */
    function Deletable(): (names: set<string>)
      reads this
      ensures Reserved !in names
      ensures forall name | name in modes :: name in names <==> name != Reserved
    {
      set name | name in modes && name != Reserved
    }

    /** Deleting a mode the dialog offered. */
    method Delete(name: string)
      requires Valid()
      requires name in Deletable()
      modifies this
      ensures modes == old(modes) - {name}
      ensures Reserved in modes && modes[Reserved] == old(modes)[Reserved]
      ensures Valid()
    {
      modes := modes - {name};
    }

    /**
     * Saving the current layouts under a typed name: refused for an empty
     * or reserved name or when there is nothing to save, otherwise stored,
     * replacing any mode of that name.
     */
    method Save(rawName: string, layouts: seq<Json>, textLayouts: seq<Json>, template: string, page: Option<nat>)
      returns (r: Result<string, SaveError>)
      requires Valid()
      requires page.Some? ==> page.value >= 1
      modifies this
      ensures r == SaveName(rawName, |layouts|, |textLayouts|)
      ensures modes == if r.Ok? then old(modes)[r.value := SavedMode(layouts, textLayouts, template, page)]
                       else old(modes)
      ensures Reserved in modes && modes[Reserved] == old(modes)[Reserved]
      ensures Valid()
    {
      var name := Strip(rawName);
      if name == [] {
        return Err(EmptyName);
      }
      if name == Reserved {
        return Err(ReservedName);
      }
      if |layouts| == 0 && |textLayouts| == 0 {
        return Err(NothingToSave);
      }
      SavedModeMeans(layouts, textLayouts, template, page);
      modes := modes[name := SavedMode(layouts, textLayouts, template, page)];
      r := Ok(name);
    }
  }
}
