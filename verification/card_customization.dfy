/**
 * The card-customization modal: it loads the selected Pokémon's style as
 * the default overridden by the saved entry, edits one field at a time, and
 * on save or reset writes storage and hands the record to the page's
 * `handleConfigSave`, which writes the page's own map over it.
 */
module Customization {
  import opened Wrappers
  import opened Records
  import opened CardStore
  import opened Pokedex

  /** The modal's starting style; the same record as the page's default. */
  const DEFAULT_CONFIG: Config := map[
    BackgroundColor1 := Text("#667eea"),
    BackgroundColor2 := Text("#764ba2"),
    UseGradient := Flag(true),
    TextColor := Text("#ffffff"),
    LabelColor := Text("#ffffff"),
    ValueColor := Text("#ffffff"),
    BorderColor := Text("rgba(255, 255, 255, 0.3)"),
    NumberBadgeColor := Text("rgba(255, 255, 255, 0.2)"),
    ImageBackgroundColor := Text("rgba(255, 255, 255, 0.1)"),
    FontFamily := Text("Arial, sans-serif"),
    FontSizeTitle := Text("1.5"),
    FontSizeLabel := Text("0.9"),
    FontSizeValue := Text("1.1"),
    FontSizeNumber := Text("0.9")]

  /** The modal's and the page's defaults are the same record, field for field. */
  lemma DefaultsAgree()
    ensures DEFAULT_CONFIG == DEFAULT_CARD_CONFIG
    ensures Complete(DEFAULT_CONFIG)
  {
    DefaultCardConfigComplete();
  }

  /** Storage holds a readable map with an entry for `id`. */
  predicate HasEntry(stored: Stored, id: int) {
    stored.Saved? && id in stored.configs
  }

  // ---------------------------------------------------------------------------
  // Pure steps

  /**
   * The load effect's result, `{...DEFAULT_CONFIG, ...entry}`: every field
   * the saved entry has comes from it, every other field from the default;
   * with nothing stored, unparseable text or no entry, the default itself.
   */
  function Loaded(stored: Stored, id: int): (c: Config)
    ensures Complete(c)
    ensures forall f: Field :: FieldOf(c, f) ==
                (if HasEntry(stored, id) && f in stored.configs[id] then Some(stored.configs[id][f]) else FieldOf(DEFAULT_CONFIG, f))
    ensures !HasEntry(stored, id) ==> c == DEFAULT_CONFIG
  {
    DefaultsAgree();
    if HasEntry(stored, id) then DEFAULT_CONFIG + stored.configs[id] else DEFAULT_CONFIG
  }

  /** `handleChange`: `{...prev, [field]: value}`. */
  function WithField(c: Config, field: Field, value: Value): (r: Config)
    ensures FieldOf(r, field) == Some(value)
    ensures forall g: Field :: g != field ==> FieldOf(r, g) == FieldOf(c, g)
    ensures Complete(c) ==> Complete(r)
  {
    c[field := value]
  }

  /**
   * The modal's own write in `handleSave`: the parsed map (or `{}` when
   * nothing readable is stored) with the record put under `id`.
   */
  function SaveInto(stored: Stored, id: int, c: Config): (r: Stored)
    ensures r.Saved? && id in r.configs && r.configs[id] == c
    ensures forall k :: k != id ==> (k in r.configs <==> HasEntry(stored, k))
    ensures forall k :: k != id && k in r.configs ==> HasEntry(stored, k) && r.configs[k] == stored.configs[k]
  {
    var all := if stored.Saved? then stored.configs else map[];
    Saved(all[id := c])
  }

  // ---------------------------------------------------------------------------
  // Properties of the store

  /** Loading after saving a complete record for the same id gives that record back. */
  lemma SaveThenLoad(stored: Stored, id: int, c: Config)
    requires Complete(c)
    ensures Loaded(SaveInto(stored, id, c), id) == c
  {
    var r := Loaded(SaveInto(stored, id, c), id);
    assert r.Keys == c.Keys;
    forall f: Field ensures r[f] == c[f] {
      assert FieldOf(r, f) == FieldOf(c, f);
    }
  }

  /** Saving under one id leaves what every other id loads unchanged, even over unparseable text. */
  lemma SaveKeepsOthers(stored: Stored, id: int, c: Config, other: int)
    requires other != id
    ensures Loaded(SaveInto(stored, id, c), other) == Loaded(stored, other)
  {
    var s := SaveInto(stored, id, c);
    if HasEntry(s, other) {
      assert s.configs[other] == stored.configs[other];
    }
  }

  /** While the page mirrors storage, the modal's write and the page's following write agree. */
  lemma PageWriteAgrees(stored: Stored, configs: map<int, Config>, id: int, c: Config)
    requires SyncedWith(stored, configs)
    ensures SaveInto(stored, id, c) == Saved(configs[id := c])
  {
  }

  /**
   * While the page mirrors storage and the record it holds for `id` is
   * complete, the modal opens with the same style the page's card shows.
   */
  lemma ModalMatchesCard(stored: Stored, configs: map<int, Config>, id: int)
    requires SyncedWith(stored, configs)
    requires id in configs ==> Complete(configs[id])
    ensures Loaded(stored, id) == Lookup(configs, id)
  {
    DefaultsAgree();
    if id in configs {
      var r := Loaded(stored, id);
      var e := configs[id];
      assert r.Keys == e.Keys;
      forall f: Field ensures r[f] == e[f] {
        assert FieldOf(r, f) == FieldOf(e, f);
      }
    }
  }

  /** After a reset the stored entry is the default, so both the modal and the card show the default. */
  lemma ResetShowsDefault(configs: map<int, Config>, id: int)
    ensures Loaded(Saved(configs[id := DEFAULT_CONFIG]), id) == DEFAULT_CONFIG
    ensures Lookup(configs[id := DEFAULT_CONFIG], id) == DEFAULT_CARD_CONFIG
  {
    DefaultsAgree();
    SaveThenLoad(Saved(configs), id, DEFAULT_CONFIG);
  }

  // ---------------------------------------------------------------------------
  // The modal's state

  class CardCustomization {
    var config: Config
    const display: PokedexDisplay    // `pokemon` is display.selected, `onSave` is display.HandleConfigSave

    /** The edited record has every field, and the page mirrors storage. */
    ghost predicate Valid()
      reads this, display, display.storage
    {
      Complete(config) && display.Synced()
    }

    constructor (display: PokedexDisplay)
      requires display.Synced()
      ensures this.display == display && config == DEFAULT_CONFIG
      ensures Valid()
    {
      DefaultsAgree();
      this.display := display;
      config := DEFAULT_CONFIG;
    }

    /** The load effect: runs only when the modal is open on a Pokémon. */
    method Load(isOpen: bool)
      requires Valid()
      modifies this
      ensures Valid()
      ensures isOpen && display.selected.Some? ==> config == Loaded(display.storage.cardConfigs, display.selected.value.id)
      ensures !(isOpen && display.selected.Some?) ==> config == old(config)
    {
      if isOpen && display.selected.Some? {
        config := Loaded(display.storage.cardConfigs, display.selected.value.id);
      }
    }

    method HandleChange(field: Field, value: Value)
      requires Valid()
      modifies this
      ensures Valid()
      ensures config == WithField(old(config), field, value)
    {
      config := WithField(config, field, value);
    }

    /**
     * `handleSave`: nothing without a Pokémon; otherwise the record is put
     * under its id, in storage and in the page's map, every other entry kept.
     */
    method HandleSave()
      requires Valid()
      modifies display, display.storage
      ensures Valid()
      ensures config == old(config) && display.selected == old(display.selected)
      ensures display.error == old(display.error)
      ensures display.selected.None? ==>
        display.configs == old(display.configs) && display.storage.cardConfigs == old(display.storage.cardConfigs)
      ensures display.selected.Some? ==>
        var id := display.selected.value.id;
        && display.configs == old(display.configs)[id := config]
        && display.storage.cardConfigs == SaveInto(old(display.storage.cardConfigs), id, config)
    {
      if display.selected.None? {
        return;
      }
      var id := display.selected.value.id;
      PageWriteAgrees(display.storage.cardConfigs, display.configs, id, config);
      display.storage.cardConfigs := SaveInto(display.storage.cardConfigs, id, config);
      display.HandleConfigSave(id, config);
    }

    /**
     * `handleReset`: nothing without a Pokémon; otherwise the modal returns
     * to the default, the entry is deleted from a readable stored map, and
     * the page then stores the default under the id again.
     */
    method HandleReset()
      requires Valid()
      modifies this, display, display.storage
      ensures Valid()
      ensures display.selected == old(display.selected) && display.error == old(display.error)
      ensures display.selected.None? ==>
        && config == old(config) && display.configs == old(display.configs)
        && display.storage.cardConfigs == old(display.storage.cardConfigs)
      ensures display.selected.Some? ==>
        var id := display.selected.value.id;
        && config == DEFAULT_CONFIG
        && display.configs == old(display.configs)[id := DEFAULT_CONFIG]
        && display.storage.cardConfigs == Saved(display.configs)
    {
      if display.selected.None? {
        return;
      }
      var id := display.selected.value.id;
      DefaultsAgree();
      config := DEFAULT_CONFIG;
      var stored := display.storage.cardConfigs;
      if stored.Saved? {
        display.storage.cardConfigs := Saved(stored.configs - {id});
      }
      display.HandleConfigSave(id, DEFAULT_CONFIG);
    }
  }
}
