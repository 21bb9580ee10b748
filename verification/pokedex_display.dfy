/**
 * The Pokédex page: its in-memory map of card styles mirrored into storage,
 * the selected Pokémon, and the pure helpers that derive what a card shows
 * (style lookup with fallback, inline styles, the number badge, the slider).
 */
module Pokedex {
  import opened Wrappers
  import opened Php
  import opened Records
  import opened Http
  import opened Tables
  import opened CardStore
  import PokemonApi

  /** The style used for a Pokémon that has no entry of its own. */
  const DEFAULT_CARD_CONFIG: Config := map[
    BackgroundColor1 := Text("#667eea"),
    BackgroundColor2 := Text("#764ba2"),
    UseGradient := Flag(true),
    TextColor := Text("#ffffff"),
    LabelColor := Text("#ffffff"),
    ValueColor := Text("#ffffff"),
    BorderColor := Text("rgba(255, 255, 255, 0.3)"),
    NumberBadgeColor := Text("rgba(255, 255, 255, 0.2)"),
    ImageBackgroundColor := Text("rgba(255, 255, 255, 0.1)"),
    FontFamily := Text("Arial, sans-serif"),
    FontSizeTitle := Text("1.5"),
    FontSizeLabel := Text("0.9"),
    FontSizeValue := Text("1.1"),
    FontSizeNumber := Text("0.9")]

  const DELETE_ERROR_PREFIX := "Error al eliminar Pokémon: "
  const DELETE_ERROR_FALLBACK := "Error al eliminar el Pokémon."

  lemma DefaultCardConfigComplete()
    ensures Complete(DEFAULT_CARD_CONFIG)
  {
    forall f: Field ensures f in DEFAULT_CARD_CONFIG {
      match f
      case BackgroundColor1 =>
      case BackgroundColor2 =>
      case UseGradient =>
      case TextColor =>
      case LabelColor =>
      case ValueColor =>
      case BorderColor =>
      case NumberBadgeColor =>
      case ImageBackgroundColor =>
      case FontFamily =>
      case FontSizeTitle =>
      case FontSizeLabel =>
      case FontSizeValue =>
      case FontSizeNumber =>
    }
  }

  // ---------------------------------------------------------------------------
  // Deriving a card's look

  /**
   * `getPokemonConfig`: the stored record for the id as it is (a record is
   * always truthy, so a partial one is not completed), else the default.
   */
  function Lookup(configs: map<int, Config>, id: int): (c: Config)
    ensures id in configs ==> c == configs[id]
    ensures id !in configs ==> c == DEFAULT_CARD_CONFIG
  {
    if id in configs then configs[id] else DEFAULT_CARD_CONFIG
  }

  /** Putting a record under one id changes the lookup of that id only. */
  lemma LookupAfterPut(configs: map<int, Config>, id: int, c: Config, other: int)
    ensures Lookup(configs[id := c], id) == c
    ensures other != id ==> Lookup(configs[id := c], other) == Lookup(configs, other)
  {
  }

  /** The value of a field, or None for `undefined`. */
  function FieldOf(c: Config, f: Field): Option<Value> {
    if f in c then Some(c[f]) else None
  }

  /** JavaScript truthiness of a field value. */
  predicate Truthy(v: Option<Value>) {
    match v
    case None => false
    case Some(Text(s)) => s != ""
    case Some(Flag(b)) => b
  }

  /** A field value interpolated into a template literal. */
  function Interpolate(v: Option<Value>): string {
    match v
    case None => "undefined"
    case Some(Text(s)) => s
    case Some(Flag(b)) => if b then "true" else "false"
  }

  /** A field value used directly as an inline style: React sets only non-empty strings. */
  function CssValue(v: Option<Value>): Option<string> {
    match v
    case Some(Text(s)) => if s != "" then Some(s) else None
    case _ => None
  }

  function Gradient(from: string, to: string): string {
    "linear-gradient(135deg, " + from + " 0%, " + to + " 100%)"
  }

  /** The inline style of a card: background, text colour and font family. */
  datatype CardStyle = CardStyle(background: Option<string>, color: Option<string>, fontFamily: Option<string>)

  /**
   * `getCardStyles`: a 135-degree gradient from the first to the second
   * background colour when `useGradient` is truthy, else the first colour
   * alone; the text colour and font family as stored.
   */
  function CardStyles(configs: map<int, Config>, id: int): (r: CardStyle)
    ensures var c := Lookup(configs, id);
      && (Truthy(FieldOf(c, UseGradient)) ==>
            r.background == Some(Gradient(Interpolate(FieldOf(c, BackgroundColor1)), Interpolate(FieldOf(c, BackgroundColor2)))))
      && (!Truthy(FieldOf(c, UseGradient)) ==> r.background == CssValue(FieldOf(c, BackgroundColor1)))
      && r.color == CssValue(FieldOf(c, TextColor))
      && r.fontFamily == CssValue(FieldOf(c, FontFamily))
  {
    var c := Lookup(configs, id);
    var background :=
      if Truthy(FieldOf(c, UseGradient))
      then Some(Gradient(Interpolate(FieldOf(c, BackgroundColor1)), Interpolate(FieldOf(c, BackgroundColor2))))
      else CssValue(FieldOf(c, BackgroundColor1));
    CardStyle(background, CssValue(FieldOf(c, TextColor)), CssValue(FieldOf(c, FontFamily)))
  }

  /** A Pokémon without an entry gets the purple gradient, white text and Arial. */
  lemma DefaultCardStyles(configs: map<int, Config>, id: int)
    requires id !in configs
    ensures CardStyles(configs, id) ==
      CardStyle(Some(Gradient("#667eea", "#764ba2")), Some("#ffffff"), Some("Arial, sans-serif"))
  {
  }

  /** An entry with the switch off shows its first colour flat, whatever the second colour is. */
  lemma FlatBackground(configs: map<int, Config>, id: int, color: string)
    requires id in configs && color != ""
    requires FieldOf(configs[id], UseGradient) == Some(Flag(false))
    requires FieldOf(configs[id], BackgroundColor1) == Some(Text(color))
    ensures CardStyles(configs, id).background == Some(color)
  {
  }

  /** The number badge and table cell: `numero_pokemon || id`. */
  function DisplayNumber(p: PokemonRow): (n: int)
    ensures p.fields.numeroPokemon != 0 ==> n == p.fields.numeroPokemon
    ensures p.fields.numeroPokemon == 0 ==> n == p.id
  {
    if p.fields.numeroPokemon != 0 then p.fields.numeroPokemon else p.id
  }

  /**
   * Every row the list endpoint returns for a table whose rows were all
   * written by the endpoint shows its own positive Pokédex number, never the key.
   */
  lemma ListedRowsShowNumero(s: TableState<Pokemon>, rows: seq<PokemonRow>)
    requires PokemonApi.ListsTable(s, rows)
    requires forall k :: k in s.rows ==> PokemonApi.WellFormed(s.rows[k])
    ensures forall i :: 0 <= i < |rows| ==>
      DisplayNumber(rows[i]) == rows[i].fields.numeroPokemon && DisplayNumber(rows[i]) > 0
  {
    forall i | 0 <= i < |rows|
      ensures DisplayNumber(rows[i]) == rows[i].fields.numeroPokemon && DisplayNumber(rows[i]) > 0
    {
      assert rows[i].id in s.rows && rows[i].fields == s.rows[rows[i].id];
    }
  }

  /** The slider track: the list followed by itself, so that scrolling wraps round. */
  function SliderTrack(list: seq<PokemonRow>): (track: seq<PokemonRow>)
    ensures |track| == 2 * |list|
    ensures forall i :: 0 <= i < |track| ==> track[i] == list[i % |list|]
  {
    DoubledWraps(list);
    list + list
  }

  /** Slide `i` of the doubled list shows the Pokémon at `i` modulo the list's length. */
  lemma DoubledWraps(list: seq<PokemonRow>)
    ensures forall i :: 0 <= i < 2 * |list| ==> (list + list)[i] == list[i % |list|]
  {
    forall i | 0 <= i < 2 * |list| ensures (list + list)[i] == list[i % |list|] {
      if i >= |list| {
        assert 0 <= i - |list| < |list|;
        assert i % |list| == i - |list|;
      }
    }
  }

  /** The `--pokemon-count` custom property: the number of slides, in decimal. */
  function PokemonCount(list: seq<PokemonRow>): string {
    DecimalString(|list| * 2)
  }

  /** The `--single-set-width` custom property: 160 pixels per Pokémon of one copy of the list. */
  function SingleSetWidth(list: seq<PokemonRow>): string {
    DecimalString(|list| * 160) + "px"
  }

  /** The `--pokemon-count` property is the number of slides on the track, written in decimal. */
  lemma SliderCountMatchesTrack(list: seq<PokemonRow>)
    ensures PokemonCount(list) == DecimalString(|SliderTrack(list)|)
    ensures DigitsValue(PokemonCount(list)) == |SliderTrack(list)|
  {
    DigitsValueOfDecimal(|list| * 2);
  }

  /**
   * The `--single-set-width` property is a length in pixels: decimal digits
   * followed by "px", whose value is 160 times the number of slides in one
   * copy of the list, so the track scrolls by exactly half its slides.
   */
  lemma SliderWidthMatchesTrack(list: seq<PokemonRow>)
    ensures var w := SingleSetWidth(list);
      && |w| >= 3 && w[|w| - 2..] == "px"
      && AllDigits(w[..|w| - 2])
      && DigitsValue(w[..|w| - 2]) == 160 * (|SliderTrack(list)| / 2)
  {
    var n := |list|;
    var digits := DecimalString(n * 160);
    var w := SingleSetWidth(list);
    assert w == digits + "px";
    assert w[..|w| - 2] == digits && w[|w| - 2..] == "px";
    DigitsValueOfDecimal(n * 160);
    assert |SliderTrack(list)| / 2 == n;
  }

  // ---------------------------------------------------------------------------
  // Deleting

  /** `response.ok && data.success`. */
  predicate Accepted(r: Response) {
    IsOk(r) && SuccessFlag(r.body) == Some(true)
  }

  /** `data.error || 'Error al eliminar el Pokémon.'` */
  function DeleteErrorMessage(body: Json): (m: string)
    ensures m != ""
  {
    match body
    case Failure(e) => if e != "" then e else DELETE_ERROR_FALLBACK
    case ErrorOnly(e) => if e != "" then e else DELETE_ERROR_FALLBACK
    case _ => DELETE_ERROR_FALLBACK
  }

  /**
   * The page's request for a listed key is accepted exactly when the key is
   * in the table; a refusal carries the server's message.
   */
  lemma ServerDeleteAccepted(s0: TableState<Pokemon>, s1: TableState<Pokemon>, id: int, resp: Response)
    requires id >= 1
    requires PokemonApi.DeleteSpec(s0, s1, Some(DecimalString(id)), resp)
    ensures Accepted(resp) <==> id in s0.rows
    ensures !Accepted(resp) ==> DeleteErrorMessage(resp.body) == PokemonApi.MSG_NOT_FOUND
  {
    PokemonApi.DecimalIdSelects(id);
  }

  // ---------------------------------------------------------------------------
  // The page's state

  class PokedexDisplay {
    var configs: map<int, Config>       // pokemonConfigs
    var selected: Option<PokemonRow>    // selectedPokemon
    var error: Option<string>
    const storage: LocalStorage

    ghost predicate Synced()
      reads this, storage
    {
      SyncedWith(storage.cardConfigs, configs)
    }

    /** The mount effect: read the stored map, keeping `{}` when nothing readable is stored. */
    constructor Mount(storage: LocalStorage)
      ensures this.storage == storage
      ensures configs == if storage.cardConfigs.Saved? then storage.cardConfigs.configs else map[]
      ensures selected == None && error == None
      ensures Synced()
    {
      this.storage := storage;
      configs := if storage.cardConfigs.Saved? then storage.cardConfigs.configs else map[];
      selected := None;
      error := None;
    }

    method HandlePokemonClick(p: PokemonRow)
      modifies this
      ensures selected == Some(p)
      ensures configs == old(configs) && error == old(error)
    {
      selected := Some(p);
    }

    /**
     * `handleConfigSave`: put the record under the id in the page's map and
     * write that whole map to storage.
     */
    method HandleConfigSave(id: int, c: Config)
      modifies this, storage
      ensures configs == old(configs)[id := c]
      ensures storage.cardConfigs == Saved(configs)
      ensures selected == old(selected) && error == old(error)
      ensures Synced()
    {
      var next := configs[id := c];
      configs := next;
      storage.cardConfigs := Saved(next);
    }

    /**
     * `handleDelete` once the server has answered `resp`: nothing happens
     * unless the user confirmed; an accepted delete clears the selection
     * exactly when the selected Pokémon has the deleted id; a refused one
     * records the error instead.
     */
    method HandleDelete(id: int, confirmed: bool, resp: Response)
      modifies this
      ensures configs == old(configs)
      ensures !confirmed ==> selected == old(selected) && error == old(error)
      ensures confirmed && Accepted(resp) ==>
        && error == old(error)
        && (selected.None? <==> old(selected).None? || old(selected).value.id == id)
        && (selected.Some? ==> selected == old(selected))
      ensures confirmed && !Accepted(resp) ==>
        selected == old(selected) && error == Some(DELETE_ERROR_PREFIX + DeleteErrorMessage(resp.body))
    {
      if !confirmed {
        return;
      }
      if !Accepted(resp) {
        error := Some(DELETE_ERROR_PREFIX + DeleteErrorMessage(resp.body));
        return;
      }
      if selected.Some? && selected.value.id == id {
        selected := None;
      }
    }
  }
}
