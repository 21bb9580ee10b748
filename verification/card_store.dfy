/**
 * The per-Pokémon card styles kept in the browser under the
 * `pokemonCardConfigs` key: a style record of fourteen named fields, and the
 * stored map from Pokémon id to such a record.
 */
module CardStore {

  /** The fourteen properties of a card style. */
  datatype Field =
    | BackgroundColor1 | BackgroundColor2 | UseGradient
    | TextColor | LabelColor | ValueColor
    | BorderColor | NumberBadgeColor | ImageBackgroundColor
    | FontFamily | FontSizeTitle | FontSizeLabel | FontSizeValue | FontSizeNumber

  /** A JSON value a style field can hold: a string, or the gradient switch's boolean. */
  datatype Value = Text(text: string) | Flag(flag: bool)

  /** A style record; a field absent from the map is `undefined`. */
  type Config = map<Field, Value>

  /** Every one of the fourteen fields is present. */
  predicate Complete(c: Config) {
    forall f: Field :: f in c
  }

  /**
   * What `localStorage.getItem` followed by `JSON.parse` yields: nothing
   * stored (or the empty string), text that does not parse, or a map from
   * Pokémon id to style record.
   */
  datatype Stored = Missing | Unparseable | Saved(configs: map<int, Config>)

  /** The component's in-memory map agrees with storage: the stored map itself, or empty when nothing readable is stored. */
  predicate SyncedWith(stored: Stored, configs: map<int, Config>) {
    stored == Saved(configs) || (!stored.Saved? && configs == map[])
  }

  /** The browser's storage cell for `pokemonCardConfigs`, shared by every component of the page. */
  class LocalStorage {
    var cardConfigs: Stored

    constructor (initial: Stored)
      ensures cardConfigs == initial
    {
      cardConfigs := initial;
    }
  }
}
