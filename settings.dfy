/** The plugin's configuration, once its parameters have been read, and the
    two name-to-number tables used for the message window. */
module Settings {

  datatype Option<T> = None | Some(value: T)

  /** What the decoder reads from the configuration: the line width budget,
      the colour indices for coded and decoded text, and the user-defined
      characters that are never decoded (in addition to the built-in ones). */
  datatype Config = Config(
    width: nat,
    codedColor: nat,
    decodedColor: nat,
    otherNonDecode: set<char>)

  /** `getPositionValue`: the message-window position number of a position
      name; any other name gives no value (`undefined`). */
  function PositionValue(name: string): (r: Option<nat>)
    ensures r.Some? <==> name in {"Top", "Middle", "Bottom"}
    ensures r.Some? ==> r.value < 3 && PositionName(r.value) == name
  {
    match name
    case "Top" => Some(0)
    case "Middle" => Some(1)
    case "Bottom" => Some(2)
    case _ => None
  }

  /** The position name for each position number. */
  function PositionName(value: nat): string
    requires value < 3
  {
    ["Top", "Middle", "Bottom"][value]
  }

  /** `getBackgroundValue`: the message-window background number of a
      background name; any other name gives no value (`undefined`). */
  function BackgroundValue(name: string): (r: Option<nat>)
    ensures r.Some? <==> name in {"Opaque", "Transparent", "Invisible"}
    ensures r.Some? ==> r.value < 3 && BackgroundName(r.value) == name
  {
    match name
    case "Opaque" => Some(0)
    case "Transparent" => Some(1)
    case "Invisible" => Some(2)
    case _ => None
  }

  /** The background name for each background number. */
  function BackgroundName(value: nat): string
    requires value < 3
  {
    ["Opaque", "Transparent", "Invisible"][value]
  }

  /** Every position number is reached from its own name. */
  lemma PositionNameRoundTrip(value: nat)
    requires value < 3
    ensures PositionValue(PositionName(value)) == Some(value)
  {
  }

  /** Every background number is reached from its own name. */
  lemma BackgroundNameRoundTrip(value: nat)
    requires value < 3
    ensures BackgroundValue(BackgroundName(value)) == Some(value)
  {
  }
}
