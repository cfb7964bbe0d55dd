/** Keyboard input: the key-code to direction mapping of the key-down handler. */
module GameControls {

  import opened Wrappers
  import opened Geometry

  /** The codes whose default browser action (page scrolling) is suppressed. */
  const PreventDefaultCodes: seq<string> :=
    ["ArrowUp", "ArrowDown", "ArrowLeft", "ArrowRight", "KeyW", "KeyS", "KeyA", "KeyD"]

  /** The direction a key code requests, if any (arrows and WASD). */
  function KeyDirection(code: string): (r: Option<Direction>)
  {
    match code
    case "ArrowUp" => Some(Up)
    case "KeyW" => Some(Up)
    case "ArrowDown" => Some(Down)
    case "KeyS" => Some(Down)
    case "ArrowLeft" => Some(Left)
    case "KeyA" => Some(Left)
    case "ArrowRight" => Some(Right)
    case "KeyD" => Some(Right)
    case _ => None
  }

  /** What one key-down event does: whether the default action is
      prevented, and the direction change it emits. */
  datatype KeyOutcome = KeyOutcome(prevented: bool, emitted: Option<Direction>)

  function HandleKeyDown(code: string): (r: KeyOutcome)
    ensures r.prevented <==> r.emitted.Some?
    ensures r.prevented <==> code in PreventDefaultCodes
    ensures r.emitted == Some(Up) <==> code == "ArrowUp" || code == "KeyW"
    ensures r.emitted == Some(Down) <==> code == "ArrowDown" || code == "KeyS"
    ensures r.emitted == Some(Left) <==> code == "ArrowLeft" || code == "KeyA"
    ensures r.emitted == Some(Right) <==> code == "ArrowRight" || code == "KeyD"
  {
    KeyOutcome(code in PreventDefaultCodes, KeyDirection(code))
  }

  /** The key codes that request direction `d`. */
  function KeysFor(d: Direction): set<string> {
    set c | c in PreventDefaultCodes && KeyDirection(c) == Some(d)
  }

  /** The two key codes of each direction, as the key-down handler lists them. */
  function KeyPair(d: Direction): (string, string) {
    match d
    case Up => ("ArrowUp", "KeyW")
    case Down => ("ArrowDown", "KeyS")
    case Left => ("ArrowLeft", "KeyA")
    case Right => ("ArrowRight", "KeyD")
  }

  /** Exactly the two listed codes request `d`, and they are distinct. */
  lemma KeysForIsPair(d: Direction)
    ensures KeysFor(d) == {KeyPair(d).0, KeyPair(d).1}
    ensures |KeysFor(d)| == 2
  {
  }

  /** The codes with a direction are exactly the codes whose default action
      is prevented: every other code is ignored. */
  lemma HandledCodesArePrevented(c: string)
    ensures KeyDirection(c).Some? <==> c in PreventDefaultCodes
  {
  }

}
