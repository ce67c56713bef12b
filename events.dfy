/** The terminal input events src/handler.rs receives (crossterm's `KeyEvent` and `MouseEventKind`). */
module Events {

  datatype KeyCode =
    | Char(c: char)
    | Backspace | Enter | Left | Right | Up | Down | Home | End | PageUp | PageDown
    | Tab | BackTab | Delete | Insert | Esc | F(n: nat)
    | OtherKey  // caps lock, media keys and the rest, which the handler never names

  datatype Modifier = Shift | Control | Alt | Super | Hyper | Meta

  /** A key press: the key and the exact set of modifiers held. */
  datatype KeyEvent = KeyEvent(code: KeyCode, modifiers: set<Modifier>)

  datatype MouseButton = LeftButton | RightButton | MiddleButton

  datatype MouseEventKind =
    | ButtonDown(button: MouseButton)
    | ButtonUp(button: MouseButton)
    | Drag(button: MouseButton)
    | Moved
    | ScrollDown
    | ScrollUp
    | ScrollLeft
    | ScrollRight
}
