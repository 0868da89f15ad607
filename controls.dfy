/**
 The key switch of handleInput and the pause-menu index arithmetic.
 Key codes are the values _getch returns; reading them is not modelled.
 */
module Controls {

  datatype Option<T> = None | Some(value: T)

  /** What one key press asks the game to do. */
  datatype Command =
    | MoveLeft | MoveRight | Rotate | SoftDrop | HardDrop | TogglePause
    | MenuUp | MenuDown | MenuSelect
    | NoAction

  const KEY_UP: int := 72
  const KEY_DOWN: int := 80
  const KEY_LEFT: int := 75
  const KEY_RIGHT: int := 77
  const KEY_ENTER: int := 13
  const KEY_SPACE: int := 32
  const KEY_ESC: int := 27

  /** Pause-menu items, in display order. */
  const CONTINUE: int := 0
  const RESTART: int := 1
  const EXIT: int := 2
  const MENU_ITEMS: int := 3

  predicate IsMenuCommand(c: Command) {
    c.MenuUp? || c.MenuDown? || c.MenuSelect?
  }

  /**
   handleInput's two switches: while paused only the up and down arrows
   and Enter do anything (Escape included, is ignored); while playing the
   arrows, WASD, space and Escape act and Enter is ignored.
   */
  function Decode(isPaused: bool, key: int): (c: Command)
    ensures isPaused ==> IsMenuCommand(c) || c.NoAction?
    ensures !isPaused ==> !IsMenuCommand(c)
    ensures c.TogglePause? <==> !isPaused && key == KEY_ESC
    ensures c.MenuSelect? <==> isPaused && key == KEY_ENTER
    ensures c == HardDrop <==> !isPaused && key == KEY_SPACE
  {
    if isPaused then
      if key == KEY_UP then MenuUp
      else if key == KEY_DOWN then MenuDown
      else if key == KEY_ENTER then MenuSelect
      else NoAction
    else
      if key == KEY_LEFT || key == 'a' as int || key == 'A' as int then MoveLeft
      else if key == KEY_RIGHT || key == 'd' as int || key == 'D' as int then MoveRight
      else if key == KEY_UP || key == 'w' as int || key == 'W' as int then Rotate
      else if key == KEY_DOWN || key == 's' as int || key == 'S' as int then SoftDrop
      else if key == KEY_SPACE then HardDrop
      else if key == KEY_ESC then TogglePause
      else NoAction
  }

  /** The up arrow and the down arrow share their codes between the two modes. */
  lemma ArrowsInBothModes()
    ensures Decode(false, KEY_UP) == Rotate && Decode(true, KEY_UP) == MenuUp
    ensures Decode(false, KEY_DOWN) == SoftDrop && Decode(true, KEY_DOWN) == MenuDown
  {
  }

  /** `(s - 1 + 3) % 3`: the item above, wrapping from Continue to Exit. */
  function PreviousItem(s: int): (r: int)
    requires 0 <= s < MENU_ITEMS
    ensures 0 <= r < MENU_ITEMS
    ensures r == if s == CONTINUE then EXIT else s - 1
  {
    (s - 1 + MENU_ITEMS) % MENU_ITEMS
  }

  /** `(s + 1) % 3`: the item below, wrapping from Exit to Continue. */
  function NextItem(s: int): (r: int)
    requires 0 <= s < MENU_ITEMS
    ensures 0 <= r < MENU_ITEMS
    ensures r == if s == EXIT then CONTINUE else s + 1
  {
    (s + 1) % MENU_ITEMS
  }

  /** Up and down undo each other; three steps either way come back. */
  lemma MenuSteps(s: int)
    requires 0 <= s < MENU_ITEMS
    ensures NextItem(PreviousItem(s)) == s && PreviousItem(NextItem(s)) == s
    ensures NextItem(NextItem(NextItem(s))) == s
    ensures PreviousItem(PreviousItem(PreviousItem(s))) == s
  {
  }
}
