/**
  The key bindings of the terminal app (lifegame-tui/src/handler.rs): each key event
  quits, toggles, resets or pans the app, or is ignored.
 */
module Handler {
  import opened Results
  import opened MachineInts
  import opened TuiApp

  /**
    The key codes the handler tells apart; `OtherKey` stands for every remaining code
    of the terminal library (function keys, Enter, Backspace, ...).
   */
  datatype KeyCode = Esc | Char(c: char) | Left | Right | Up | Down | OtherKey

  /** The modifier flags of a key event, one bit per modifier key. */
  type KeyModifiers = bv8

  const NONE: KeyModifiers := 0x00
  const SHIFT: KeyModifiers := 0x01
  const CONTROL: KeyModifiers := 0x02
  const ALT: KeyModifiers := 0x04
  const SUPER: KeyModifiers := 0x08
  const HYPER: KeyModifiers := 0x10
  const META: KeyModifiers := 0x20

  /** A key press: its code and the modifiers held with it. */
  datatype KeyEvent = KeyEvent(code: KeyCode, modifiers: KeyModifiers)

  /**
    `handle_key_events` on values: the result it returns and the app it leaves, with
    `cells` standing for the cells a reset would sample.
   */
  function KeyHandled(key: KeyEvent, app: AppView, cells: seq<Cell>): (Result<()>, AppView) {
    match key.code
    case Esc => (Ok(()), Quitted(app))
    case Char(c) =>
      if c == 'q' then (Ok(()), Quitted(app))
      else if c == 'c' || c == 'C' then
        if key.modifiers == CONTROL then (Ok(()), Quitted(app)) else (Ok(()), app)
      else if c == 's' then (Ok(()), Toggled(app))
      else if c == 'r' then
        match ResetWith(app, cells)
        case Ok(reset) => (Ok(()), reset)
        case Err(msg) => (Err(msg), app)
      else (Ok(()), app)
    case Left => (Ok(()), app.(renderingIx := SaturatingSub(app.renderingIx, 1)))
    case Right => (Ok(()), app.(renderingIx := SaturatingAdd(app.renderingIx, 1)))
    case Up => (Ok(()), app.(renderingIy := SaturatingSub(app.renderingIy, 1)))
    case Down => (Ok(()), app.(renderingIy := SaturatingAdd(app.renderingIy, 1)))
    case OtherKey => (Ok(()), app)
  }

  /** `handle_key_events`: dispatches one key event onto the app. */
  method HandleKeyEvents(key: KeyEvent, app: App, cells: seq<Cell>) returns (r: Result<()>)
    requires app.Valid()
    modifies app
    ensures app.Valid()
    ensures (r, app.View()) == KeyHandled(key, old(app.View()), cells)
  {
    match key.code {
      case Esc =>
        app.Quit();
      case Char(c) =>
        if c == 'q' {
          app.Quit();
        } else if c == 'c' || c == 'C' {
          if key.modifiers == CONTROL {
            app.Quit();
          }
        } else if c == 's' {
          app.Toggle();
        } else if c == 'r' {
          var reset := app.Reset(cells);
          if reset.Err? {
            return Err(reset.msg);
          }
        }
      case Left =>
        app.renderingIx := SaturatingSub(app.renderingIx, 1);
      case Right =>
        app.renderingIx := SaturatingAdd(app.renderingIx, 1);
      case Up =>
        app.renderingIy := SaturatingSub(app.renderingIy, 1);
      case Down =>
        app.renderingIy := SaturatingAdd(app.renderingIy, 1);
      case OtherKey =>
    }
    return Ok(());
  }

  // ---------------------------------------------------------------------------
  // The bindings
  // ---------------------------------------------------------------------------

  /** `Esc` and `q` quit, whatever the modifiers. */
  lemma EscOrQQuits(key: KeyEvent, app: AppView, cells: seq<Cell>)
    requires key.code == Esc || key.code == Char('q')
    ensures KeyHandled(key, app, cells).0 == Ok(())
    ensures KeyHandled(key, app, cells).1.state == Quit
    ensures KeyHandled(key, app, cells).1 == app.(state := Quit)
  {
  }

  /** `c` or `C` quits exactly when the modifiers are Control alone; otherwise nothing happens. */
  lemma CtrlCQuits(key: KeyEvent, app: AppView, cells: seq<Cell>)
    requires key.code == Char('c') || key.code == Char('C')
    ensures KeyHandled(key, app, cells).0 == Ok(())
    ensures key.modifiers == CONTROL ==> KeyHandled(key, app, cells).1 == app.(state := Quit)
    ensures key.modifiers != CONTROL ==> KeyHandled(key, app, cells).1 == app
  {
  }

  /** Control and Shift together with `c` do not quit: the modifiers must equal Control exactly. */
  lemma CtrlShiftCDoesNotQuit(app: AppView, cells: seq<Cell>)
    ensures KeyHandled(KeyEvent(Char('C'), CONTROL | SHIFT), app, cells) == (Ok(()), app)
  {
  }

  /** `s` toggles between running and pausing. */
  lemma SToggles(key: KeyEvent, app: AppView, cells: seq<Cell>)
    requires key.code == Char('s')
    ensures KeyHandled(key, app, cells) == (Ok(()), Toggled(app))
  {
  }

  /** `r` resets, and the error of a failed reset is returned with the app untouched. */
  lemma RResets(key: KeyEvent, app: AppView, cells: seq<Cell>)
    requires key.code == Char('r')
    ensures ResetWith(app, cells).Ok? ==>
      KeyHandled(key, app, cells) == (Ok(()), ResetWith(app, cells).value)
    ensures ResetWith(app, cells).Err? ==>
      KeyHandled(key, app, cells) == (Err(ResetWith(app, cells).msg), app)
  {
  }

  /** Only `r` can fail, and only while paused with a wrong number of cells. */
  lemma OnlyResetFails(key: KeyEvent, app: AppView, cells: seq<Cell>)
    ensures KeyHandled(key, app, cells).0.Err? <==>
      key.code == Char('r') && app.state == Pause && |cells| != app.nx * app.ny
  {
  }

  /** `Left` and `Up` move their offset back by one, stopping at zero, and change nothing else. */
  lemma LeftAndUpStopAtZero(key: KeyEvent, app: AppView, cells: seq<Cell>)
    requires key.code == Left || key.code == Up
    ensures KeyHandled(key, app, cells).0 == Ok(())
    ensures key.code == Left ==>
      KeyHandled(key, app, cells).1 == app.(renderingIx := Max(0, app.renderingIx - 1))
    ensures key.code == Up ==>
      KeyHandled(key, app, cells).1 == app.(renderingIy := Max(0, app.renderingIy - 1))
  {
  }

  /**
    `Right` and `Down` move their offset on by one, stopping only at `usize::MAX`, and
    change nothing else.
   */
  lemma RightAndDownSaturate(key: KeyEvent, app: AppView, cells: seq<Cell>)
    requires key.code == Right || key.code == Down
    ensures KeyHandled(key, app, cells).0 == Ok(())
    ensures key.code == Right ==>
      KeyHandled(key, app, cells).1 == app.(renderingIx := Min(app.renderingIx + 1, USIZE_MAX))
    ensures key.code == Down ==>
      KeyHandled(key, app, cells).1 == app.(renderingIy := Min(app.renderingIy + 1, USIZE_MAX))
  {
  }

  /**
    Unlike `pan_x`, the `Right` key is not held at the grid width: from an offset equal
    to `nx` it moves past it, where `pan_x(1)` would stay.
   */
  lemma RightIsNotClampedToWidth(app: AppView, cells: seq<Cell>)
    requires app.renderingIx == app.nx < USIZE_MAX
    ensures KeyHandled(KeyEvent(Right, NONE), app, cells).1.renderingIx == app.nx + 1
    ensures PannedX(app, 1).renderingIx == app.nx
  {
  }

  /** Any other key changes nothing and succeeds. */
  lemma OtherKeysAreIgnored(key: KeyEvent, app: AppView, cells: seq<Cell>)
    requires key.code == OtherKey ||
      (key.code.Char? && key.code.c !in {'q', 'c', 'C', 's', 'r'})
    ensures KeyHandled(key, app, cells) == (Ok(()), app)
  {
  }

  /** No key changes the grid size or breaks the world's cell count. */
  lemma KeysKeepWellFormed(key: KeyEvent, app: AppView, cells: seq<Cell>)
    requires app.WellFormed()
    ensures KeyHandled(key, app, cells).1.WellFormed()
    ensures KeyHandled(key, app, cells).1.nx == app.nx && KeyHandled(key, app, cells).1.ny == app.ny
  {
  }
}
