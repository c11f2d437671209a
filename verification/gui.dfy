/** The two static object pools of the GUI library:
    src/libgui/controls.c (buttons) and src/libgui/window.c (windows).
    A pool is the sequence of the objects handed out so far; a pointer
    into it is the slot index. Drawing forwards to system calls and is
    left out, except for the guard that decides whether a window draws. */
module Gui {
  import opened Options
  import opened CStrings

  const MaxButtons: nat := 32
  const ButtonText: nat := 31
  const MaxWindows: nat := 8
  const WindowTitle: nat := 63

  const Gray: nat := 0xFFC0C0C0
  const Black: nat := 0xFF000000
  const Navy: nat := 0xFF000080

  datatype Button = Button(x: int, y: int, width: int, height: int, text: string,
                           bgColor: nat, textColor: nat, pressed: bool)

  /** gui_create_button: a full pool refuses; otherwise the next slot is
      filled and its index returned. */
  method CreateButton(pool: seq<Button>, x: int, y: int, width: int, height: int, text: string)
    returns (r: seq<Button>, slot: Option<nat>)
    ensures |pool| >= MaxButtons ==> r == pool && slot == None
    ensures |pool| < MaxButtons ==>
      slot == Some(|pool|) && |r| == |pool| + 1 && r[..|pool|] == pool
      && var b := r[|pool|];
         b.x == x && b.y == y && b.width == width && b.height == height
         && b.bgColor == Gray && b.textColor == Black && !b.pressed
         && CString(b.text) == Truncate(CString(text), ButtonText)
  {
    if |pool| >= MaxButtons {
      return pool, None;
    }
    var copied := CopyBounded(text, ButtonText);
    r := pool + [Button(x, y, width, height, copied, Gray, Black, false)];
    slot := Some(|pool|);
  }

  datatype Window = Window(x: int, y: int, width: int, height: int, title: string,
                           bgColor: nat, titleColor: nat, visible: bool)

  /** gui_create_window */
  method CreateWindow(pool: seq<Window>, x: int, y: int, width: int, height: int, title: string, bgColor: nat)
    returns (r: seq<Window>, slot: Option<nat>)
    ensures |pool| >= MaxWindows ==> r == pool && slot == None
    ensures |pool| < MaxWindows ==>
      slot == Some(|pool|) && |r| == |pool| + 1 && r[..|pool|] == pool
      && var w := r[|pool|];
         w.x == x && w.y == y && w.width == width && w.height == height
         && w.bgColor == bgColor && w.titleColor == Navy && w.visible
         && CString(w.title) == Truncate(CString(title), WindowTitle)
  {
    if |pool| >= MaxWindows {
      return pool, None;
    }
    var copied := CopyBounded(title, WindowTitle);
    r := pool + [Window(x, y, width, height, copied, bgColor, Navy, true)];
    slot := Some(|pool|);
  }

  /** gui_free_window: the window only becomes invisible; its slot is not
      returned to the pool. A null pointer is ignored. */
  function FreeWindow(pool: seq<Window>, win: Option<nat>): (r: seq<Window>)
    requires win.Some? ==> win.value < |pool|
    ensures |r| == |pool|
    ensures forall i :: 0 <= i < |pool| ==>
              r[i] == if win == Some(i) then pool[i].(visible := false) else pool[i]
  {
    if win.None? then pool else pool[win.value := pool[win.value].(visible := false)]
  }

  /** The guard of gui_draw_window: nothing is drawn for a null pointer
      or an invisible window. */
  predicate Draws(pool: seq<Window>, win: Option<nat>)
    requires win.Some? ==> win.value < |pool|
  {
    win.Some? && pool[win.value].visible
  }

  /** A created window draws until it is freed; freeing one window does
      not hide another. */
  lemma FreeHides(pool: seq<Window>, win: Option<nat>, other: nat)
    requires win.Some? ==> win.value < |pool|
    requires other < |pool| && win != Some(other)
    ensures !Draws(FreeWindow(pool, win), win)
    ensures Draws(FreeWindow(pool, win), Some(other)) == Draws(pool, Some(other))
  {
  }
}
