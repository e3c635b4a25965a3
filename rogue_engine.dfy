// The C++ roguelike's game engine (game_engine.hpp): the keyboard and mouse
// state the window callbacks keep, the snapshot of it taken every frame so a
// state can ask what was pressed, and the stack of game states of which only
// the top one is updated and drawn. The states themselves (`enter`, `exit`,
// `update`, `render`) are code this model does not see: the engine records
// the calls it makes on them in `calls`, and a frame is told which pushes
// and pops the top state's `update` asks for.
module RogueEngine {
  import opened Wrappers
  import opened RogueGrid
  import opened Strings

  /** `KB_KEY_MENU`, the highest key code, which is also `KB_KEY_LAST` (graphics/graphics.h:841-845). */
  const KeyMenu := 348
  const KeyLast := KeyMenu
  /** `KB_KEY_F4` and `KB_MOD_ALT` (graphics/graphics.h:794, 854). */
  const KeyF4 := 293
  const ModAlt := 4
  /** `KB_KEY_Q`, `KB_KEY_W` and `KB_MOD_SUPER` (graphics/graphics.h:756, 762, 855). */
  const KeyQ := 81
  const KeyW := 87
  const ModSuper := 8
  /** `MOUSE_LAST`, which is `MOUSE_BTN_8` (graphics/graphics.h:701-712); buttons arrive numbered 1 to 8. */
  const MouseLast := 8

  /** The slots game_engine.hpp:21 and :28 declare: `KB_KEY_LAST` keys and `MOUSE_LAST - 1` buttons. */
  const DeclaredKeySlots := KeyLast
  const DeclaredBtnSlots := MouseLast - 1

  /**
   * The slots the engine of this model has: one per key code 0 to
   * `KB_KEY_LAST`, and `MOUSE_LAST` for the buttons, so that button b,
   * delivered as 1 to 8, lands in slot b - 1 and queries with 0 to 7
   * (`MOUSE_LEFT` is `MOUSE_BTN_0`) read those slots.
   */
  const KeySlots := KeyLast + 1
  const BtnSlots := MouseLast

  /** `keyboard_t`. */
  datatype Keyboard = Keyboard(keys: seq<bool>, mod: int)

  /** `mouse_t`; the wheel offsets are floats in the source. */
  datatype Mouse = Mouse(btns: seq<bool>, pos: Point, wheel: (real, real), mod: int)

  /** The window callbacks `sgl_poll` can make (mouse movement is not part of this model). */
  datatype Event =
    | KeyEvent(sym: int, mod: int, down: bool)
    | ButtonEvent(btn: int, mod: int, down: bool)
    | ScrollEvent(mod: int, dx: real, dy: real)
    | ActiveEvent(focused: bool)
    | ResizeEvent(w: int, h: int)

  /** A game state, known to the engine only by what it is. */
  datatype State = State(name: string)

  /** A call the engine makes on a game state; `Update` carries the tick difference it passes. */
  datatype Call = Enter(s: State) | Exit(s: State) | Update(s: State, dt: int) | Render(s: State)

  // ---- The source as written: the two arrays are one slot short ----

  /**
   * `on_keyboard` as written (game_engine.hpp:32-33) on the `KB_KEY_LAST`
   * declared slots; None where `keys[sym]` is past the end.
   */
  function KeyAsWritten(keys: seq<bool>, sym: int, down: bool): (r: Option<seq<bool>>)
    requires |keys| == DeclaredKeySlots
    ensures r.Some? <==> 0 <= sym < DeclaredKeySlots
    ensures r.Some? ==> |r.value| == |keys| && r.value[sym] == down
  {
    if 0 <= sym < DeclaredKeySlots then Some(keys[sym := down]) else None
  }

  /** The menu key, a real key code, has no slot in the declared array. */
  lemma MenuKeyPastEnd()
    ensures KeyAsWritten(seq(DeclaredKeySlots, _ => false), KeyMenu, true).None?
  {
  }

  /** `on_mouse_button` as written (game_engine.hpp:38): slot btn - 1 of the seven declared; None past the end. */
  function PressAsWritten(btns: seq<bool>, btn: int, down: bool): (r: Option<seq<bool>>)
    requires |btns| == DeclaredBtnSlots
    ensures r.Some? <==> 1 <= btn <= DeclaredBtnSlots
    ensures r.Some? ==> |r.value| == |btns| && r.value[btn - 1] == down
  {
    if 1 <= btn <= DeclaredBtnSlots then Some(btns[btn - 1 := down]) else None
  }

  /** `is_btn_down` as written (game_engine.hpp:164-166): slot btn; None past the end. */
  function IsBtnDownAsWritten(btns: seq<bool>, btn: int): (r: Option<bool>)
    requires |btns| == DeclaredBtnSlots
    ensures r.Some? <==> 0 <= btn < DeclaredBtnSlots
    ensures r.Some? ==> r.value == btns[btn]
  {
    if 0 <= btn < DeclaredBtnSlots then Some(btns[btn]) else None
  }

  /**
   * With the seven slots as written, the last button has no slot: a press
   * of button 8 is stored past the end, and the query for it, slot 7,
   * reads past the end.
   */
  lemma LastButtonNoSlot()
    ensures PressAsWritten(seq(DeclaredBtnSlots, _ => false), MouseLast, true).None?
    ensures IsBtnDownAsWritten(seq(DeclaredBtnSlots, _ => false), MouseLast - 1).None?
  {
  }

  // ---- What the callbacks do, as functions of the input state ----

  /** A callback whose index has a slot. */
  predicate InRange(e: Event) {
    (e.KeyEvent? ==> 0 <= e.sym < KeySlots) && (e.ButtonEvent? ==> 1 <= e.btn <= BtnSlots)
  }

  /** The keyboard after one callback. */
  function KeyStep(kb: Keyboard, e: Event): (r: Keyboard)
    ensures |r.keys| == |kb.keys|
  {
    if e.KeyEvent? && 0 <= e.sym < |kb.keys| then Keyboard(kb.keys[e.sym := e.down], e.mod) else kb
  }

  /** The mouse after one callback. */
  function MouseStep(m: Mouse, e: Event): (r: Mouse)
    ensures |r.btns| == |m.btns|
  {
    match e
    case ButtonEvent(btn, mod, down) =>
      if 1 <= btn <= |m.btns| then m.(btns := m.btns[btn - 1 := down], mod := mod) else m
    case ScrollEvent(mod, dx, dy) => m.(wheel := (dx, dy), mod := mod)
    case _ => m
  }

  /** Whether the window has the focus after one callback. */
  function ActiveStep(a: bool, e: Event): bool {
    if e.ActiveEvent? then e.focused else a
  }

  /** The window size after one callback. */
  function ScreenStep(s: (int, int), e: Event): (int, int) {
    if e.ResizeEvent? then (e.w, e.h) else s
  }

  function KeysAfter(kb: Keyboard, es: seq<Event>): (r: Keyboard)
    ensures |r.keys| == |kb.keys|
  {
    if es == [] then kb else KeyStep(KeysAfter(kb, es[..|es| - 1]), es[|es| - 1])
  }

  function MouseAfter(m: Mouse, es: seq<Event>): (r: Mouse)
    ensures |r.btns| == |m.btns|
  {
    if es == [] then m else MouseStep(MouseAfter(m, es[..|es| - 1]), es[|es| - 1])
  }

  function ActiveAfter(a: bool, es: seq<Event>): bool {
    if es == [] then a else ActiveStep(ActiveAfter(a, es[..|es| - 1]), es[|es| - 1])
  }

  function ScreenAfter(s: (int, int), es: seq<Event>): (int, int) {
    if es == [] then s else ScreenStep(ScreenAfter(s, es[..|es| - 1]), es[|es| - 1])
  }

  /** No callback of the frame is about key k. */
  predicate NoKeyEvent(es: seq<Event>, k: int) {
    forall i :: 0 <= i < |es| ==> !(es[i].KeyEvent? && es[i].sym == k)
  }

  /** No callback of the frame is about button b. */
  predicate NoButtonEvent(es: seq<Event>, b: int) {
    forall i :: 0 <= i < |es| ==> !(es[i].ButtonEvent? && es[i].btn == b)
  }

  /** A key no callback touches keeps its state through the frame. */
  lemma {:induction false} UntouchedKey(kb: Keyboard, es: seq<Event>, k: int)
    requires 0 <= k < |kb.keys| && NoKeyEvent(es, k)
    ensures KeysAfter(kb, es).keys[k] == kb.keys[k]
  {
    if es != [] {
      assert NoKeyEvent(es[..|es| - 1], k) by {
        forall i | 0 <= i < |es| - 1 ensures es[..|es| - 1][i] == es[i] { }
      }
      UntouchedKey(kb, es[..|es| - 1], k);
    }
  }

  /** A button no callback touches keeps its state through the frame. */
  lemma {:induction false} UntouchedButton(m: Mouse, es: seq<Event>, b: int)
    requires 1 <= b <= |m.btns| && NoButtonEvent(es, b)
    ensures MouseAfter(m, es).btns[b - 1] == m.btns[b - 1]
  {
    if es != [] {
      assert NoButtonEvent(es[..|es| - 1], b) by {
        forall i | 0 <= i < |es| - 1 ensures es[..|es| - 1][i] == es[i] { }
      }
      UntouchedButton(m, es[..|es| - 1], b);
    }
  }

  /** Every key no callback touches keeps its state through the frame. */
  lemma KeysUntouched(kb: Keyboard, es: seq<Event>)
    ensures forall k :: 0 <= k < |kb.keys| && NoKeyEvent(es, k) ==> KeysAfter(kb, es).keys[k] == kb.keys[k]
  {
    forall k | 0 <= k < |kb.keys| && NoKeyEvent(es, k)
      ensures KeysAfter(kb, es).keys[k] == kb.keys[k]
    {
      UntouchedKey(kb, es, k);
    }
  }

  /** Every button no callback touches keeps its state through the frame. */
  lemma ButtonsUntouched(m: Mouse, es: seq<Event>)
    ensures forall b :: 1 <= b <= |m.btns| && NoButtonEvent(es, b) ==> MouseAfter(m, es).btns[b - 1] == m.btns[b - 1]
  {
    forall b | 1 <= b <= |m.btns| && NoButtonEvent(es, b)
      ensures MouseAfter(m, es).btns[b - 1] == m.btns[b - 1]
    {
      UntouchedButton(m, es, b);
    }
  }

  /** What the end of a frame does to the mouse: wheel and modifier back to zero (game_engine.hpp:127-128). */
  function Settled(m: Mouse): (r: Mouse)
    ensures r.btns == m.btns && r.pos == m.pos && r.wheel == (0.0, 0.0) && r.mod == 0
  {
    m.(wheel := (0.0, 0.0), mod := 0)
  }

  /**
   * The quit combination of game_engine.hpp:112-115: built for macOS
   * (`SGL_OSX`), Q or W down with the modifier exactly Super; elsewhere F4
   * down with the modifier exactly Alt.
   */
  predicate QuitKeys(kb: Keyboard, osx: bool)
    requires |kb.keys| == KeySlots
  {
    if osx then (kb.keys[KeyQ] || kb.keys[KeyW]) && kb.mod == ModSuper
    else kb.keys[KeyF4] && kb.mod == ModAlt
  }

  /** The state stack after `push_impl` and after `pop`. */
  function Pushed(states: seq<State>, s: State): (r: seq<State>)
    ensures |r| == |states| + 1 && r[|states|] == s && r[..|states|] == states
  {
    states + [s]
  }

  function Popped(states: seq<State>): (r: seq<State>)
    ensures states == [] ==> r == []
    ensures states != [] ==> r + [states[|states| - 1]] == states
  {
    if states == [] then [] else states[..|states| - 1]
  }

  /** Popping undoes pushing. */
  lemma PopUndoesPush(states: seq<State>, s: State)
    ensures Popped(Pushed(states, s)) == states
  {
    assert Pushed(states, s)[..|states|] == states;
  }

  /** The top of a non-empty stack, `states.back()`. */
  function Top(states: seq<State>): State
    requires states != []
  {
    states[|states| - 1]
  }

  /**
   * What a state's `update` asks of the engine it is given, in order: to
   * `push` a new state or to `pop` the top one. The states' own code is not
   * part of this model, so a frame receives these requests as a parameter.
   */
  datatype Effect = PushState(s: State) | PopState

  /** The stack after one request, as `push_impl` and `pop` leave it. */
  function StepStack(states: seq<State>, e: Effect): seq<State>
  {
    match e
    case PushState(s) => Pushed(states, s)
    case PopState => Popped(states)
  }

  /** The calls one request makes: `enter` on a pushed state, `exit` on a popped one. */
  function StepCalls(states: seq<State>, e: Effect): seq<Call>
  {
    match e
    case PushState(s) => [Enter(s)]
    case PopState => if states == [] then [] else [Exit(Top(states))]
  }

  /** The stack after the requests, made one after another. */
  function Applied(states: seq<State>, effs: seq<Effect>): seq<State>
  {
    if effs == [] then states
    else StepStack(Applied(states, effs[..|effs| - 1]), effs[|effs| - 1])
  }

  /**
   * The requests grow the stack by at most one each; pushes alone keep
   * the old stack below the new states.
   */
  lemma {:induction false} AppliedSize(states: seq<State>, effs: seq<Effect>)
    ensures |Applied(states, effs)| <= |states| + |effs|
    ensures (forall i :: 0 <= i < |effs| ==> effs[i].PushState?) ==>
      |Applied(states, effs)| == |states| + |effs| && Applied(states, effs)[..|states|] == states
    decreases |effs|
  {
    if effs != [] {
      var prefix := effs[..|effs| - 1];
      AppliedSize(states, prefix);
      assert forall i :: 0 <= i < |prefix| ==> prefix[i] == effs[i];
    }
  }

  /** One more request: the stack and the calls of a prefix grow by that request's step. */
  lemma AppliedStep(states: seq<State>, effs: seq<Effect>, i: nat)
    requires i < |effs|
    ensures Applied(states, effs[..i + 1]) == StepStack(Applied(states, effs[..i]), effs[i])
    ensures EffectCalls(states, effs[..i + 1]) == EffectCalls(states, effs[..i]) + StepCalls(Applied(states, effs[..i]), effs[i])
  {
    assert effs[..i + 1][..i] == effs[..i];
  }

  /** The `enter` and `exit` calls the requests make, in order. */
  function EffectCalls(states: seq<State>, effs: seq<Effect>): seq<Call>
  {
    if effs == [] then []
    else
      var prefix := effs[..|effs| - 1];
      EffectCalls(states, prefix) + StepCalls(Applied(states, prefix), effs[|effs| - 1])
  }

  /**
   * The calls one frame makes (game_engine.hpp:119-124): `update` on the
   * top state, then the `enter`/`exit` calls of what that update asked
   * for, then `render` on the top of the stack as the update left it, when
   * the window is active and the stack is not empty. With no state there
   * is no update, so nothing is asked and nothing is drawn.
   */
  function FrameCalls(states: seq<State>, active: bool, dt: int, effs: seq<Effect>): seq<Call>
  {
    if states == [] then []
    else
      var after := Applied(states, effs);
      [Update(Top(states), dt)] + EffectCalls(states, effs) + (if active && after != [] then [Render(Top(after))] else [])
  }

  /**
   * A frame with a state starts with `update` on its top and, when the
   * window is active and the stack does not end empty, ends with `render`
   * on the top as that update left it; no other call renders, and a frame
   * without a state makes no call at all.
   */
  lemma FrameCallsShape(states: seq<State>, active: bool, dt: int, effs: seq<Effect>)
    ensures states == [] ==> FrameCalls(states, active, dt, effs) == []
    ensures states != [] ==>
      |FrameCalls(states, active, dt, effs)| >= 1 && FrameCalls(states, active, dt, effs)[0] == Update(Top(states), dt)
    ensures states != [] && active && Applied(states, effs) != [] ==>
      var r := FrameCalls(states, active, dt, effs); r[|r| - 1] == Render(Top(Applied(states, effs)))
    ensures !active || states == [] || Applied(states, effs) == [] ==>
      var r := FrameCalls(states, active, dt, effs); forall i :: 0 <= i < |r| ==> !r[i].Render?
  {
    EffectCallsNoRender(states, effs);
  }

  /** The requests make only `enter` and `exit` calls. */
  lemma {:induction false} EffectCallsNoRender(states: seq<State>, effs: seq<Effect>)
    ensures forall i :: 0 <= i < |EffectCalls(states, effs)| ==> EffectCalls(states, effs)[i].Enter? || EffectCalls(states, effs)[i].Exit?
    decreases |effs|
  {
    if effs != [] {
      EffectCallsNoRender(states, effs[..|effs| - 1]);
    }
  }

  /** The stack after a frame: what the top state's update asked for, or nothing with no state. */
  function FrameStack(states: seq<State>, effs: seq<Effect>): seq<State>
  {
    if states == [] then [] else Applied(states, effs)
  }

  /** A frame without a state leaves the stack empty; one without pops never shrinks it. */
  lemma FrameStackSize(states: seq<State>, effs: seq<Effect>)
    ensures states == [] ==> FrameStack(states, effs) == []
    ensures (forall i :: 0 <= i < |effs| ==> !effs[i].PopState?) ==> |FrameStack(states, effs)| >= |states|
  {
    AppliedSize(states, effs);
  }

  /** The stack after frames one after another, each with its requests. */
  function RunStack(states: seq<State>, frames: seq<seq<Effect>>): seq<State>
  {
    if frames == [] then states else FrameStack(RunStack(states, frames[..|frames| - 1]), frames[|frames| - 1])
  }

  /** A push asked for in one frame is undone by a pop asked for in the next. */
  lemma PushThenPop(states: seq<State>, s: State)
    requires states != []
    ensures RunStack(states, [[PushState(s)], [PopState]]) == states
  {
    var frames := [[PushState(s)], [PopState]];
    assert frames[..1] == [[PushState(s)]] && frames[..1][..0] == [];
    assert [PushState(s)][..0] == [] && [PopState][..0] == [];
    assert Applied(states, [PushState(s)]) == Pushed(states, s);
    assert RunStack(states, frames[..1]) == Pushed(states, s);
    assert Applied(Pushed(states, s), [PopState]) == Popped(Pushed(states, s));
    PopUndoesPush(states, s);
  }

  /**
   * `menu_state_t::update` (menu_state.cpp:9-12): with SPACE pressed it
   * pushes the game state `next`, otherwise it asks for nothing.
   */
  function MenuUpdate(spacePressed: bool, next: State): (effs: seq<Effect>)
    ensures spacePressed <==> effs == [PushState(next)]
    ensures !spacePressed <==> effs == []
  {
    if spacePressed then [PushState(next)] else []
  }

  /** `main_state_t::update` while playing (main_state.cpp:45-48): SPACE pops the state. */
  function PlayingUpdate(spacePressed: bool): (effs: seq<Effect>)
    ensures spacePressed <==> effs == [PopState]
    ensures !spacePressed <==> effs == []
  {
    if spacePressed then [PopState] else []
  }

  /**
   * The frame in which SPACE is pressed on the menu enters the game state
   * and draws it, not the menu; the frame in which SPACE is pressed while
   * playing exits the game state and draws the menu again.
   */
  lemma MenuToGameAndBack(menu: State, game: State, dt: int)
    ensures FrameCalls([menu], true, dt, MenuUpdate(true, game)) == [Update(menu, dt), Enter(game), Render(game)]
    ensures FrameStack([menu], MenuUpdate(true, game)) == [menu, game]
    ensures FrameCalls([menu, game], true, dt, PlayingUpdate(true)) == [Update(game, dt), Exit(game), Render(menu)]
    ensures FrameStack([menu, game], PlayingUpdate(true)) == [menu]
  {
    assert [PushState(game)][..0] == [] && [PopState][..0] == [];
    assert Applied([menu], [PushState(game)]) == [menu, game];
    assert EffectCalls([menu], [PushState(game)]) == [Enter(game)];
    assert Applied([menu, game], [PopState]) == [menu];
    assert EffectCalls([menu, game], [PopState]) == [Exit(game)];
  }

  /** `game_engine_t`, without its back buffer. */
  class Engine {
    /** Whether the engine was built with `SGL_OSX` defined. */
    const osx: bool
    var running: bool
    var active: bool
    var screenW: int
    var screenH: int
    var states: seq<State>
    var calls: seq<Call>
    var kb: Keyboard
    var lastKb: Keyboard
    var mouse: Mouse
    var lastMouse: Mouse

    ghost predicate Valid()
      reads this
    {
      |kb.keys| == KeySlots && |lastKb.keys| == KeySlots && |mouse.btns| == BtnSlots && |lastMouse.btns| == BtnSlots
    }

    /**
     * `game_engine_t(argc, argv)` (game_engine.hpp:69-95): running and
     * active, a 640·480 window, no key and no button down, and the menu
     * state pushed. The snapshots start cleared too, where the source
     * leaves them unset.
     */
    constructor(menu: State, osx: bool)
      ensures this.osx == osx
      ensures Valid() && running && active && screenW == 640 && screenH == 480
      ensures kb.keys == seq(KeySlots, _ => false) && mouse.btns == seq(BtnSlots, _ => false)
      ensures states == [menu] && calls == [Enter(menu)]
    {
      this.osx := osx;
      running, active := true, true;
      screenW, screenH := 640, 480;
      kb := Keyboard(seq(KeySlots, _ => false), 0);
      lastKb := kb;
      mouse := Mouse(seq(BtnSlots, _ => false), Point(0, 0), (0.0, 0.0), 0);
      lastMouse := mouse;
      states, calls := [], [];
      new;
      Push(menu);
    }

    /** `is_key_down` (game_engine.hpp:144-146): slot `key` of the keyboard as the last poll left it. */
    function IsKeyDown(key: int): bool
      requires Valid() && 0 <= key < KeySlots
      reads this
    {
      kb.keys[key]
    }

    /** `last_key_down` (game_engine.hpp:148-150): the same slot at the snapshot. */
    function LastKeyDown(key: int): bool
      requires Valid() && 0 <= key < KeySlots
      reads this
    {
      lastKb.keys[key]
    }

    /** `key_pressed` (game_engine.hpp:160-162): down at the snapshot, up now. */
    function KeyPressed(key: int): bool
      requires Valid() && 0 <= key < KeySlots
      reads this
    {
      LastKeyDown(key) && !IsKeyDown(key)
    }

    /** `is_btn_down` (game_engine.hpp:164-166): slot `btn`, which button btn + 1 sets. */
    function IsBtnDown(btn: int): bool
      requires Valid() && 0 <= btn < BtnSlots
      reads this
    {
      mouse.btns[btn]
    }

    /** `last_btn_down` (game_engine.hpp:168-170): the same slot at the snapshot. */
    function LastBtnDown(btn: int): bool
      requires Valid() && 0 <= btn < BtnSlots
      reads this
    {
      lastMouse.btns[btn]
    }

    /** `btn_pressed` (game_engine.hpp:172-174): down at the snapshot, up now. */
    function BtnPressed(btn: int): bool
      requires Valid() && 0 <= btn < BtnSlots
      reads this
    {
      LastBtnDown(btn) && !IsBtnDown(btn)
    }

    /** `on_keyboard(sym, mod, down)` (game_engine.hpp:32-35): key sym and the modifier, nothing else. */
    method OnKeyboard(sym: int, mod: int, down: bool)
      requires Valid() && 0 <= sym < KeySlots
      modifies this`kb
      ensures Valid() && kb == KeyStep(old(kb), KeyEvent(sym, mod, down))
      ensures IsKeyDown(sym) == down && kb.mod == mod
      ensures forall k :: 0 <= k < KeySlots && k != sym ==> IsKeyDown(k) == old(IsKeyDown(k))
    {
      kb := Keyboard(kb.keys[sym := down], mod);
    }

    /**
     * `on_mouse_button(btn, mod, down)` (game_engine.hpp:37-40), with a
     * slot for each of the eight buttons: button btn goes to slot btn - 1,
     * so `is_btn_down(btn - 1)` reads `down` and no other slot changes.
     */
    method OnMouseButton(btn: int, mod: int, down: bool)
      requires Valid() && 1 <= btn <= BtnSlots
      modifies this`mouse
      ensures Valid() && mouse == MouseStep(old(mouse), ButtonEvent(btn, mod, down))
      ensures IsBtnDown(btn - 1) == down && mouse.mod == mod
      ensures forall b :: 0 <= b < BtnSlots && b != btn - 1 ==> IsBtnDown(b) == old(IsBtnDown(b))
    {
      mouse := mouse.(btns := mouse.btns[btn - 1 := down], mod := mod);
    }

    /** `on_scroll(mod, dx, dy)` (game_engine.hpp:47-50). */
    method OnScroll(mod: int, dx: real, dy: real)
      requires Valid()
      modifies this`mouse
      ensures Valid() && mouse == MouseStep(old(mouse), ScrollEvent(mod, dx, dy))
      ensures mouse.wheel == (dx, dy) && mouse.mod == mod && mouse.btns == old(mouse.btns)
    {
      mouse := mouse.(wheel := (dx, dy), mod := mod);
    }

    /** `on_active(focused)` (game_engine.hpp:52-54). */
    method OnActive(focused: bool)
      modifies this`active
      ensures active == focused
    {
      active := focused;
    }

    /** `on_resize(w, h)` (game_engine.hpp:56-61); what it draws into the back buffer is not part of this model. */
    method OnResize(w: int, h: int)
      modifies this`screenW, this`screenH
      ensures screenW == w && screenH == h
    {
      screenW, screenH := w, h;
    }

    /** The callback `sgl_poll` makes for one event. */
    method Dispatch(e: Event)
      requires Valid() && InRange(e)
      modifies this`kb, this`mouse, this`active, this`screenW, this`screenH
      ensures Valid()
      ensures kb == KeyStep(old(kb), e) && mouse == MouseStep(old(mouse), e)
      ensures active == ActiveStep(old(active), e) && (screenW, screenH) == ScreenStep((old(screenW), old(screenH)), e)
    {
      match e
      case KeyEvent(sym, mod, down) => OnKeyboard(sym, mod, down);
      case ButtonEvent(btn, mod, down) => OnMouseButton(btn, mod, down);
      case ScrollEvent(mod, dx, dy) => OnScroll(mod, dx, dy);
      case ActiveEvent(focused) => OnActive(focused);
      case ResizeEvent(w, h) => OnResize(w, h);
    }

    /** `push_impl(state)` (game_engine.hpp:63-66): `enter` on it, then it is the new top. */
    method Push(s: State)
      modifies this`states, this`calls
      ensures states == Pushed(old(states), s) && calls == old(calls) + [Enter(s)]
    {
      calls := calls + [Enter(s)];
      states := states + [s];
    }

    /** `pop()` (game_engine.hpp:137-142): nothing on an empty stack, else `exit` on the top and it goes. */
    method Pop()
      modifies this`states, this`calls
      ensures states == Popped(old(states))
      ensures calls == old(calls) + (if old(states) == [] then [] else [Exit(old(states)[|old(states)| - 1])])
    {
      if states != [] {
        calls := calls + [Exit(states[|states| - 1])];
        states := states[..|states| - 1];
      }
    }

    /** `sgl_poll()`: the callbacks for the frame's events, in order. */
    method Poll(events: seq<Event>)
      requires Valid() && forall i :: 0 <= i < |events| ==> InRange(events[i])
      modifies this`kb, this`mouse, this`active, this`screenW, this`screenH
      ensures Valid()
      ensures kb == KeysAfter(old(kb), events) && mouse == MouseAfter(old(mouse), events)
      ensures active == ActiveAfter(old(active), events)
      ensures (screenW, screenH) == ScreenAfter((old(screenW), old(screenH)), events)
    {
      var i := 0;
      while i < |events|
        invariant 0 <= i <= |events| && Valid()
        invariant kb == KeysAfter(old(kb), events[..i]) && mouse == MouseAfter(old(mouse), events[..i])
        invariant active == ActiveAfter(old(active), events[..i])
        invariant (screenW, screenH) == ScreenAfter((old(screenW), old(screenH)), events[..i])
      {
        assert events[..i + 1][..i] == events[..i];
        Dispatch(events[i]);
        i := i + 1;
      }
      assert events[..i] == events;
    }

    /** The requests of one `update`, made in order through `push` and `pop`. */
    method ApplyEffects(effs: seq<Effect>)
      modifies this`states, this`calls
      ensures states == Applied(old(states), effs)
      ensures calls == old(calls) + EffectCalls(old(states), effs)
    {
      var i := 0;
      while i < |effs|
        invariant 0 <= i <= |effs|
        invariant states == Applied(old(states), effs[..i])
        invariant calls == old(calls) + EffectCalls(old(states), effs[..i])
      {
        AppliedStep(old(states), effs, i);
        Request(effs[i]);
        i := i + 1;
      }
      assert effs[..i] == effs;
    }

    /** One request of an update, made through `push` or `pop`. */
    method Request(e: Effect)
      modifies this`states, this`calls
      ensures states == StepStack(old(states), e)
      ensures calls == old(calls) + StepCalls(old(states), e)
    {
      match e {
        case PushState(s) => Push(s);
        case PopState => Pop();
      }
    }

    /**
     * One pass of the loop of `run()` (game_engine.hpp:106-128), with the
     * clock readings as parameters: snapshot the input, apply the frame's
     * callbacks in order, stop on the quit keys, `update` the top state
     * only, with `prev - curr`, make the pushes and pops that update asks
     * for (`effs`), `render` the top of the stack as it then is if the
     * window is active, and clear the wheel and the mouse modifier. A key
     * or button counts as pressed afterwards exactly when the frame's
     * callbacks released it, and one no callback was about is never
     * pressed.
     */
    method Frame(events: seq<Event>, prev: int, curr: int, effs: seq<Effect>)
      requires Valid() && forall i :: 0 <= i < |events| ==> InRange(events[i])
      modifies this`running, this`calls, this`states, this`kb, this`lastKb, this`mouse, this`lastMouse, this`active, this`screenW, this`screenH
      ensures Valid()
      ensures lastKb == old(kb) && lastMouse == old(mouse)
      ensures kb == KeysAfter(old(kb), events)
      ensures mouse == Settled(MouseAfter(old(mouse), events))
      ensures active == ActiveAfter(old(active), events)
      ensures (screenW, screenH) == ScreenAfter((old(screenW), old(screenH)), events)
      ensures running == (old(running) && !QuitKeys(kb, osx))
      ensures states == FrameStack(old(states), effs)
      ensures calls == old(calls) + FrameCalls(old(states), active, prev - curr, effs)
      ensures forall k :: 0 <= k < KeySlots ==> (KeyPressed(k) <==> old(kb.keys[k]) && !kb.keys[k])
      ensures forall k :: 0 <= k < KeySlots && NoKeyEvent(events, k) ==> !KeyPressed(k)
      ensures forall b :: 0 <= b < BtnSlots ==> (BtnPressed(b) <==> old(mouse.btns[b]) && !mouse.btns[b])
      ensures forall b :: 0 <= b < BtnSlots && NoButtonEvent(events, b + 1) ==> !BtnPressed(b)
    {
      lastKb, lastMouse := kb, mouse;
      Poll(events);
      EndFrame(prev, curr, effs);
      KeysUntouched(lastKb, events);
      ButtonsUntouched(lastMouse, events);
    }

    /** The rest of a frame after the callbacks (game_engine.hpp:113-128). */
    method EndFrame(prev: int, curr: int, effs: seq<Effect>)
      requires Valid()
      modifies this`running, this`calls, this`states, this`mouse
      ensures Valid() && mouse == Settled(old(mouse))
      ensures running == (old(running) && !QuitKeys(kb, osx))
      ensures states == FrameStack(old(states), effs)
      ensures calls == old(calls) + FrameCalls(old(states), active, prev - curr, effs)
    {
      if QuitKeys(kb, osx) {
        running := false;
      }
      UpdateTop(prev - curr, effs);
      mouse := Settled(mouse);
    }

    /**
     * game_engine.hpp:119-124: `update` on the top state with `dt`, the
     * pushes and pops it asks for, then `render` on the new top when the
     * window is active.
     */
    method UpdateTop(dt: int, effs: seq<Effect>)
      modifies this`calls, this`states
      ensures states == FrameStack(old(states), effs)
      ensures calls == old(calls) + FrameCalls(old(states), active, dt, effs)
    {
      if states != [] {
        calls := calls + [Update(Top(states), dt)];
        ApplyEffects(effs);
        if active && states != [] {
          calls := calls + [Render(Top(states))];
        }
      }
    }

    /**
     * `run()` (game_engine.hpp:102-131) over the frames the window lasts:
     * frame i reads the clock at `clock[i + 1]`, the one before it at
     * `clock[i]`, and its update asks for `effects[i]`. It stops after the
     * frame that saw the quit keys, and returns `EXIT_SUCCESS`; the stack
     * is then what the frames run asked for.
     */
    method Run(frames: seq<seq<Event>>, clock: seq<int>, effects: seq<seq<Effect>>) returns (n: nat, status: int)
      requires Valid() && |clock| == |frames| + 1 && |effects| == |frames|
      requires forall f, i :: 0 <= f < |frames| && 0 <= i < |frames[f]| ==> InRange(frames[f][i])
      modifies this
      ensures Valid() && n <= |frames| && status == 0
      ensures states == RunStack(old(states), effects[..n])
      ensures !old(running) ==> n == 0
      ensures n < |frames| ==> !running
    {
      n := 0;
      while n < |frames| && running
        invariant Valid() && n <= |frames|
        invariant states == RunStack(old(states), effects[..n])
        invariant !old(running) ==> n == 0
        invariant n == 0 ==> running == old(running)
      {
        assert effects[..n + 1][..n] == effects[..n];
        Frame(frames[n], clock[n], clock[n + 1], effects[n]);
        n := n + 1;
      }
      status := 0;
    }
  }
}
