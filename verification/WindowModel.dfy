/**
 The state of a process that runs Win32Window objects, together with the part of the
 operating system they touch, and the effect of every operation as a function on that state.

 Nothing here is re-entrant: where the program is called back by the operating system while it
 is inside DestroyWindow, these functions give the combined effect at once.  Module Win32Runner
 holds the re-entrant program and proves that it has exactly these effects.
 */
module WindowModel {
  import opened Options

  type Addr = nat  // address of a Win32Window object, also stored as an OS window's user data
  type Hwnd = nat  // window handle; the OS may hand out the value of a closed window again

  /** The type virtual calls dispatch on; a FlutterWindow becomes Plain once its own destructor has run. */
  datatype Kind = Plain | Flutter

  datatype Controller = Controller(id: nat, hasEngine: bool, hasView: bool)

  datatype Window = Window(kind: Kind, quitOnClose: bool, handle: Option<Hwnd>, controller: Option<Controller>)

  /** An OS window of our class: a serial number never used twice, and its GWLP_USERDATA slot. */
  datatype OsWindow = OsWindow(serial: nat, userData: Option<Addr>)

  /** One call of DestroyWindow made by the program: by which object, and which OS window it hit. */
  datatype DestroyCall = DestroyCall(caller: Addr, hit: Option<OsWindow>)

  /** Messages the loop may dispatch; WM_NCCREATE and WM_DESTROY come only from CreateWindow and DestroyWindow. */
  datatype Message = WmClose | WmFontChange | WmOther(code: nat)

  /** The operating system and the engine: class registration, windows, posted quits, identities handed out. */
  datatype Platform = Platform(
    registered: bool, windows: map<Hwnd, OsWindow>, quits: nat, serials: nat, controllers: nat)

  datatype World = World(
    objects: map<Addr, Window>,
    activeCount: int,
    classRegistered: bool,
    os: Platform,
    // history
    destroyCalls: seq<DestroyCall>,
    released: seq<nat>,
    fault: bool)

  const Start := World(map[], 0, false, Platform(false, map[], 0, 0, 0), [], [], false)

  function SetHandle(w: World, a: Addr, handle: Option<Hwnd>): (r: World)
    requires a in w.objects
    ensures r.objects.Keys == w.objects.Keys
  {
    w.(objects := w.objects[a := w.objects[a].(handle := handle)])
  }

  function SetController(w: World, a: Addr, controller: Option<Controller>): (r: World)
    requires a in w.objects
    ensures r.objects.Keys == w.objects.Keys
  {
    w.(objects := w.objects[a := w.objects[a].(controller := controller)])
  }

  function SetKind(w: World, a: Addr, kind: Kind): (r: World)
    requires a in w.objects
    ensures r.objects.Keys == w.objects.Keys
  {
    w.(objects := w.objects[a := w.objects[a].(kind := kind)])
  }

  function SetQuitOnClose(w: World, a: Addr, quit: bool): (r: World)
    requires a in w.objects
    ensures r.objects.Keys == w.objects.Keys
  {
    w.(objects := w.objects[a := w.objects[a].(quitOnClose := quit)])
  }

  /** Drops the controller of a FlutterWindow, if it holds one. */
  function OnDestroy(w: World, a: Addr): (r: World)
    requires a in w.objects
    ensures r.objects.Keys == w.objects.Keys
  {
    var o := w.objects[a];
    if o.kind.Flutter? && o.controller.Some? then
      SetController(w, a, None).(released := w.released + [o.controller.value.id])
    else
      w
  }

  /** UnregisterClass fails while a window of the class exists; the flag is cleared either way. */
  function Unregister(w: World): World {
    w.(os := w.os.(registered := w.os.registered && w.os.windows != map[]), classRegistered := false)
  }

  function UnregisterIfLast(w: World): World {
    if w.activeCount == 0 then Unregister(w) else w
  }

  predicate Claims(w: World, a: Addr, claim: bool)
    requires a in w.objects
  {
    w.objects[a].kind.Flutter? && w.objects[a].controller.Some? && claim
  }

  function PostQuit(w: World): World {
    w.(os := w.os.(quits := w.os.quits + 1))
  }

  /** What object `a` does on WM_DESTROY: nothing if its controller claims the message. */
  function HandleDestroy(w: World, a: Addr, claim: bool): (r: World)
    requires a in w.objects
    ensures r.objects.Keys == w.objects.Keys
  {
    if Claims(w, a, claim) then
      w
    else
      var w' := UnregisterIfLast(OnDestroy(SetHandle(w, a, None), a));
      if w.objects[a].quitOnClose then PostQuit(w') else w'
  }

  /** WM_DESTROY for live window `h` reaches the object its user data points to. */
  function DeliverDestroy(w: World, h: Hwnd, claim: bool): (r: World)
    requires h in w.os.windows
    ensures r.objects.Keys == w.objects.Keys
  {
    var userData := w.os.windows[h].userData;
    if userData.None? then w
    else if userData.value !in w.objects then w.(fault := true)
    else HandleDestroy(w, userData.value, claim)
  }

  function RemoveWindow(w: World, h: Hwnd): World {
    w.(os := w.os.(windows := w.os.windows - {h}))
  }

  /** WM_DESTROY is delivered, then the OS window is gone. */
  function CloseWindow(w: World, h: Hwnd, claim: bool): (r: World)
    ensures r.objects.Keys == w.objects.Keys
  {
    if h !in w.os.windows then
      w
    else
      RemoveWindow(DeliverDestroy(w, h, claim), h)
  }

  function LogDestroyCall(w: World, a: Addr, h: Hwnd): World {
    w.(destroyCalls := w.destroyCalls + [DestroyCall(a, if h in w.os.windows then Some(w.os.windows[h]) else None)])
  }

  /** DestroyWindow for the handle, if there is one, and the handle is nulled. */
  function CloseHandle(w: World, a: Addr, claim: bool): (r: World)
    requires a in w.objects
    ensures r.objects.Keys == w.objects.Keys
  {
    match w.objects[a].handle
    case None => w
    case Some(h) => SetHandle(CloseWindow(LogDestroyCall(w, a, h), h, claim), a, None)
  }

  /** Win32Window::Destroy. */
  function Destroy(w: World, a: Addr, claim: bool): (r: World)
    requires a in w.objects
    ensures r.objects.Keys == w.objects.Keys
  {
    UnregisterIfLast(CloseHandle(OnDestroy(w, a), a, claim))
  }

  /** What the OS and the engine answer during one Create. */
  datatype Outcome = Outcome(registerOk: bool, hwnd: Option<Hwnd>, hasEngine: bool, hasView: bool)

  function GetWindowClass(w: World, registerOk: bool): World {
    if w.classRegistered then w
    else w.(os := w.os.(registered := w.os.registered || registerOk), classRegistered := true)
  }

  /** CreateWindow needs a registered class and a free handle; it delivers WM_NCCREATE only when it succeeds. */
  predicate WindowCreated(w: World, out: Outcome) {
    w.os.registered && out.hwnd.Some? && out.hwnd.value !in w.os.windows
  }

  function AllocateWindow(w: World, h: Hwnd): World {
    w.(os := w.os.(windows := w.os.windows[h := OsWindow(w.os.serials, None)], serials := w.os.serials + 1))
  }

  function SetUserData(w: World, h: Hwnd, a: Addr): World
    requires h in w.os.windows
  {
    w.(os := w.os.(windows := w.os.windows[h := w.os.windows[h].(userData := Some(a))]))
  }

  function AddWindow(w: World, a: Addr, h: Hwnd): World
    requires a in w.objects
  {
    SetHandle(SetUserData(AllocateWindow(w, h), h, a), a, Some(h))
  }

  function MakeController(w: World, a: Addr, out: Outcome): World
    requires a in w.objects
  {
    CountController(SetController(w, a, Some(Controller(w.os.controllers, out.hasEngine, out.hasView))))
  }

  function CountController(w: World): World {
    w.(os := w.os.(controllers := w.os.controllers + 1))
  }

  /** OnCreate of the object's type: a FlutterWindow makes a controller, replacing one it might hold. */
  function OnCreate(w: World, a: Addr, out: Outcome): (r: (World, bool))
    requires a in w.objects
  {
    if w.objects[a].kind.Plain? then
      (w, true)
    else
      (MakeController(OnDestroy(w, a), a, out), out.hasEngine && out.hasView)
  }

  /** CreateWindow and OnCreate. */
  function Open(w: World, a: Addr, out: Outcome): (r: (World, bool))
    requires a in w.objects
  {
    if WindowCreated(w, out) then OnCreate(AddWindow(w, a, out.hwnd.value), a, out) else (w, false)
  }

  /** Win32Window::Create, with its result. */
  function Create(w: World, a: Addr, out: Outcome, claim: bool): (r: (World, bool))
    requires a in w.objects
  {
    Open(GetWindowClass(Destroy(w, a, claim), out.registerOk), a, out)
  }

  /** The FlutterWindow destructor ends: the controller member is destroyed and the object is a Win32Window. */
  function Demote(w: World, a: Addr): World
    requires a in w.objects
  {
    SetKind(OnDestroy(w, a), a, Plain)
  }

  function Construct(w: World, a: Addr, kind: Kind): World {
    w.(objects := w.objects[a := Window(kind, false, None, None)], activeCount := w.activeCount + 1)
  }

  /** The state in which the base class destructor calls Destroy. */
  function InDestructor(w: World, a: Addr): (r: World)
    requires a in w.objects
    ensures r.objects.Keys == w.objects.Keys
  {
    OneFewer(Demote(w, a))
  }

  function OneFewer(w: World): World {
    w.(activeCount := w.activeCount - 1)
  }

  function Forget(w: World, a: Addr): World {
    w.(objects := w.objects - {a})
  }

  /** Both destructors, then the memory is released. */
  function Destruct(w: World, a: Addr, claim: bool): World
    requires a in w.objects
  {
    Forget(Destroy(InDestructor(w, a), a, claim), a)
  }

  /** An unclaimed WM_FONTCHANGE dereferences the controller and its engine. */
  predicate FontFault(o: Window) {
    o.kind.Flutter? && (o.controller.None? || !o.controller.value.hasEngine)
  }

  /** The only default handling that matters here: WM_CLOSE closes the window. */
  function DefaultProc(w: World, handle: Option<Hwnd>, msg: Message, claimDestroy: bool): World {
    if msg.WmClose? && handle.Some? then CloseWindow(w, handle.value, claimDestroy) else w
  }

  /** What object `a` does with a posted message; default handling gets the handle in its field. */
  function Receive(w: World, a: Addr, msg: Message, claim: bool, claimDestroy: bool): World
    requires a in w.objects
  {
    if Claims(w, a, claim) then w
    else if msg.WmFontChange? && FontFault(w.objects[a]) then w.(fault := true)
    else DefaultProc(w, w.objects[a].handle, msg, claimDestroy)
  }

  function Dispatch(w: World, h: Hwnd, msg: Message, claim: bool, claimDestroy: bool): World
    requires h in w.os.windows
  {
    var userData := w.os.windows[h].userData;
    if userData.None? then DefaultProc(w, Some(h), msg, claimDestroy)
    else if userData.value !in w.objects then w.(fault := true)
    else Receive(w, userData.value, msg, claim, claimDestroy)
  }

  // Runs

  datatype Step =
    | DoConstruct(a: Addr, kind: Kind)
    | DoSetQuitOnClose(a: Addr, quit: bool)
    | DoCreate(a: Addr, out: Outcome, claim: bool)
    | DoDestroy(a: Addr, claim: bool)
    | DoDestruct(a: Addr, claim: bool)
    | DoDispatch(h: Hwnd, msg: Message, claim: bool, claimDestroy: bool)

  /** The allocator gives a free address, members are called on existing objects, the OS dispatches to live windows. */
  predicate Enabled(w: World, s: Step) {
    match s
    case DoConstruct(a, _) => a !in w.objects
    case DoDispatch(h, _, _, _) => h in w.os.windows
    case _ => s.a in w.objects
  }

  function Next(w: World, s: Step): World
    requires Enabled(w, s)
  {
    match s
    case DoConstruct(a, kind) => Construct(w, a, kind)
    case DoSetQuitOnClose(a, quit) => SetQuitOnClose(w, a, quit)
    case DoCreate(a, out, claim) => Create(w, a, out, claim).0
    case DoDestroy(a, claim) => Destroy(w, a, claim)
    case DoDestruct(a, claim) => Destruct(w, a, claim)
    case DoDispatch(h, msg, claim, claimDestroy) => Dispatch(w, h, msg, claim, claimDestroy)
  }

  /** The quiescent states of a run and the steps between them. */
  ghost predicate IsRun(ws: seq<World>, steps: seq<Step>) {
    && |ws| == |steps| + 1
    && ws[0] == Start
    && forall i | 0 <= i < |steps| :: Enabled(ws[i], steps[i]) && ws[i + 1] == Next(ws[i], steps[i])
  }
}
