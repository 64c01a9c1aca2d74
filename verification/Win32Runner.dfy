/**
 The window code of the runner as it is written: objects with mutable fields, a global count, the
 class registrar's flag, and an operating system that calls back into the program from inside
 DestroyWindow and CreateWindow.

 Every method is proved to have the effect that WindowModel gives for it, from every state in which
 distinct addresses hold distinct objects.  The decreases clauses show that the chain
 Destroy, DestroyWindow, WndProc, MessageHandler, Destroy ends from every such state.
 */
module Win32Runner {
  import opened Options
  import opened WindowModel
  import WindowRuns
  import WindowInvariants

  /** What WndProc may be called with. */
  datatype OsMessage = WmNcCreate(createParams: Addr) | WmDestroy | Posted(msg: Message)

  /** What WndProc does, by message. */
  ghost function Delivered(w: World, h: Hwnd, message: OsMessage, claim: bool, claimDestroy: bool): World
    requires h in w.os.windows
    requires message.WmNcCreate? ==> message.createParams in w.objects
  {
    match message
    case WmNcCreate(p) =>
      WindowModel.SetHandle(SetUserData(w, h, p), p, Some(h))
    case WmDestroy => DeliverDestroy(w, h, claim)
    case Posted(msg) => Dispatch(w, h, msg, claim, claimDestroy)
  }

  /** What the object WndProc finds behind the window does, by message. */
  ghost function Received(w: World, a: Addr, message: OsMessage, claim: bool, claimDestroy: bool): World
    requires a in w.objects
  {
    match message
    case WmNcCreate(_) => w
    case WmDestroy => HandleDestroy(w, a, claim)
    case Posted(msg) => Receive(w, a, msg, claim, claimDestroy)
  }

  /** The nested Destroy finds no handle, so it neither closes a window nor recurses further. */
  lemma NestedDestroy(w: World, a: Addr, claim: bool)
    requires a in w.objects
    ensures HandleDestroy(w, a, false) ==
            var w' := WindowModel.Destroy(WindowModel.SetHandle(w, a, None), a, claim);
            if w'.objects[a].quitOnClose then PostQuit(w') else w'
  {
  }

  class Win32Window {
    const address: Addr
    var kind: Kind
    var quitOnClose: bool
    var handle: Option<Hwnd>
    var controller: Option<Controller>

    constructor (address: Addr, kind: Kind)
      ensures this.address == address && this.kind == kind && !quitOnClose && handle == None && controller == None
    {
      this.address := address;
      this.kind, quitOnClose, handle, controller := kind, false, None, None;
    }
  }

  class Runner {
    // the program: its memory, g_active_window_count and class_registered_
    var heap: map<Addr, Win32Window>
    var activeWindowCount: int
    var classRegistered: bool
    // the operating system and the engine
    var os: Platform
    // the whole as a value, with its history, and the objects in memory
    ghost var world: World
    ghost var repr: set<Win32Window>

    /** Each object sits at its own address, and memory holds just the objects of the given map. */
    ghost predicate Holds(objects: map<Addr, Window>)
      reads `heap, `repr, repr
    {
      && (forall a :: a in heap <==> a in objects)
      && (forall a | a in heap :: heap[a] in repr && heap[a].address == a)
      && (forall a | a in heap ::
            objects[a] == Window(heap[a].kind, heap[a].quitOnClose, heap[a].handle, heap[a].controller))
    }

    ghost predicate Valid()
      reads this, repr
    {
      && Holds(world.objects)
      && world.activeCount == activeWindowCount
      && world.classRegistered == classRegistered
      && world.os == os
    }

    constructor ()
      ensures Valid() && heap == map[] && repr == {} && world == Start
    {
      heap, activeWindowCount, classRegistered := map[], 0, false;
      os := Platform(false, map[], 0, 0, 0);
      world, repr := Start, {};
    }

    method OnDestroy(a: Addr)
      requires Valid() && a in heap
      modifies this`world, heap[a]
      ensures Valid() && world == WindowModel.OnDestroy(old(world), a)
    {
      var that := heap[a];
      if that.kind.Flutter? {
        if that.controller.Some? {
          SetController(a, None);
          world := WindowModel.OnDestroy(old(world), a);
        }
      }
    }

    method SetController(a: Addr, controller: Option<Controller>)
      requires Valid() && a in heap
      modifies this`world, heap[a]
      ensures Valid() && world == WindowModel.SetController(old(world), a, controller)
    {
      heap[a].controller := controller;
      world := WindowModel.SetController(world, a, controller);
    }

    method SetKind(a: Addr, kind: Kind)
      requires Valid() && a in heap
      modifies this`world, heap[a]
      ensures Valid() && world == WindowModel.SetKind(old(world), a, kind)
    {
      heap[a].kind := kind;
      world := WindowModel.SetKind(world, a, kind);
    }

    method SetHandle(a: Addr, handle: Option<Hwnd>)
      requires Valid() && a in heap
      modifies this`world, heap[a]
      ensures Valid() && world == WindowModel.SetHandle(old(world), a, handle)
    {
      heap[a].handle := handle;
      world := WindowModel.SetHandle(world, a, handle);
    }

    method PostQuitMessage()
      requires Valid()
      modifies `os, `world
      ensures Valid() && world == PostQuit(old(world))
    {
      os := os.(quits := os.quits + 1);
      world := PostQuit(world);
    }

    /** The OS refuses while a window of the class exists. */
    method UnregisterClass()
      modifies `os
      ensures os == old(os).(registered := old(os).registered && os.windows != map[])
    {
      if os.windows == map[] {
        os := os.(registered := false);
      }
    }

    method UnregisterWindowClass()
      requires Valid()
      modifies `os, `classRegistered, `world
      ensures Valid() && world == Unregister(old(world))
    {
      UnregisterClass();
      classRegistered := false;
      world := Unregister(world);
    }

    method GetWindowClass(registerOk: bool)
      requires Valid()
      modifies `os, `classRegistered, `world
      ensures Valid() && world == WindowModel.GetWindowClass(old(world), registerOk)
    {
      if !classRegistered {
        os := os.(registered := os.registered || registerOk);
        classRegistered := true;
        world := WindowModel.GetWindowClass(world, registerOk);
      }
    }

    method Destroy(a: Addr, claim: bool)
      requires Valid() && a in heap
      modifies `classRegistered, `os, `world, repr
      ensures Valid() && world == WindowModel.Destroy(old(world), a, claim)
      decreases 0, if heap[a].handle.Some? then 4 else 0
    {
      OnDestroy(a);
      CloseHandle(a, claim);
      if activeWindowCount == 0 {
        UnregisterWindowClass();
      }
    }

    method CloseHandle(a: Addr, claim: bool)
      requires Valid() && a in heap
      modifies `classRegistered, `os, `world, repr
      ensures Valid() && world == WindowModel.CloseHandle(old(world), a, claim)
      decreases 0, if heap[a].handle.Some? then 4 else 0, 0
    {
      var handle := heap[a].handle;
      if handle.Some? {
        world := LogDestroyCall(world, a, handle.value);
        DestroyWindow(handle.value, claim);
        SetHandle(a, None);
      }
    }

    /** The OS sends WM_DESTROY to a live window and then removes it. */
    method DestroyWindow(h: Hwnd, claim: bool)
      requires Valid()
      modifies `classRegistered, `os, `world, repr
      ensures Valid() && world == CloseWindow(old(world), h, claim)
      decreases 0, 3
    {
      if h in os.windows {
        WndProc(h, WmDestroy, claim, claim);
        os := os.(windows := os.windows - {h});
        world := RemoveWindow(world, h);
      }
    }

    /** CreateWindow delivers WM_NCCREATE to the new window. */
    method CreateWindow(a: Addr, out: Outcome) returns (window: Option<Hwnd>)
      requires Valid() && a in heap
      modifies `classRegistered, `os, `world, repr
      ensures Valid()
      ensures window == if WindowCreated(old(world), out) then out.hwnd else None
      ensures world == if window.Some? then AddWindow(old(world), a, window.value) else old(world)
    {
      if os.registered && out.hwnd.Some? && out.hwnd.value !in os.windows {
        var h := out.hwnd.value;
        os := os.(windows := os.windows[h := OsWindow(os.serials, None)], serials := os.serials + 1);
        world := AllocateWindow(world, h);
        WndProc(h, WmNcCreate(a), false, false);
        return Some(h);
      }
      return None;
    }

    method WndProc(h: Hwnd, message: OsMessage, claim: bool, claimDestroy: bool)
      requires Valid() && h in os.windows
      requires message.WmNcCreate? ==> message.createParams in heap
      modifies `classRegistered, `os, `world, repr
      ensures Valid()
      ensures world == Delivered(old(world), h, message, claim, claimDestroy)
      decreases if message.Posted? then 1 else 0, 2
    {
      if message.WmNcCreate? {
        os := os.(windows := os.windows[h := os.windows[h].(userData := Some(message.createParams))]);
        world := SetUserData(world, h, message.createParams);
        SetHandle(message.createParams, Some(h));
      } else if os.windows[h].userData.Some? {
        var that := os.windows[h].userData.value;
        if that in heap {
          VirtualMessageHandler(that, message, claim, claimDestroy);
        } else {
          // undefined behaviour is recorded, not followed further: GetThisFromHandle returned a dangling pointer
          world := world.(fault := true);
        }
      } else {
        DefWindowProc(Some(h), message, claimDestroy);
      }
    }

    /** FlutterWindow::MessageHandler or Win32Window::MessageHandler, by the object's type. */
    method VirtualMessageHandler(a: Addr, message: OsMessage, claim: bool, claimDestroy: bool)
      requires Valid() && a in heap && !message.WmNcCreate?
      modifies `classRegistered, `os, `world, repr
      ensures Valid()
      ensures world == Received(old(world), a, message, claim, claimDestroy)
      decreases if message.Posted? then 1 else 0, 1, 2
    {
      var that := heap[a];
      if that.kind.Flutter? {
        if that.controller.Some? {
          if claim {  // HandleTopLevelWindowProc returned a result
            return;
          }
        }
        if message == Posted(WmFontChange) {
          if that.controller.None? || !that.controller.value.hasEngine {
            world := world.(fault := true);  // null dereference
            return;
          }
        }
      }
      MessageHandler(a, message, claimDestroy);
    }

    method MessageHandler(a: Addr, message: OsMessage, claimDestroy: bool)
      requires Valid() && a in heap && !message.WmNcCreate?
      modifies `classRegistered, `os, `world, repr
      ensures Valid()
      ensures message.WmDestroy? ==> world == HandleDestroy(old(world), a, false)
      ensures message.Posted? ==> world == DefaultProc(old(world), old(heap[a].handle), message.msg, claimDestroy)
      decreases if message.Posted? then 1 else 0, 1, 1
    {
      if message.WmDestroy? {
        ghost var w := world;
        SetHandle(a, None);
        Destroy(a, false);
        NestedDestroy(w, a, false);
        if heap[a].quitOnClose {
          PostQuitMessage();
        }
      } else {
        DefWindowProc(heap[a].handle, message, claimDestroy);
      }
    }

    method DefWindowProc(handle: Option<Hwnd>, message: OsMessage, claimDestroy: bool)
      requires Valid()
      modifies `classRegistered, `os, `world, repr
      ensures Valid()
      ensures message.Posted? ==> world == DefaultProc(old(world), handle, message.msg, claimDestroy)
      ensures !message.Posted? ==> world == old(world)
      decreases if message.Posted? then 1 else 0, 0
    {
      if message == Posted(WmClose) && handle.Some? {
        DestroyWindow(handle.value, claimDestroy);
      }
    }

    method OnCreate(a: Addr, out: Outcome) returns (ok: bool)
      requires Valid() && a in heap
      modifies `os, `world, heap[a]
      ensures Valid() && (world, ok) == WindowModel.OnCreate(old(world), a, out)
    {
      if heap[a].kind.Plain? {
        return true;
      }
      OnDestroy(a);  // assigning the unique_ptr destroys what it held
      MakeController(a, out);
      return out.hasEngine && out.hasView;
    }

    method MakeController(a: Addr, out: Outcome)
      requires Valid() && a in heap
      modifies `os, `world, heap[a]
      ensures Valid() && world == WindowModel.MakeController(old(world), a, out)
    {
      SetController(a, Some(Controller(os.controllers, out.hasEngine, out.hasView)));
      os := os.(controllers := os.controllers + 1);
      world := CountController(world);
    }

    method Create(a: Addr, out: Outcome, claim: bool) returns (ok: bool)
      requires Valid() && a in heap
      modifies `classRegistered, `os, `world, repr
      ensures Valid() && (world, ok) == WindowModel.Create(old(world), a, out, claim)
    {
      Destroy(a, claim);
      GetWindowClass(out.registerOk);
      ok := Open(a, out);
    }

    method Open(a: Addr, out: Outcome) returns (ok: bool)
      requires Valid() && a in heap
      modifies `classRegistered, `os, `world, repr
      ensures Valid() && (world, ok) == WindowModel.Open(old(world), a, out)
    {
      var window := CreateWindow(a, out);
      if window.None? {
        return false;
      }
      ok := OnCreate(a, out);
    }

    method SetQuitOnClose(a: Addr, quit: bool)
      requires Valid() && a in heap
      modifies this`world, heap[a]
      ensures Valid() && world == WindowModel.SetQuitOnClose(old(world), a, quit)
      ensures heap[a].quitOnClose == quit && heap[a].kind == old(heap[a].kind)
      ensures heap[a].handle == old(heap[a].handle) && heap[a].controller == old(heap[a].controller)
    {
      heap[a].quitOnClose := quit;
      world := WindowModel.SetQuitOnClose(world, a, quit);
    }

    /** Address `a` is the one the allocator returned. */
    method Construct(a: Addr, kind: Kind)
      requires Valid() && a !in heap
      modifies `heap, `activeWindowCount, `world, `repr
      ensures Valid() && fresh(repr - old(repr))
      ensures world == WindowModel.Construct(old(world), a, kind)
    {
      var that := new Win32Window(a, kind);
      heap, repr := heap[a := that], repr + {that};
      activeWindowCount := activeWindowCount + 1;
      world := WindowModel.Construct(world, a, kind);
    }

    /** ~FlutterWindow: the controller member is destroyed, then virtual calls reach Win32Window. */
    method DestructFlutterWindow(a: Addr)
      requires Valid() && a in heap
      modifies this`world, heap[a]
      ensures Valid() && world == Demote(old(world), a)
    {
      OnDestroy(a);
      SetKind(a, Plain);
    }

    method DestructWin32Window(a: Addr, claim: bool)
      requires Valid() && a in heap
      modifies `activeWindowCount, `classRegistered, `os, `world, repr
      ensures Valid()
      ensures world == WindowModel.Destroy(OneFewer(old(world)), a, claim)
    {
      activeWindowCount := activeWindowCount - 1;
      world := OneFewer(world);
      Destroy(a, claim);
    }

    method Destruct(a: Addr, claim: bool)
      requires Valid() && a in heap
      modifies `heap, `activeWindowCount, `classRegistered, `os, `world, repr
      ensures Valid() && world == WindowModel.Destruct(old(world), a, claim)
    {
      DestructFlutterWindow(a);
      DestructWin32Window(a, claim);
      Free(a);
    }

    method Free(a: Addr)
      requires Valid() && a in heap
      modifies `heap, `world
      ensures Valid() && world == Forget(old(world), a)
    {
      heap := heap - {a};
      world := Forget(world, a);
    }

    method DispatchMessage(h: Hwnd, msg: Message, claim: bool, claimDestroy: bool)
      requires Valid() && h in os.windows
      modifies `classRegistered, `os, `world, repr
      ensures Valid() && world == Dispatch(old(world), h, msg, claim, claimDestroy)
    {
      WndProc(h, Posted(msg), claim, claimDestroy);
    }

    method Perform(s: Step)
      requires Valid() && Enabled(world, s)
      modifies this, repr
      ensures Valid() && fresh(repr - old(repr)) && world == Next(old(world), s)
    {
      match s
      case DoConstruct(a, kind) => Construct(a, kind);
      case DoSetQuitOnClose(a, quit) => SetQuitOnClose(a, quit);
      case DoCreate(a, out, claim) => var _ := Create(a, out, claim);
      case DoDestroy(a, claim) => Destroy(a, claim);
      case DoDestruct(a, claim) => Destruct(a, claim);
      case DoDispatch(h, msg, claim, claimDestroy) => DispatchMessage(h, msg, claim, claimDestroy);
    }

    /** The program, driven through the steps of any run, goes through the states of that run. */
    method Execute(steps: seq<Step>, ghost ws: seq<World>)
      requires Valid() && world == Start && IsRun(ws, steps)
      modifies this, repr
      ensures Valid() && world == ws[|steps|] && WindowInvariants.Inv(world)
    {
      for i := 0 to |steps|
        invariant Valid() && fresh(repr - old(repr)) && world == ws[i]
      {
        Perform(steps[i]);
      }
      WindowRuns.RunInvariant(ws, steps, |steps|);
    }
  }
}
