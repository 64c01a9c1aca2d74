/** What every step of a process keeps, family by family. */
module WindowInvariants {
  import opened Options
  import opened WindowModel

  /** Each OS window's user data points to an existing object that holds its handle. */
  ghost predicate HandlesInv(w: World) {
    forall h | h in w.os.windows ::
      && w.os.windows[h].userData.Some?
      && w.os.windows[h].userData.value in w.objects
      && w.objects[w.os.windows[h].userData.value].handle == Some(h)
  }

  /** The class is registered while a window exists, the flag is never behind, and nothing outlives the objects. */
  ghost predicate ClassInv(w: World) {
    && w.activeCount == |w.objects|
    && (w.os.windows != map[] ==> w.os.registered)
    && (w.os.registered ==> w.classRegistered)
    && (w.objects == map[] ==> !w.classRegistered)
  }

  /** Windows have distinct serials, and the program's DestroyWindow calls hit distinct windows that are gone. */
  ghost predicate SerialsInv(w: World) {
    && (forall h | h in w.os.windows :: w.os.windows[h].serial < w.os.serials)
    && (forall h, k | h in w.os.windows && k in w.os.windows && h != k ::
          w.os.windows[h].serial != w.os.windows[k].serial)
    && (forall i | 0 <= i < |w.destroyCalls| && w.destroyCalls[i].hit.Some? ::
          && w.destroyCalls[i].hit.value.serial < w.os.serials
          && (forall h | h in w.os.windows :: w.os.windows[h].serial != w.destroyCalls[i].hit.value.serial))
    && (forall i, j | 0 <= i < j < |w.destroyCalls| && w.destroyCalls[i].hit.Some? && w.destroyCalls[j].hit.Some? ::
          w.destroyCalls[i].hit.value.serial != w.destroyCalls[j].hit.value.serial)
  }

  predicate HeldBy(w: World, a: Addr, id: nat) {
    a in w.objects && w.objects[a].controller.Some? && w.objects[a].controller.value.id == id
  }

  /** Every controller made is held by exactly one object or has been released exactly once, never both. */
  ghost predicate ControllersInv(w: World) {
    && (forall a | a in w.objects && w.objects[a].kind.Plain? :: w.objects[a].controller.None?)
    && (forall a, id: nat | HeldBy(w, a, id) :: id < w.os.controllers && id !in w.released)
    && (forall a, b, id: nat | HeldBy(w, a, id) && HeldBy(w, b, id) :: a == b)
    && (forall i | 0 <= i < |w.released| :: w.released[i] < w.os.controllers)
    && (forall i, j | 0 <= i < j < |w.released| :: w.released[i] != w.released[j])
    && (forall id: nat | id < w.os.controllers :: id in w.released || exists a :: HeldBy(w, a, id))
  }

  /** A FlutterWindow whose window exists has its controller. */
  ghost predicate HostInv(w: World) {
    forall a | a in w.objects && w.objects[a].kind.Flutter? && OwnsWindow(w, a) :: w.objects[a].controller.Some?
  }

  predicate OwnsWindow(w: World, a: Addr)
    requires a in w.objects
  {
    w.objects[a].handle.Some? && w.objects[a].handle.value in w.os.windows
      && w.os.windows[w.objects[a].handle.value].userData == Some(a)
  }

  ghost predicate Inv(w: World) {
    HandlesInv(w) && ClassInv(w) && SerialsInv(w) && ControllersInv(w) && HostInv(w)
  }

  // The combined effect of closing a window and of Destroy

  function ShutDown(o: Window): Window {
    o.(handle := None, controller := if o.kind.Flutter? then None else o.controller)
  }

  /** The object that reacts when `h` is closed. */
  function Reacting(w: World, h: Hwnd, claim: bool): Option<Addr> {
    if h !in w.os.windows || w.os.windows[h].userData.None? then None
    else
      var a := w.os.windows[h].userData.value;
      if a in w.objects && !Claims(w, a, claim) then Some(a) else None
  }

  /** `r` has the objects of `w`, with just those in `which` shut down. */
  ghost predicate ShutDownIn(w: World, r: World, which: set<Addr>) {
    && r.objects.Keys == w.objects.Keys
    && forall b | b in w.objects :: r.objects[b] == if b in which then ShutDown(w.objects[b]) else w.objects[b]
  }

  function AsSet(a: Option<Addr>): set<Addr> {
    if a.Some? then {a.value} else {}
  }

  function QuitsPosted(w: World, a: Option<Addr>): nat {
    if a.Some? && a.value in w.objects && w.objects[a.value].quitOnClose then 1 else 0
  }

  ghost predicate NoDangling(w: World) {
    forall h | h in w.os.windows && w.os.windows[h].userData.Some? :: w.os.windows[h].userData.value in w.objects
  }

  /** Neither handles nor controllers are handed out, and away from the last destructor the class stays as it is. */
  predicate SameCounts(w: World, r: World) {
    && r.os.serials == w.os.serials && r.os.controllers == w.os.controllers && r.activeCount == w.activeCount
    && (w.activeCount != 0 ==> r.os.registered == w.os.registered && r.classRegistered == w.classRegistered)
  }

  /** Dropping the controller of `a`, shutting down `which`, then nulling the handle of `a`. */
  lemma ShutDownTwice(w: World, w1: World, w2: World, r: World, a: Addr, which: set<Addr>)
    requires a in w.objects && w1.objects.Keys == w2.objects.Keys == r.objects.Keys == w.objects.Keys
    requires w1.objects[a] == ShutDown(w.objects[a]).(handle := w.objects[a].handle)
    requires forall b | b in w.objects && b != a :: w1.objects[b] == w.objects[b]
    requires ShutDownIn(w1, w2, which)
    requires r.objects[a] == w2.objects[a].(handle := None)
    requires forall b | b in w.objects && b != a :: r.objects[b] == w2.objects[b]
    ensures ShutDownIn(w, r, {a} + which)
  {
  }

  lemma OnDestroyEffect(w: World, a: Addr)
    requires a in w.objects
    ensures var r := OnDestroy(w, a);
            && r.objects.Keys == w.objects.Keys
            && r.objects[a] == ShutDown(w.objects[a]).(handle := w.objects[a].handle)
            && (forall b | b in w.objects && b != a :: r.objects[b] == w.objects[b])
            && r.os == w.os && r.activeCount == w.activeCount && r.classRegistered == w.classRegistered
            && r.destroyCalls == w.destroyCalls && r.fault == w.fault
  {
  }

  lemma SetHandleEffect(w: World, a: Addr)
    requires a in w.objects
    ensures var r := SetHandle(w, a, None);
            && r.objects.Keys == w.objects.Keys
            && r.objects[a] == w.objects[a].(handle := None)
            && (forall b | b in w.objects && b != a :: r.objects[b] == w.objects[b])
  {
  }

  lemma HandleDestroyEffect(w: World, a: Addr, claim: bool)
    requires a in w.objects
    ensures var r := HandleDestroy(w, a, claim);
            && ShutDownIn(w, r, if Claims(w, a, claim) then {} else {a})
            && r.os.windows == w.os.windows && r.destroyCalls == w.destroyCalls && r.fault == w.fault
            && r.os.quits == w.os.quits + (if !Claims(w, a, claim) && w.objects[a].quitOnClose then 1 else 0)
            && SameCounts(w, r)
  {
    if !Claims(w, a, claim) {
      SetHandleEffect(w, a);
      OnDestroyEffect(SetHandle(w, a, None), a);
    }
  }

  lemma CloseEffect(w: World, h: Hwnd, claim: bool)
    ensures var r := CloseWindow(w, h, claim);
            && ShutDownIn(w, r, AsSet(Reacting(w, h, claim)))
            && r.os.windows == w.os.windows - {h}
            && r.destroyCalls == w.destroyCalls && (NoDangling(w) ==> r.fault == w.fault)
            && r.os.quits == w.os.quits + QuitsPosted(w, Reacting(w, h, claim))
            && SameCounts(w, r)
  {
    if h !in w.os.windows {
      assert w.os.windows - {h} == w.os.windows;
    } else {
      var userData := w.os.windows[h].userData;
      if userData.Some? && userData.value in w.objects {
        HandleDestroyEffect(w, userData.value, claim);
      }
    }
  }

  /** What Destroy of `a` shuts down: `a`, and whoever answers for the window its handle names. */
  function Affected(w: World, a: Addr, claim: bool): set<Addr>
    requires a in w.objects
  {
    {a} + if w.objects[a].handle.Some? then AsSet(Reacting(w, w.objects[a].handle.value, claim)) else {}
  }

  lemma DestroyEffect(w: World, a: Addr, claim: bool)
    requires a in w.objects
    ensures ShutDownIn(w, Destroy(w, a, claim), Affected(w, a, claim))
    ensures DestroyOsEffect(w, a, claim, Destroy(w, a, claim))
  {
    OnDestroyEffect(w, a);
    if w.objects[a].handle.Some? {
      DestroyShutsDown(w, a, claim);
      DestroyClosesHandle(w, a, claim);
    } else {
      assert Destroy(w, a, claim) == UnregisterIfLast(OnDestroy(w, a));
    }
  }

  /** Whose handler takes the WM_DESTROY of that window: `a` has dropped its controller and cannot claim it. */
  function Answering(w: World, a: Addr, claim: bool): Option<Addr>
    requires a in w.objects
  {
    if w.objects[a].handle.None? then None
    else if OwnsWindow(w, a) then Some(a)
    else Reacting(w, w.objects[a].handle.value, claim)
  }

  /** One DestroyWindow call for the handle, if any; that window is gone, and a quit posted if its owner wants one. */
  ghost predicate DestroyOsEffect(w: World, a: Addr, claim: bool, r: World)
    requires a in w.objects
  {
    var t := w.objects[a].handle;
    && r.os.windows == w.os.windows - (if t.Some? then {t.value} else {})
    && r.destroyCalls == (if t.Some? then LogDestroyCall(w, a, t.value).destroyCalls else w.destroyCalls)
    && (NoDangling(w) ==> r.fault == w.fault)
    && r.os.quits == w.os.quits + QuitsPosted(w, Answering(w, a, claim))
    && SameCounts(w, r)
  }

  lemma AffectedIs(w: World, r: World, a: Addr, claim: bool)
    requires a in w.objects && w.objects[a].handle.Some? && r.os.windows == w.os.windows
    requires r.objects.Keys == w.objects.Keys && forall b | b in w.objects && b != a :: r.objects[b] == w.objects[b]
    ensures {a} + AsSet(Reacting(r, w.objects[a].handle.value, claim)) == Affected(w, a, claim)
  {
  }

  lemma DestroyShutsDown(w: World, a: Addr, claim: bool)
    requires a in w.objects && w.objects[a].handle.Some?
    ensures ShutDownIn(w, Destroy(w, a, claim), Affected(w, a, claim))
  {
    var h := w.objects[a].handle.value;
    OnDestroyEffect(w, a);
    var w2 := LogDestroyCall(OnDestroy(w, a), a, h);
    var w3 := CloseWindow(w2, h, claim);
    CloseEffect(w2, h, claim);
    SetHandleEffect(w3, a);
    var w4 := SetHandle(w3, a, None);
    ShutDownTwice(w, w2, w3, w4, a, AsSet(Reacting(w2, h, claim)));
    AffectedIs(w, w2, a, claim);
    assert Destroy(w, a, claim) == UnregisterIfLast(w4);
  }

  lemma ReactingIsAnswering(w: World, r: World, a: Addr, claim: bool)
    requires a in w.objects && w.objects[a].handle.Some? && r.os.windows == w.os.windows
    requires r.objects.Keys == w.objects.Keys && forall b | b in w.objects && b != a :: r.objects[b] == w.objects[b]
    requires r.objects[a] == ShutDown(w.objects[a]).(handle := w.objects[a].handle)
    ensures Reacting(r, w.objects[a].handle.value, claim) == Answering(w, a, claim)
    ensures QuitsPosted(r, Answering(w, a, claim)) == QuitsPosted(w, Answering(w, a, claim))
  {
  }

  /** Whether the controller of `a` is still there makes no difference to who answers. */
  lemma AnsweringSame(w: World, r: World, a: Addr, claim: bool)
    requires a in w.objects && r.os.windows == w.os.windows && r.objects.Keys == w.objects.Keys
    requires forall b | b in w.objects && b != a :: r.objects[b] == w.objects[b]
    requires r.objects[a].handle == w.objects[a].handle && r.objects[a].quitOnClose == w.objects[a].quitOnClose
    ensures Answering(r, a, claim) == Answering(w, a, claim)
    ensures QuitsPosted(r, Answering(w, a, claim)) == QuitsPosted(w, Answering(w, a, claim))
  {
  }

  lemma DestroyClosesHandle(w: World, a: Addr, claim: bool)
    requires a in w.objects && w.objects[a].handle.Some?
    ensures DestroyOsEffect(w, a, claim, Destroy(w, a, claim))
  {
    var h := w.objects[a].handle.value;
    OnDestroyEffect(w, a);
    var w2 := LogDestroyCall(OnDestroy(w, a), a, h);
    var w3 := CloseWindow(w2, h, claim);
    CloseEffect(w2, h, claim);
    ReactingIsAnswering(w, w2, a, claim);
    assert Destroy(w, a, claim) == UnregisterIfLast(SetHandle(w3, a, None));
  }

  /** What Create leaves as its opening Destroy left it. */
  lemma CreateEffect(w: World, a: Addr, out: Outcome, claim: bool)
    requires a in w.objects
    ensures var d := Destroy(w, a, claim);
            var r := Create(w, a, out, claim).0;
            && r.os.quits == d.os.quits && r.fault == d.fault && r.destroyCalls == d.destroyCalls
            && r.classRegistered && r.os.registered == (d.os.registered || (!d.classRegistered && out.registerOk))
  {
    var w1 := GetWindowClass(Destroy(w, a, claim), out.registerOk);
    if WindowCreated(w1, out) {
      OnDestroyEffect(AddWindow(w1, a, out.hwnd.value), a);
    }
  }

  /** That one field of that one object changes. */
  lemma SetQuitOnCloseEffect(w: World, a: Addr, quit: bool)
    requires a in w.objects
    ensures var r := SetQuitOnClose(w, a, quit);
            && r.objects.Keys == w.objects.Keys
            && r.objects[a] == w.objects[a].(quitOnClose := quit)
            && (forall b | b in w.objects && b != a :: r.objects[b] == w.objects[b])
            && r == w.(objects := r.objects)
  {
  }

  lemma InDestructorEffect(w: World, a: Addr)
    requires a in w.objects
    ensures var r := InDestructor(w, a);
            && r.objects.Keys == w.objects.Keys
            && r.objects[a] == ShutDown(w.objects[a]).(kind := Plain, handle := w.objects[a].handle)
            && (forall b | b in w.objects && b != a :: r.objects[b] == w.objects[b])
            && r.os == w.os && r.activeCount == w.activeCount - 1 && r.classRegistered == w.classRegistered
            && r.destroyCalls == w.destroyCalls && r.fault == w.fault
  {
    OnDestroyEffect(w, a);
  }

  // Handles, user data and hosts

  /** Objects may be shut down with their windows, as long as none of them owns a window that remains. */
  lemma ShutDownKeepsHandles(w: World, r: World, which: set<Addr>, gone: set<Hwnd>)
    requires HandlesInv(w) && ShutDownIn(w, r, which) && r.os.windows == w.os.windows - gone
    requires forall h | h in r.os.windows :: w.os.windows[h].userData.value !in which
    ensures HandlesInv(r)
    ensures HostInv(w) ==> HostInv(r)
  {
  }

  lemma CloseKeepsHandles(w: World, h: Hwnd, claim: bool)
    requires HandlesInv(w)
    ensures HandlesInv(CloseWindow(w, h, claim))
    ensures HostInv(w) ==> HostInv(CloseWindow(w, h, claim))
  {
    CloseEffect(w, h, claim);
    ShutDownKeepsHandles(w, CloseWindow(w, h, claim), AsSet(Reacting(w, h, claim)), {h});
  }

  lemma AffectedKeepNoWindow(w: World, a: Addr, claim: bool)
    requires a in w.objects && HandlesInv(w)
    ensures forall h | h in w.os.windows && w.objects[a].handle != Some(h) ::
              w.os.windows[h].userData.value !in Affected(w, a, claim)
  {
  }

  lemma DestroyKeepsHandles(w: World, a: Addr, claim: bool)
    requires a in w.objects && HandlesInv(w)
    ensures HandlesInv(Destroy(w, a, claim))
    ensures HostInv(w) ==> HostInv(Destroy(w, a, claim))
  {
    DestroyEffect(w, a, claim);
    AffectedKeepNoWindow(w, a, claim);
    var t := w.objects[a].handle;
    ShutDownKeepsHandles(w, Destroy(w, a, claim), Affected(w, a, claim), if t.Some? then {t.value} else {});
  }

  lemma CreateKeepsHandles(w: World, a: Addr, out: Outcome, claim: bool)
    requires a in w.objects && HandlesInv(w)
    ensures HandlesInv(Create(w, a, out, claim).0)
    ensures HostInv(w) ==> HostInv(Create(w, a, out, claim).0)
  {
    DestroyKeepsHandles(w, a, claim);
    DestroyEffect(w, a, claim);
    var w1 := GetWindowClass(Destroy(w, a, claim), out.registerOk);
    if WindowCreated(w1, out) {
      AddedWindowIsOwned(w1, a, out);
    }
  }

  lemma AddedWindowIsOwned(w: World, a: Addr, out: Outcome)
    requires a in w.objects && HandlesInv(w) && w.objects[a].handle.None? && WindowCreated(w, out)
    ensures var r := OnCreate(AddWindow(w, a, out.hwnd.value), a, out).0;
            HandlesInv(r) && (HostInv(w) ==> HostInv(r))
  {
    var w1 := AddWindow(w, a, out.hwnd.value);
    assert HandlesInv(w1);
    assert HostInv(w) ==> HostExcept(w1, a);
    if w.objects[a].kind.Flutter? {
      OnDestroyEffect(w1, a);
      MakeControllerKeepsHandles(OnDestroy(w1, a), a, out);
    }
  }

  ghost predicate HostExcept(w: World, a: Addr) {
    forall b | b in w.objects && b != a && w.objects[b].kind.Flutter? && OwnsWindow(w, b) ::
      w.objects[b].controller.Some?
  }

  lemma MakeControllerKeepsHandles(w: World, a: Addr, out: Outcome)
    requires a in w.objects && HandlesInv(w)
    ensures HandlesInv(MakeController(w, a, out))
    ensures HostExcept(w, a) ==> HostInv(MakeController(w, a, out))
  {
  }

  lemma DestructKeepsHandles(w: World, a: Addr, claim: bool)
    requires a in w.objects && HandlesInv(w)
    ensures HandlesInv(Destruct(w, a, claim))
    ensures HostInv(w) ==> HostInv(Destruct(w, a, claim))
  {
    var w1 := InDestructor(w, a);
    DemoteKeepsHandles(w, a);
    DestroyKeepsHandles(w1, a, claim);
    DestroyEffect(w1, a, claim);
    ForgetKeepsHandles(Destroy(w1, a, claim), a);
  }

  lemma DemoteKeepsHandles(w: World, a: Addr)
    requires a in w.objects && HandlesInv(w)
    ensures HandlesInv(Demote(w, a)) && (HostInv(w) ==> HostInv(Demote(w, a)))
  {
    OnDestroyEffect(w, a);
  }

  lemma ForgetKeepsHandles(w: World, a: Addr)
    requires a in w.objects && HandlesInv(w) && w.objects[a].handle.None?
    ensures var r := Forget(w, a);
            HandlesInv(r) && (HostInv(w) ==> HostInv(r))
  {
  }

  /** A dispatched message changes nothing, faults, or closes the window it was sent to. */
  lemma DispatchOutcomes(w: World, h: Hwnd, msg: Message, claim: bool, claimDestroy: bool)
    requires h in w.os.windows && HandlesInv(w)
    ensures var r := Dispatch(w, h, msg, claim, claimDestroy);
            r == w || r == w.(fault := true) || r == CloseWindow(w, h, claimDestroy)
  {
  }

  lemma DispatchKeepsHandles(w: World, h: Hwnd, msg: Message, claim: bool, claimDestroy: bool)
    requires h in w.os.windows && HandlesInv(w)
    ensures HandlesInv(Dispatch(w, h, msg, claim, claimDestroy))
    ensures HostInv(w) ==> HostInv(Dispatch(w, h, msg, claim, claimDestroy))
  {
    DispatchOutcomes(w, h, msg, claim, claimDestroy);
    CloseKeepsHandles(w, h, claimDestroy);
  }

  lemma HandlesKept(w: World, s: Step)
    requires Enabled(w, s) && HandlesInv(w)
    ensures HandlesInv(Next(w, s))
    ensures HostInv(w) ==> HostInv(Next(w, s))
  {
    match s
    case DoConstruct(a, kind) =>
    case DoSetQuitOnClose(a, quit) =>
    case DoCreate(a, out, claim) => CreateKeepsHandles(w, a, out, claim);
    case DoDestroy(a, claim) => DestroyKeepsHandles(w, a, claim);
    case DoDestruct(a, claim) => DestructKeepsHandles(w, a, claim);
    case DoDispatch(h, msg, claim, claimDestroy) => DispatchKeepsHandles(w, h, msg, claim, claimDestroy);
  }

  // Serial numbers and DestroyWindow calls

  lemma SameSerials(w: World, r: World)
    requires SerialsInv(w)
    requires r.os.windows == w.os.windows && r.os.serials == w.os.serials && r.destroyCalls == w.destroyCalls
    ensures SerialsInv(r)
  {
  }

  lemma FewerWindowsKeepSerials(w: World, r: World, gone: set<Hwnd>)
    requires SerialsInv(w)
    requires r.os.windows == w.os.windows - gone && r.os.serials == w.os.serials && r.destroyCalls == w.destroyCalls
    ensures SerialsInv(r)
  {
  }

  /** A logged call hits the window that is gone afterwards, so no later call can hit it again. */
  lemma DestroyKeepsSerials(w: World, a: Addr, claim: bool)
    requires a in w.objects && SerialsInv(w)
    ensures SerialsInv(Destroy(w, a, claim))
  {
    DestroyEffect(w, a, claim);
    var r := Destroy(w, a, claim);
    var t := w.objects[a].handle;
    if t.Some? {
      var hit := if t.value in w.os.windows then Some(w.os.windows[t.value]) else None;
      LoggedCallKeepsSerials(w, r, DestroyCall(a, hit), t.value);
    } else {
      FewerWindowsKeepSerials(w, r, {});
    }
  }

  lemma LoggedCallKeepsSerials(w: World, r: World, call: DestroyCall, h: Hwnd)
    requires SerialsInv(w) && call.hit == if h in w.os.windows then Some(w.os.windows[h]) else None
    requires r.os.windows == w.os.windows - {h} && r.os.serials == w.os.serials
    requires r.destroyCalls == w.destroyCalls + [call]
    ensures SerialsInv(r)
  {
  }

  lemma AddedWindowKeepsSerials(w: World, a: Addr, out: Outcome)
    requires a in w.objects && SerialsInv(w) && WindowCreated(w, out)
    ensures SerialsInv(OnCreate(AddWindow(w, a, out.hwnd.value), a, out).0)
  {
    var w1 := AddWindow(w, a, out.hwnd.value);
    assert SerialsInv(w1);
    OnDestroyEffect(w1, a);
  }

  lemma CreateKeepsSerials(w: World, a: Addr, out: Outcome, claim: bool)
    requires a in w.objects && SerialsInv(w)
    ensures SerialsInv(Create(w, a, out, claim).0)
  {
    DestroyKeepsSerials(w, a, claim);
    var w1 := GetWindowClass(Destroy(w, a, claim), out.registerOk);
    assert SerialsInv(w1);
    if WindowCreated(w1, out) {
      AddedWindowKeepsSerials(w1, a, out);
    }
  }

  lemma DestructKeepsSerials(w: World, a: Addr, claim: bool)
    requires a in w.objects && SerialsInv(w)
    ensures SerialsInv(Destruct(w, a, claim))
  {
    var w1 := InDestructor(w, a);
    InDestructorEffect(w, a);
    SameSerials(w, w1);
    DestroyKeepsSerials(w1, a, claim);
    var d := Destroy(w1, a, claim);
    SameSerials(d, Forget(d, a));
  }

  lemma DispatchKeepsSerials(w: World, h: Hwnd, msg: Message, claim: bool, claimDestroy: bool)
    requires h in w.os.windows && HandlesInv(w) && SerialsInv(w)
    ensures SerialsInv(Dispatch(w, h, msg, claim, claimDestroy))
  {
    DispatchOutcomes(w, h, msg, claim, claimDestroy);
    CloseEffect(w, h, claimDestroy);
    FewerWindowsKeepSerials(w, CloseWindow(w, h, claimDestroy), {h});
  }

  lemma SerialsKept(w: World, s: Step)
    requires Enabled(w, s) && HandlesInv(w) && SerialsInv(w)
    ensures SerialsInv(Next(w, s))
  {
    match s
    case DoConstruct(a, kind) =>
    case DoSetQuitOnClose(a, quit) =>
    case DoCreate(a, out, claim) => CreateKeepsSerials(w, a, out, claim);
    case DoDestroy(a, claim) => DestroyKeepsSerials(w, a, claim);
    case DoDestruct(a, claim) => DestructKeepsSerials(w, a, claim);
    case DoDispatch(h, msg, claim, claimDestroy) => DispatchKeepsSerials(w, h, msg, claim, claimDestroy);
  }

  // Class registration and the object count

  lemma DestroyAtZero(w: World, a: Addr, claim: bool)
    requires a in w.objects && w.activeCount == 0
    ensures var r := Destroy(w, a, claim);
            !r.classRegistered && (r.os.windows == map[] ==> !r.os.registered)
  {
    DestroyEffect(w, a, claim);
  }

  lemma DestroyKeepsClass(w: World, a: Addr, claim: bool)
    requires a in w.objects && ClassInv(w)
    ensures ClassInv(Destroy(w, a, claim)) && Destroy(w, a, claim).classRegistered == w.classRegistered
  {
    DestroyEffect(w, a, claim);
    var r := Destroy(w, a, claim);
    assert |r.objects.Keys| == |w.objects.Keys| && a in r.objects;
  }

  /** With one object left, the only window that can exist is its own, so the outer unregistering succeeds. */
  lemma LastDestructorUnregisters(w: World, a: Addr, claim: bool)
    requires HandlesInv(w) && w.objects.Keys == {a} && w.activeCount == 1
    ensures var r := Destruct(w, a, claim);
            r.objects == map[] && r.activeCount == 0 && r.os.windows == map[] && !r.os.registered && !r.classRegistered
  {
    InDestructorEffect(w, a);
    var w1 := InDestructor(w, a);
    DestroyEffect(w1, a, claim);
    DestroyAtZero(w1, a, claim);
    assert forall h | h in w.os.windows :: w.os.windows[h].userData.value == a;
    assert Destroy(w1, a, claim).os.windows == map[];
  }

  lemma OnlyObject(w: World, a: Addr)
    requires a in w.objects && |w.objects| == 1
    ensures w.objects.Keys == {a}
  {
    assert |w.objects.Keys - {a}| == 0;
  }

  lemma OthersRemain(w: World, a: Addr, claim: bool)
    requires a in w.objects && w.activeCount != 1
    ensures var r := Destruct(w, a, claim);
            && r.objects.Keys == w.objects.Keys - {a} && r.activeCount == w.activeCount - 1
            && r.os.registered == w.os.registered && r.classRegistered == w.classRegistered
            && (r.os.windows != map[] ==> w.os.windows != map[])
  {
    InDestructorEffect(w, a);
    DestroyEffect(InDestructor(w, a), a, claim);
  }

  lemma DestructKeepsClass(w: World, a: Addr, claim: bool)
    requires a in w.objects && HandlesInv(w) && ClassInv(w)
    ensures ClassInv(Destruct(w, a, claim))
  {
    if |w.objects| == 1 {
      OnlyObject(w, a);
      LastDestructorUnregisters(w, a, claim);
    } else {
      OthersRemain(w, a, claim);
      OneLess(w, Destruct(w, a, claim), a);
    }
  }

  lemma OneLess(w: World, r: World, a: Addr)
    requires a in w.objects && r.objects.Keys == w.objects.Keys - {a}
    ensures |r.objects| == |w.objects| - 1 && (r.objects == map[] ==> |w.objects| == 1)
  {
    assert |r.objects.Keys| == |w.objects.Keys| - 1;
  }

  lemma CreateKeepsClass(w: World, a: Addr, out: Outcome, claim: bool)
    requires a in w.objects && ClassInv(w)
    ensures ClassInv(Create(w, a, out, claim).0)
  {
    DestroyKeepsClass(w, a, claim);
    var w1 := GetWindowClass(Destroy(w, a, claim), out.registerOk);
    assert ClassInv(w1);
    if WindowCreated(w1, out) {
      var w2 := AddWindow(w1, a, out.hwnd.value);
      assert w2.objects.Keys == w1.objects.Keys;
      OnDestroyEffect(w2, a);
      var r := OnCreate(w2, a, out).0;
      assert r.objects.Keys == w1.objects.Keys;
      assert |r.objects| == |r.objects.Keys| == |w1.objects|;
    }
  }

  lemma DispatchKeepsClass(w: World, h: Hwnd, msg: Message, claim: bool, claimDestroy: bool)
    requires h in w.os.windows && HandlesInv(w) && ClassInv(w)
    ensures ClassInv(Dispatch(w, h, msg, claim, claimDestroy))
    ensures Dispatch(w, h, msg, claim, claimDestroy).os.registered == w.os.registered
    ensures Dispatch(w, h, msg, claim, claimDestroy).classRegistered == w.classRegistered
  {
    DispatchOutcomes(w, h, msg, claim, claimDestroy);
    CloseEffect(w, h, claimDestroy);
    assert |CloseWindow(w, h, claimDestroy).objects.Keys| == |w.objects.Keys|;
    assert w.os.windows[h].userData.value in w.objects;
  }

  lemma ClassKept(w: World, s: Step)
    requires Enabled(w, s) && HandlesInv(w) && ClassInv(w)
    ensures ClassInv(Next(w, s))
  {
    match s
    case DoConstruct(a, kind) =>
    case DoSetQuitOnClose(a, quit) =>
      assert Next(w, s).objects.Keys == w.objects.Keys;
    case DoCreate(a, out, claim) => CreateKeepsClass(w, a, out, claim);
    case DoDestroy(a, claim) => DestroyKeepsClass(w, a, claim);
    case DoDestruct(a, claim) => DestructKeepsClass(w, a, claim);
    case DoDispatch(h, msg, claim, claimDestroy) => DispatchKeepsClass(w, h, msg, claim, claimDestroy);
  }

  // Controllers

  lemma SameControllers(w: World, r: World)
    requires ControllersInv(w) && r.released == w.released && r.os.controllers == w.os.controllers
    requires forall a | a in r.objects && r.objects[a].kind.Plain? :: r.objects[a].controller.None?
    requires forall a, id: nat :: HeldBy(r, a, id) <==> HeldBy(w, a, id)
    ensures ControllersInv(r)
  {
    forall id: nat | id < r.os.controllers && id !in r.released
      ensures exists a :: HeldBy(r, a, id)
    {
      var a :| HeldBy(w, a, id);
      assert HeldBy(r, a, id);
    }
  }

  lemma SameObjects(w: World, r: World)
    requires ControllersInv(w) && r.objects == w.objects
    requires r.released == w.released && r.os.controllers == w.os.controllers
    ensures ControllersInv(r)
  {
    SameControllers(w, r);
  }

  /** The dropped controller moves from its holder to the released list. */
  lemma OnDestroyKeepsControllers(w: World, a: Addr)
    requires a in w.objects && ControllersInv(w)
    ensures ControllersInv(OnDestroy(w, a)) && OnDestroy(w, a).objects[a].controller == None
  {
    var r := OnDestroy(w, a);
    OnDestroyEffect(w, a);
    if r != w {
      var id0 := w.objects[a].controller.value.id;
      assert HeldBy(w, a, id0);
      assert id0 in r.released && r.released[|w.released|] == id0;
      forall b, id: nat | HeldBy(r, b, id)
        ensures HeldBy(w, b, id) && b != a
      {
      }
      forall id: nat | id < r.os.controllers && id !in r.released
        ensures exists b :: HeldBy(r, b, id)
      {
        var b :| HeldBy(w, b, id);
        assert HeldBy(r, b, id);
      }
    }
  }

  lemma SetHandleKeepsControllers(w: World, a: Addr, handle: Option<Hwnd>)
    requires a in w.objects && ControllersInv(w)
    ensures ControllersInv(SetHandle(w, a, handle))
  {
    SameControllers(w, SetHandle(w, a, handle));
  }

  lemma HandleDestroyKeepsControllers(w: World, a: Addr, claim: bool)
    requires a in w.objects && ControllersInv(w)
    ensures ControllersInv(HandleDestroy(w, a, claim))
  {
    if !Claims(w, a, claim) {
      var w1 := SetHandle(w, a, None);
      SetHandleKeepsControllers(w, a, None);
      OnDestroyKeepsControllers(w1, a);
      HandleDestroyIs(w, a, claim);
      SameObjects(OnDestroy(w1, a), HandleDestroy(w, a, claim));
    }
  }

  lemma HandleDestroyIs(w: World, a: Addr, claim: bool)
    requires a in w.objects && !Claims(w, a, claim)
    ensures var r, m := HandleDestroy(w, a, claim), OnDestroy(SetHandle(w, a, None), a);
            r.objects == m.objects && r.released == m.released && r.os.controllers == m.os.controllers
  {
  }

  lemma CloseHandleKeepsControllers(w: World, a: Addr, claim: bool)
    requires a in w.objects && ControllersInv(w)
    ensures ControllersInv(CloseHandle(w, a, claim))
  {
    if w.objects[a].handle.Some? {
      var h := w.objects[a].handle.value;
      var w1 := LogDestroyCall(w, a, h);
      SameObjects(w, w1);
      CloseKeepsControllers(w1, h, claim);
      SetHandleKeepsControllers(CloseWindow(w1, h, claim), a, None);
    }
  }

  lemma CloseKeepsControllers(w: World, h: Hwnd, claim: bool)
    requires ControllersInv(w)
    ensures ControllersInv(CloseWindow(w, h, claim))
  {
    if h in w.os.windows {
      var userData := w.os.windows[h].userData;
      if userData.Some? && userData.value in w.objects {
        HandleDestroyKeepsControllers(w, userData.value, claim);
        SameObjects(HandleDestroy(w, userData.value, claim), CloseWindow(w, h, claim));
      } else {
        SameObjects(w, CloseWindow(w, h, claim));
      }
    }
  }

  lemma DestroyKeepsControllers(w: World, a: Addr, claim: bool)
    requires a in w.objects && ControllersInv(w)
    ensures ControllersInv(Destroy(w, a, claim))
  {
    var w1 := OnDestroy(w, a);
    OnDestroyKeepsControllers(w, a);
    CloseHandleKeepsControllers(w1, a, claim);
    SameObjects(CloseHandle(w1, a, claim), Destroy(w, a, claim));
  }

  lemma MakeControllerKeepsControllers(w: World, a: Addr, out: Outcome)
    requires a in w.objects && ControllersInv(w) && w.objects[a].kind.Flutter? && w.objects[a].controller.None?
    ensures ControllersInv(MakeController(w, a, out))
  {
    var r := MakeController(w, a, out);
    assert HeldBy(r, a, w.os.controllers);
    forall b, id: nat | HeldBy(r, b, id)
      ensures if b == a then id == w.os.controllers else HeldBy(w, b, id)
    {
    }
    forall id: nat | id < r.os.controllers && id !in r.released
      ensures exists b :: HeldBy(r, b, id)
    {
      if id < w.os.controllers {
        var b :| HeldBy(w, b, id);
        assert HeldBy(r, b, id);
      }
    }
  }

  lemma CreateKeepsControllers(w: World, a: Addr, out: Outcome, claim: bool)
    requires a in w.objects && ControllersInv(w)
    ensures ControllersInv(Create(w, a, out, claim).0)
  {
    DestroyKeepsControllers(w, a, claim);
    var w1 := GetWindowClass(Destroy(w, a, claim), out.registerOk);
    SameObjects(Destroy(w, a, claim), w1);
    if WindowCreated(w1, out) {
      var w2 := AddWindow(w1, a, out.hwnd.value);
      SameControllers(w1, w2);
      if w2.objects[a].kind.Flutter? {
        OnDestroyEffect(w2, a);
        OnDestroyKeepsControllers(w2, a);
        MakeControllerKeepsControllers(OnDestroy(w2, a), a, out);
      }
    }
  }

  lemma DemoteKeepsControllers(w: World, a: Addr)
    requires a in w.objects && ControllersInv(w)
    ensures ControllersInv(Demote(w, a))
  {
    var w1 := OnDestroy(w, a);
    OnDestroyKeepsControllers(w, a);
    var r := Demote(w, a);
    SameControllers(w1, r);
  }

  lemma ForgetKeepsControllers(w: World, a: Addr)
    requires a in w.objects && ControllersInv(w) && w.objects[a].controller.None?
    ensures ControllersInv(Forget(w, a))
  {
    var r := Forget(w, a);
    SameControllers(w, r);
  }

  lemma DestructKeepsControllers(w: World, a: Addr, claim: bool)
    requires a in w.objects && ControllersInv(w)
    ensures ControllersInv(Destruct(w, a, claim))
  {
    DemoteKeepsControllers(w, a);
    InDestructorEffect(w, a);
    var w1 := InDestructor(w, a);
    SameObjects(Demote(w, a), w1);
    DestroyKeepsControllers(w1, a, claim);
    DestroyEffect(w1, a, claim);
    ForgetKeepsControllers(Destroy(w1, a, claim), a);
  }

  lemma ConstructKeepsControllers(w: World, a: Addr, kind: Kind)
    requires a !in w.objects && ControllersInv(w)
    ensures ControllersInv(Construct(w, a, kind))
  {
    var r := Construct(w, a, kind);
    SameControllers(w, r);
  }

  lemma ControllersKept(w: World, s: Step)
    requires Enabled(w, s) && HandlesInv(w) && ControllersInv(w)
    ensures ControllersInv(Next(w, s))
  {
    match s
    case DoConstruct(a, kind) => ConstructKeepsControllers(w, a, kind);
    case DoSetQuitOnClose(a, quit) => SameControllers(w, Next(w, s));
    case DoCreate(a, out, claim) => CreateKeepsControllers(w, a, out, claim);
    case DoDestroy(a, claim) => DestroyKeepsControllers(w, a, claim);
    case DoDestruct(a, claim) => DestructKeepsControllers(w, a, claim);
    case DoDispatch(h, msg, claim, claimDestroy) =>
      DispatchOutcomes(w, h, msg, claim, claimDestroy);
      CloseKeepsControllers(w, h, claimDestroy);
      SameObjects(w, w.(fault := true));
  }

  lemma InvKept(w: World, s: Step)
    requires Enabled(w, s) && Inv(w)
    ensures Inv(Next(w, s))
  {
    HandlesKept(w, s);
    ClassKept(w, s);
    SerialsKept(w, s);
    ControllersKept(w, s);
  }
}
