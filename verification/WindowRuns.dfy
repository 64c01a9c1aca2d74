/** What holds in every quiescent state of every run, over any number of windows. */
module WindowRuns {
  import opened Options
  import opened WindowModel
  import opened WindowInvariants

  lemma {:induction false} RunInvariant(ws: seq<World>, steps: seq<Step>, n: nat)
    requires IsRun(ws, steps) && n <= |steps|
    ensures Inv(ws[n])
  {
    if n > 0 {
      RunInvariant(ws, steps, n - 1);
      InvKept(ws[n - 1], steps[n - 1]);
    }
  }

  /** Once every object is gone, so is every window, the class registration and every controller. */
  lemma NothingLeaks(ws: seq<World>, steps: seq<Step>, n: nat)
    requires IsRun(ws, steps) && n <= |steps| && ws[n].objects == map[]
    ensures ws[n].activeCount == 0 && ws[n].os.windows == map[]
    ensures !ws[n].os.registered && !ws[n].classRegistered
    ensures |ws[n].released| == ws[n].os.controllers
    ensures forall id: nat | id < ws[n].os.controllers :: id in ws[n].released
  {
    RunInvariant(ws, steps, n);
    AllReleased(ws[n].released, ws[n].os.controllers);
  }

  ghost predicate NoRepeats(ids: seq<nat>) {
    forall i, j | 0 <= i < j < |ids| :: ids[i] != ids[j]
  }

  function Without(ids: seq<nat>, k: nat): (rest: seq<nat>)
    requires k < |ids|
    ensures |rest| == |ids| - 1
    ensures forall i | 0 <= i < |rest| :: rest[i] == ids[if i < k then i else i + 1]
  {
    ids[..k] + ids[k + 1..]
  }

  lemma WithoutNoRepeats(ids: seq<nat>, k: nat)
    requires k < |ids| && NoRepeats(ids)
    ensures NoRepeats(Without(ids, k)) && ids[k] !in Without(ids, k)
  {
  }

  lemma WithoutKeeps(ids: seq<nat>, k: nat, id: nat)
    requires k < |ids| && id in ids && id != ids[k]
    ensures id in Without(ids, k)
  {
    var j :| 0 <= j < |ids| && ids[j] == id;
    assert Without(ids, k)[if j < k then j else j - 1] == id;
  }

  /** A list without repetitions that holds exactly the numbers below `n` has length `n`. */
  lemma {:induction false} AllReleased(ids: seq<nat>, n: nat)
    requires NoRepeats(ids)
    requires forall i | 0 <= i < |ids| :: ids[i] < n
    requires forall id: nat | id < n :: id in ids
    ensures |ids| == n
  {
    if ids == [] {
      assert n > 0 ==> 0 in ids;
    } else {
      assert ids[0] < n && n - 1 in ids;
      var k :| 0 <= k < |ids| && ids[k] == n - 1;
      WithoutNoRepeats(ids, k);
      forall id: nat | id < n - 1
        ensures id in Without(ids, k)
      {
        WithoutKeeps(ids, k, id);
      }
      AllReleased(Without(ids, k), n - 1);
    }
  }

  // What Create reports

  /** The class is or gets registered, and the handle the OS offers is free or the object's own old one. */
  predicate CanOpen(w: World, a: Addr, out: Outcome)
    requires a in w.objects
  {
    && (w.os.registered || (!w.classRegistered && out.registerOk))
    && out.hwnd.Some? && (out.hwnd.value !in w.os.windows || w.objects[a].handle == out.hwnd)
  }

  /** The object ends up with a window exactly when one could be opened, whatever Create reports. */
  lemma CreateResult(w: World, a: Addr, out: Outcome, claim: bool)
    requires a in w.objects && HandlesInv(w) && ClassInv(w)
    ensures var (r, ok) := Create(w, a, out, claim);
            && a in r.objects
            && (OwnsWindow(r, a) <==> CanOpen(w, a, out))
            && (ok <==> CanOpen(w, a, out) && (w.objects[a].kind.Plain? || (out.hasEngine && out.hasView)))
            && r.objects[a].handle == (if CanOpen(w, a, out) then out.hwnd else None)
            && (w.objects[a].kind.Flutter? ==>
                  r.objects[a].controller ==
                  if CanOpen(w, a, out) then Some(Controller(w.os.controllers, out.hasEngine, out.hasView)) else None)
  {
    ReadyToOpen(w, a, out, claim);
    var w1 := GetWindowClass(Destroy(w, a, claim), out.registerOk);
    if WindowCreated(w1, out) {
      OpenedWindow(w1, a, out);
    }
  }

  lemma ReadyToOpen(w: World, a: Addr, out: Outcome, claim: bool)
    requires a in w.objects && ClassInv(w)
    ensures var w1 := GetWindowClass(Destroy(w, a, claim), out.registerOk);
            && (WindowCreated(w1, out) <==> CanOpen(w, a, out))
            && w1.objects.Keys == w.objects.Keys && w1.objects[a] == ShutDown(w.objects[a])
            && w1.os.controllers == w.os.controllers
  {
    DestroyEffect(w, a, claim);
    assert w.activeCount != 0;
  }

  lemma OpenedWindow(w: World, a: Addr, out: Outcome)
    requires a in w.objects && WindowCreated(w, out)
    ensures var r := OnCreate(AddWindow(w, a, out.hwnd.value), a, out).0;
            && a in r.objects && OwnsWindow(r, a) && r.objects[a].handle == out.hwnd
            && (w.objects[a].kind.Flutter? ==>
                  r.objects[a].controller == Some(Controller(w.os.controllers, out.hasEngine, out.hasView)))
  {
    OnDestroyEffect(AddWindow(w, a, out.hwnd.value), a);
  }

  /** Create changes window and controller of its own object and, apart from that, shuts down what Destroy does. */
  lemma CreateKeepsRest(w: World, a: Addr, out: Outcome, claim: bool)
    requires a in w.objects
    ensures var r := Create(w, a, out, claim).0;
            && r.objects.Keys == w.objects.Keys
            && SameMake(r.objects[a], w.objects[a])
            && forall b | b in w.objects && b != a ::
                 r.objects[b] == if b in Affected(w, a, claim) then ShutDown(w.objects[b]) else w.objects[b]
  {
    DestroyEffect(w, a, claim);
    var w1 := GetWindowClass(Destroy(w, a, claim), out.registerOk);
    if WindowCreated(w1, out) {
      OpenKeepsRest(w1, a, out);
    }
  }

  /** The fields an object keeps whatever happens to its window. */
  predicate SameMake(o: Window, p: Window) {
    o.kind == p.kind && o.quitOnClose == p.quitOnClose
  }

  lemma OpenKeepsRest(w: World, a: Addr, out: Outcome)
    requires a in w.objects && WindowCreated(w, out)
    ensures var r := OnCreate(AddWindow(w, a, out.hwnd.value), a, out).0;
            && r.objects.Keys == w.objects.Keys && SameMake(r.objects[a], w.objects[a])
            && r.objects[a].handle == out.hwnd
            && forall b | b in w.objects && b != a :: r.objects[b] == w.objects[b]
  {
    OnDestroyEffect(AddWindow(w, a, out.hwnd.value), a);
  }

  // What the program asked of an object

  /** What the last SetQuitOnClose for `a` passed, if any since `a` was constructed. */
  function QuitWanted(steps: seq<Step>, n: nat, a: Addr): bool
    requires n <= |steps|
  {
    n > 0 &&
    match steps[n - 1]
    case DoSetQuitOnClose(b, quit) => if b == a then quit else QuitWanted(steps, n - 1, a)
    case DoConstruct(b, _) => b != a && QuitWanted(steps, n - 1, a)
    case _ => QuitWanted(steps, n - 1, a)
  }

  /** What `a` was last constructed as. */
  function MadeAs(steps: seq<Step>, n: nat, a: Addr): Kind
    requires n <= |steps|
  {
    if n == 0 then Plain
    else if steps[n - 1].DoConstruct? && steps[n - 1].a == a then steps[n - 1].kind
    else MadeAs(steps, n - 1, a)
  }

  /** No other step than these two touches either field of an object that lives on. */
  lemma MakeKept(w: World, s: Step, a: Addr)
    requires Enabled(w, s) && HandlesInv(w) && a in Next(w, s).objects && !(s.DoConstruct? && s.a == a)
    ensures a in w.objects && Next(w, s).objects[a].kind == w.objects[a].kind
    ensures Next(w, s).objects[a].quitOnClose
         == if s.DoSetQuitOnClose? && s.a == a then s.quit else w.objects[a].quitOnClose
  {
    match s
    case DoConstruct(b, kind) =>
    case DoSetQuitOnClose(b, quit) => SetQuitOnCloseEffect(w, b, quit);
    case DoCreate(b, out, claim) => CreateKeepsRest(w, b, out, claim);
    case DoDestroy(b, claim) => DestroyEffect(w, b, claim);
    case DoDestruct(b, claim) => DestructKeepsMake(w, b, claim, a);
    case DoDispatch(h, msg, claim, claimDestroy) => DispatchKeepsMake(w, s, a);
  }

  lemma DestructKeepsMake(w: World, b: Addr, claim: bool, a: Addr)
    requires b in w.objects && a in Destruct(w, b, claim).objects
    ensures a in w.objects && SameMake(Destruct(w, b, claim).objects[a], w.objects[a])
  {
    InDestructorEffect(w, b);
    DestroyEffect(InDestructor(w, b), b, claim);
  }

  lemma DispatchKeepsMake(w: World, s: Step, a: Addr)
    requires s.DoDispatch? && Enabled(w, s) && HandlesInv(w) && a in Next(w, s).objects
    ensures a in w.objects && SameMake(Next(w, s).objects[a], w.objects[a])
  {
    DispatchOutcomes(w, s.h, s.msg, s.claim, s.claimDestroy);
    CloseEffect(w, s.h, s.claimDestroy);
  }

  /** In every state of every run, an object is what it was constructed as and quits on close as it was last told. */
  lemma {:induction false} ObjectsAsAsked(ws: seq<World>, steps: seq<Step>, n: nat, a: Addr)
    requires IsRun(ws, steps) && n <= |steps| && a in ws[n].objects
    ensures ws[n].objects[a].quitOnClose == QuitWanted(steps, n, a)
    ensures ws[n].objects[a].kind == MadeAs(steps, n, a)
  {
    if n > 0 {
      var s := steps[n - 1];
      assert Enabled(ws[n - 1], s) && ws[n] == Next(ws[n - 1], s);
      if !(s.DoConstruct? && s.a == a) {
        RunInvariant(ws, steps, n - 1);
        MakeKept(ws[n - 1], s, a);
        ObjectsAsAsked(ws, steps, n - 1, a);
      }
    }
  }

  // Stale handles

  /** Every non-null handle is a live window whose user data points back. */
  ghost predicate NoStale(w: World) {
    forall a | a in w.objects && w.objects[a].handle.Some? :: OwnsWindow(w, a)
  }

  /** The user closes a window and its controller lets WM_CLOSE through but claims WM_DESTROY. */
  predicate Swallows(w: World, s: Step) {
    && s.DoDispatch? && s.msg.WmClose? && s.h in w.os.windows
    && w.os.windows[s.h].userData.Some? && w.os.windows[s.h].userData.value in w.objects
    && !Claims(w, w.os.windows[s.h].userData.value, s.claim)
    && Claims(w, w.os.windows[s.h].userData.value, s.claimDestroy)
  }

  lemma StaleStep(w: World, s: Step)
    requires Enabled(w, s) && HandlesInv(w) && NoStale(w)
    ensures NoStale(Next(w, s)) <==> !Swallows(w, s)
  {
    match s
    case DoConstruct(a, kind) =>
    case DoSetQuitOnClose(a, quit) =>
    case DoCreate(a, out, claim) => CreateNotStale(w, a, out, claim);
    case DoDestroy(a, claim) => DestroyNotStale(w, a, claim);
    case DoDestruct(a, claim) => DestructNotStale(w, a, claim);
    case DoDispatch(h, msg, claim, claimDestroy) => DispatchStale(w, s);
  }

  lemma DestroyNotStale(w: World, a: Addr, claim: bool)
    requires a in w.objects && HandlesInv(w) && NoStale(w)
    ensures NoStale(Destroy(w, a, claim)) && Destroy(w, a, claim).objects[a].handle.None?
  {
    DestroyEffect(w, a, claim);
    assert w.objects[a].handle.Some? ==> OwnsWindow(w, a);
    assert Affected(w, a, claim) == {a};
    var gone := if w.objects[a].handle.Some? then {w.objects[a].handle.value} else {};
    ShutDownNotStale(w, Destroy(w, a, claim), {a}, gone);
  }

  lemma ShutDownNotStale(w: World, r: World, which: set<Addr>, gone: set<Hwnd>)
    requires NoStale(w) && ShutDownIn(w, r, which) && r.os.windows == w.os.windows - gone
    requires forall h | h in gone && h in w.os.windows && w.os.windows[h].userData.Some? ::
               w.os.windows[h].userData.value in which
    ensures NoStale(r)
  {
    forall b | b in r.objects && r.objects[b].handle.Some?
      ensures OwnsWindow(r, b)
    {
      assert OwnsWindow(w, b);
    }
  }

  lemma CreateNotStale(w: World, a: Addr, out: Outcome, claim: bool)
    requires a in w.objects && HandlesInv(w) && NoStale(w)
    ensures NoStale(Create(w, a, out, claim).0)
  {
    DestroyNotStale(w, a, claim);
    var w1 := GetWindowClass(Destroy(w, a, claim), out.registerOk);
    assert NoStale(w1);
    if WindowCreated(w1, out) {
      AddedNotStale(w1, a, out);
    }
  }

  lemma AddedNotStale(w: World, a: Addr, out: Outcome)
    requires a in w.objects && w.objects[a].handle.None? && NoStale(w) && WindowCreated(w, out)
    ensures NoStale(OnCreate(AddWindow(w, a, out.hwnd.value), a, out).0)
  {
    var w2 := AddWindow(w, a, out.hwnd.value);
    assert NoStale(w2);
    OnDestroyEffect(w2, a);
  }

  lemma DestructNotStale(w: World, a: Addr, claim: bool)
    requires a in w.objects && HandlesInv(w) && NoStale(w)
    ensures NoStale(Destruct(w, a, claim))
  {
    var w1 := InDestructor(w, a);
    InDestructorEffect(w, a);
    DemoteKeepsHandles(w, a);
    SameHandlesNotStale(w, w1);
    DestroyNotStale(w1, a, claim);
    ForgottenNotStale(Destroy(w1, a, claim), a);
  }

  lemma SameHandlesNotStale(w: World, r: World)
    requires NoStale(w) && r.os.windows == w.os.windows && r.objects.Keys == w.objects.Keys
    requires forall b | b in w.objects :: r.objects[b].handle == w.objects[b].handle
    ensures NoStale(r)
  {
  }

  lemma ForgottenNotStale(w: World, a: Addr)
    requires NoStale(w) && a in w.objects && w.objects[a].handle.None?
    ensures NoStale(Forget(w, a))
  {
  }

  lemma DispatchStale(w: World, s: Step)
    requires s.DoDispatch? && s.h in w.os.windows && HandlesInv(w) && NoStale(w)
    ensures NoStale(Next(w, s)) <==> !Swallows(w, s)
  {
    DispatchOutcomes(w, s.h, s.msg, s.claim, s.claimDestroy);
    CloseStale(w, s.h, s.claimDestroy);
  }

  lemma CloseStale(w: World, h: Hwnd, claim: bool)
    requires h in w.os.windows && HandlesInv(w) && NoStale(w)
    ensures NoStale(CloseWindow(w, h, claim)) <==> !Claims(w, w.os.windows[h].userData.value, claim)
  {
    var a := w.os.windows[h].userData.value;
    CloseEffect(w, h, claim);
    var r := CloseWindow(w, h, claim);
    if Claims(w, a, claim) {
      assert r.objects[a].handle == Some(h) && !OwnsWindow(r, a);
    } else {
      ShutDownNotStale(w, r, {a}, {h});
    }
  }

  /** Handles agree with the OS in all quiescent states exactly when no controller swallows a WM_DESTROY. */
  lemma NoStaleHandlesIff(ws: seq<World>, steps: seq<Step>)
    requires IsRun(ws, steps)
    ensures (forall i | 0 <= i <= |steps| :: NoStale(ws[i]))
       <==> (forall i | 0 <= i < |steps| :: !Swallows(ws[i], steps[i]))
  {
    if forall i | 0 <= i < |steps| :: !Swallows(ws[i], steps[i]) {
      NoStaleUpTo(ws, steps, |steps|);
    } else {
      var i :| 0 <= i < |steps| && Swallows(ws[i], steps[i]);
      RunInvariant(ws, steps, i);
      if NoStale(ws[i]) {
        StaleStep(ws[i], steps[i]);
        assert !NoStale(ws[i + 1]);
      }
    }
  }

  lemma {:induction false} NoStaleUpTo(ws: seq<World>, steps: seq<Step>, n: nat)
    requires IsRun(ws, steps) && n <= |steps|
    requires forall i | 0 <= i < n :: !Swallows(ws[i], steps[i])
    ensures forall i | 0 <= i <= n :: NoStale(ws[i])
  {
    if n > 0 {
      NoStaleUpTo(ws, steps, n - 1);
      RunInvariant(ws, steps, n - 1);
      StaleStep(ws[n - 1], steps[n - 1]);
    }
  }

  // DestroyWindow calls

  /** Every DestroyWindow call of the program hit a live window of the calling object. */
  ghost predicate CallsOwn(w: World) {
    forall i | 0 <= i < |w.destroyCalls| ::
      w.destroyCalls[i].hit.Some? && w.destroyCalls[i].hit.value.userData == Some(w.destroyCalls[i].caller)
  }

  lemma CallsOwnStep(w: World, s: Step)
    requires Enabled(w, s) && HandlesInv(w) && NoStale(w) && CallsOwn(w)
    ensures CallsOwn(Next(w, s))
  {
    match s
    case DoConstruct(a, kind) =>
    case DoSetQuitOnClose(a, quit) =>
    case DoCreate(a, out, claim) => CreateCallsOwn(w, a, out, claim);
    case DoDestroy(a, claim) => DestroyCallsOwn(w, a, claim);
    case DoDestruct(a, claim) => DestructCallsOwn(w, a, claim);
    case DoDispatch(h, msg, claim, claimDestroy) =>
      DispatchOutcomes(w, h, msg, claim, claimDestroy);
      CloseEffect(w, h, claimDestroy);
  }

  lemma DestroyCallsOwn(w: World, a: Addr, claim: bool)
    requires a in w.objects && (w.objects[a].handle.Some? ==> OwnsWindow(w, a)) && CallsOwn(w)
    ensures CallsOwn(Destroy(w, a, claim))
  {
    DestroyEffect(w, a, claim);
  }

  lemma DestructCallsOwn(w: World, a: Addr, claim: bool)
    requires a in w.objects && (w.objects[a].handle.Some? ==> OwnsWindow(w, a)) && CallsOwn(w)
    ensures CallsOwn(Destruct(w, a, claim))
  {
    InDestructorEffect(w, a);
    DestroyCallsOwn(InDestructor(w, a), a, claim);
  }

  lemma CreateCallsOwn(w: World, a: Addr, out: Outcome, claim: bool)
    requires a in w.objects && (w.objects[a].handle.Some? ==> OwnsWindow(w, a)) && CallsOwn(w)
    ensures CallsOwn(Create(w, a, out, claim).0)
  {
    DestroyCallsOwn(w, a, claim);
    CreateEffect(w, a, out, claim);
  }

  lemma {:induction false} CallsOwnUpTo(ws: seq<World>, steps: seq<Step>, n: nat)
    requires IsRun(ws, steps) && n <= |steps|
    requires forall i | 0 <= i < n :: !Swallows(ws[i], steps[i])
    ensures CallsOwn(ws[n])
  {
    if n > 0 {
      CallsOwnUpTo(ws, steps, n - 1);
      NoStaleUpTo(ws, steps, n - 1);
      RunInvariant(ws, steps, n - 1);
      CallsOwnStep(ws[n - 1], steps[n - 1]);
    }
  }

  /** No OS window is passed to DestroyWindow twice, and unless a message is swallowed each call is for an own one. */
  lemma DestroyWindowCalls(ws: seq<World>, steps: seq<Step>, n: nat)
    requires IsRun(ws, steps) && n <= |steps|
    ensures var calls := ws[n].destroyCalls;
            forall i, j | 0 <= i < j < |calls| && calls[i].hit.Some? && calls[j].hit.Some? ::
              calls[i].hit.value.serial != calls[j].hit.value.serial
    ensures (forall i | 0 <= i < n :: !Swallows(ws[i], steps[i])) ==> CallsOwn(ws[n])
  {
    RunInvariant(ws, steps, n);
    if forall i | 0 <= i < n :: !Swallows(ws[i], steps[i]) {
      CallsOwnUpTo(ws, steps, n);
    }
  }

  // Registration

  /** A Create that calls RegisterClass and is refused. */
  predicate FailsToRegister(w: World, s: Step) {
    s.DoCreate? && !w.classRegistered && !s.out.registerOk
  }

  lemma RegistrationStep(w: World, s: Step)
    requires Enabled(w, s) && HandlesInv(w) && ClassInv(w) && w.classRegistered == w.os.registered
    ensures Next(w, s).classRegistered == Next(w, s).os.registered <==> !FailsToRegister(w, s)
  {
    match s
    case DoConstruct(a, kind) =>
    case DoSetQuitOnClose(a, quit) =>
    case DoCreate(a, out, claim) => CreateRegistration(w, a, out, claim);
    case DoDestroy(a, claim) => DestroyEffect(w, a, claim);
    case DoDestruct(a, claim) => DestructRegistration(w, a, claim);
    case DoDispatch(h, msg, claim, claimDestroy) => DispatchKeepsClass(w, h, msg, claim, claimDestroy);
  }

  lemma CreateRegistration(w: World, a: Addr, out: Outcome, claim: bool)
    requires a in w.objects && ClassInv(w) && w.classRegistered == w.os.registered
    ensures var r := Create(w, a, out, claim).0;
            r.classRegistered == r.os.registered <==> w.classRegistered || out.registerOk
  {
    DestroyEffect(w, a, claim);
    CreateEffect(w, a, out, claim);
  }

  lemma DestructRegistration(w: World, a: Addr, claim: bool)
    requires a in w.objects && HandlesInv(w) && ClassInv(w) && w.classRegistered == w.os.registered
    ensures Destruct(w, a, claim).classRegistered == Destruct(w, a, claim).os.registered
  {
    if |w.objects| == 1 {
      OnlyObject(w, a);
      LastDestructorUnregisters(w, a, claim);
    } else {
      OthersRemain(w, a, claim);
    }
  }

  /** The flag equals the OS registration in all quiescent states exactly when no RegisterClass call fails. */
  lemma RegistrationAgreesIff(ws: seq<World>, steps: seq<Step>)
    requires IsRun(ws, steps)
    ensures (forall i | 0 <= i <= |steps| :: ws[i].classRegistered == ws[i].os.registered)
       <==> (forall i | 0 <= i < |steps| :: !FailsToRegister(ws[i], steps[i]))
  {
    if forall i | 0 <= i < |steps| :: !FailsToRegister(ws[i], steps[i]) {
      RegisteredUpTo(ws, steps, |steps|);
    } else {
      var i :| 0 <= i < |steps| && FailsToRegister(ws[i], steps[i]);
      RunInvariant(ws, steps, i);
      if ws[i].classRegistered == ws[i].os.registered {
        RegistrationStep(ws[i], steps[i]);
        assert ws[i + 1].classRegistered != ws[i + 1].os.registered;
      }
    }
  }

  lemma {:induction false} RegisteredUpTo(ws: seq<World>, steps: seq<Step>, n: nat)
    requires IsRun(ws, steps) && n <= |steps|
    requires forall i | 0 <= i < n :: !FailsToRegister(ws[i], steps[i])
    ensures forall i | 0 <= i <= n :: ws[i].classRegistered == ws[i].os.registered
  {
    if n > 0 {
      RegisteredUpTo(ws, steps, n - 1);
      RunInvariant(ws, steps, n - 1);
      RegistrationStep(ws[n - 1], steps[n - 1]);
    }
  }

  // What a refused registration does to the rest of the run

  /** The flag says registered and the OS does not. */
  predicate Blocked(w: World) {
    w.classRegistered && !w.os.registered
  }

  lemma RefusalBlocks(w: World, s: Step)
    requires Enabled(w, s) && HandlesInv(w) && ClassInv(w) && FailsToRegister(w, s)
    ensures !Create(w, s.a, s.out, s.claim).1 && Blocked(Next(w, s))
  {
    CreateResult(w, s.a, s.out, s.claim);
    DestroyEffect(w, s.a, s.claim);
    CreateEffect(w, s.a, s.out, s.claim);
  }

  lemma BlockedStep(w: World, s: Step)
    requires Enabled(w, s) && HandlesInv(w) && ClassInv(w) && Blocked(w)
    ensures s.DoCreate? ==> !Create(w, s.a, s.out, s.claim).1
    ensures Blocked(Next(w, s)) || Next(w, s).objects == map[]
  {
    match s
    case DoConstruct(a, kind) =>
    case DoSetQuitOnClose(a, quit) =>
    case DoCreate(a, out, claim) =>
      CreateResult(w, a, out, claim);
      DestroyEffect(w, a, claim);
      CreateEffect(w, a, out, claim);
    case DoDestroy(a, claim) => DestroyEffect(w, a, claim);
    case DoDestruct(a, claim) => BlockedDestruct(w, a, claim);
    case DoDispatch(h, msg, claim, claimDestroy) => DispatchKeepsClass(w, h, msg, claim, claimDestroy);
  }

  lemma BlockedDestruct(w: World, a: Addr, claim: bool)
    requires a in w.objects && HandlesInv(w) && ClassInv(w) && Blocked(w)
    ensures Blocked(Destruct(w, a, claim)) || Destruct(w, a, claim).objects == map[]
  {
    if |w.objects| == 1 {
      OnlyObject(w, a);
      LastDestructorUnregisters(w, a, claim);
    } else {
      OthersRemain(w, a, claim);
    }
  }

  /**
   After one refused RegisterClass nothing is ever registered again until the last object is gone: every Create
   of every object fails and there is no window, even where the OS would accept the class by now.
   */
  lemma BlockedUntilLastObject(ws: seq<World>, steps: seq<Step>, i: nat, j: nat)
    requires IsRun(ws, steps) && i < j <= |steps| && FailsToRegister(ws[i], steps[i])
    requires forall k | i < k <= j :: ws[k].objects != map[]
    ensures !Create(ws[i], steps[i].a, steps[i].out, steps[i].claim).1
    ensures Blocked(ws[j]) && ws[j].os.windows == map[]
    ensures j < |steps| && steps[j].DoCreate? ==> !Create(ws[j], steps[j].a, steps[j].out, steps[j].claim).1
  {
    RunInvariant(ws, steps, i);
    RefusalBlocks(ws[i], steps[i]);
    StaysBlocked(ws, steps, i + 1, j);
    RunInvariant(ws, steps, j);
    if j < |steps| {
      BlockedStep(ws[j], steps[j]);
    }
  }

  lemma {:induction false} StaysBlocked(ws: seq<World>, steps: seq<Step>, i: nat, j: nat)
    requires IsRun(ws, steps) && i <= j <= |steps| && Blocked(ws[i])
    requires forall k | i < k <= j :: ws[k].objects != map[]
    ensures Blocked(ws[j])
    decreases j
  {
    if i < j {
      StaysBlocked(ws, steps, i, j - 1);
      RunInvariant(ws, steps, j - 1);
      BlockedStep(ws[j - 1], steps[j - 1]);
    }
  }

  /** When the nested Destroy of the last destructor returns, the flag is cleared although the window still exists. */
  lemma LastDestructorMidway(w: World, a: Addr, claim: bool)
    requires HandlesInv(w) && ClassInv(w) && w.objects.Keys == {a} && OwnsWindow(w, a)
    ensures var h := w.objects[a].handle.value;
            var w1 := InDestructor(w, a);
            var midway := HandleDestroy(LogDestroyCall(w1, a, h), a, claim);
            && h in midway.os.windows && midway.os.registered && !midway.classRegistered
            && Destruct(w, a, claim).os.windows == map[] && !Destruct(w, a, claim).os.registered
  {
    assert |w.objects.Keys| == 1;
    LastDestructorUnregisters(w, a, claim);
    InDestructorEffect(w, a);
    FlagClearedEarly(LogDestroyCall(InDestructor(w, a), a, w.objects[a].handle.value), a, claim);
  }

  lemma FlagClearedEarly(w: World, a: Addr, claim: bool)
    requires a in w.objects && w.objects[a].kind.Plain? && w.activeCount == 0
    requires w.os.registered && w.os.windows != map[]
    ensures var r := HandleDestroy(w, a, claim);
            r.os.windows == w.os.windows && r.os.registered && !r.classRegistered
  {
    HandleDestroyEffect(w, a, claim);
  }

  // Faults

  /** An unclaimed WM_FONTCHANGE reaches a FlutterWindow whose controller came up without an engine. */
  predicate FontChangeWithoutEngine(w: World, s: Step) {
    && s.DoDispatch? && s.msg.WmFontChange? && !s.claim && s.h in w.os.windows
    && w.os.windows[s.h].userData.Some? && w.os.windows[s.h].userData.value in w.objects
    && var o := w.objects[w.os.windows[s.h].userData.value];
       o.kind.Flutter? && o.controller.Some? && !o.controller.value.hasEngine
  }

  lemma FaultStep(w: World, s: Step)
    requires Enabled(w, s) && HandlesInv(w) && HostInv(w)
    ensures Next(w, s).fault <==> w.fault || FontChangeWithoutEngine(w, s)
  {
    match s
    case DoConstruct(a, kind) =>
    case DoSetQuitOnClose(a, quit) =>
    case DoCreate(a, out, claim) =>
      CreateEffect(w, a, out, claim);
      DestroyEffect(w, a, claim);
    case DoDestroy(a, claim) => DestroyEffect(w, a, claim);
    case DoDestruct(a, claim) => DestructNoFault(w, a, claim);
    case DoDispatch(h, msg, claim, claimDestroy) => DispatchFault(w, s);
  }

  lemma DispatchFault(w: World, s: Step)
    requires s.DoDispatch? && Enabled(w, s) && HandlesInv(w) && HostInv(w)
    ensures Next(w, s).fault <==> w.fault || FontChangeWithoutEngine(w, s)
  {
    CloseEffect(w, s.h, s.claimDestroy);
    assert OwnsWindow(w, w.os.windows[s.h].userData.value);
  }

  lemma DestructNoFault(w: World, a: Addr, claim: bool)
    requires a in w.objects && HandlesInv(w)
    ensures Destruct(w, a, claim).fault == w.fault
  {
    InDestructorEffect(w, a);
    DestroyEffect(InDestructor(w, a), a, claim);
  }

  /** A null controller is never dereferenced: a run faults exactly when fonts change under one without an engine. */
  lemma {:induction false} FaultIff(ws: seq<World>, steps: seq<Step>, n: nat)
    requires IsRun(ws, steps) && n <= |steps|
    ensures ws[n].fault <==> exists i :: 0 <= i < n && FontChangeWithoutEngine(ws[i], steps[i])
  {
    if n > 0 {
      FaultIff(ws, steps, n - 1);
      assert ws[n].fault <==> ws[n - 1].fault || FontChangeWithoutEngine(ws[n - 1], steps[n - 1]) by {
        RunInvariant(ws, steps, n - 1);
        FaultStep(ws[n - 1], steps[n - 1]);
      }
    }
  }

  // Quit messages

  /** The object whose handler takes a WM_DESTROY during the step. */
  function Closer(w: World, s: Step): Option<Addr>
    requires Enabled(w, s)
  {
    match s
    case DoConstruct(_, _) => None
    case DoSetQuitOnClose(_, _) => None
    case DoDispatch(h, msg, claim, claimDestroy) =>
      if msg.WmClose? && Reacting(w, h, claim).Some? then Reacting(w, h, claimDestroy) else None
    case _ => Answering(w, s.a, s.claim)
  }

  /** The step closes the window of an object that quits on close, and WM_DESTROY is not swallowed. */
  predicate ClosesQuitter(w: World, s: Step)
    requires Enabled(w, s)
  {
    Closer(w, s).Some? && Closer(w, s).value in w.objects && w.objects[Closer(w, s).value].quitOnClose
  }

  /** Who answers a WM_DESTROY is always the owner of the window. */
  lemma CloserOwnsWindow(w: World, s: Step)
    requires Enabled(w, s) && HandlesInv(w) && Closer(w, s).Some?
    ensures Closer(w, s).value in w.objects && OwnsWindow(w, Closer(w, s).value)
  {
  }

  lemma QuitPosted(w: World, s: Step)
    requires Enabled(w, s) && HandlesInv(w)
    ensures Next(w, s).os.quits == w.os.quits + if ClosesQuitter(w, s) then 1 else 0
  {
    match s
    case DoConstruct(a, kind) =>
    case DoSetQuitOnClose(a, quit) =>
    case DoCreate(a, out, claim) =>
      CreateEffect(w, a, out, claim);
      DestroyEffect(w, a, claim);
    case DoDestroy(a, claim) => DestroyEffect(w, a, claim);
    case DoDestruct(a, claim) => DestructPostsQuit(w, a, claim);
    case DoDispatch(h, msg, claim, claimDestroy) => DispatchPostsQuit(w, s);
  }

  lemma DispatchPostsQuit(w: World, s: Step)
    requires s.DoDispatch? && Enabled(w, s) && HandlesInv(w)
    ensures Next(w, s).os.quits == w.os.quits + if ClosesQuitter(w, s) then 1 else 0
  {
    UnclaimedCloseCloses(w, s);
    CloseEffect(w, s.h, s.claimDestroy);
  }

  lemma UnclaimedCloseCloses(w: World, s: Step)
    requires s.DoDispatch? && Enabled(w, s) && HandlesInv(w)
    ensures Next(w, s).os == if s.msg.WmClose? && Reacting(w, s.h, s.claim).Some?
                             then CloseWindow(w, s.h, s.claimDestroy).os else w.os
  {
  }

  lemma DestructPostsQuit(w: World, a: Addr, claim: bool)
    requires a in w.objects
    ensures Destruct(w, a, claim).os.quits == w.os.quits + QuitsPosted(w, Answering(w, a, claim))
  {
    var w1 := InDestructor(w, a);
    InDestructorEffect(w, a);
    DestroyEffect(w1, a, claim);
    AnsweringSame(w, w1, a, claim);
    assert Destruct(w, a, claim).os == Destroy(w1, a, claim).os;
  }

  /** How many of the first `n` steps have a WM_DESTROY answered by an object last told to quit on close. */
  ghost function QuitSteps(ws: seq<World>, steps: seq<Step>, n: nat): nat
    requires IsRun(ws, steps) && n <= |steps|
  {
    if n == 0 then 0
    else
      var closer := Closer(ws[n - 1], steps[n - 1]);
      QuitSteps(ws, steps, n - 1) + if closer.Some? && QuitWanted(steps, n - 1, closer.value) then 1 else 0
  }

  lemma ClosesQuitterIff(ws: seq<World>, steps: seq<Step>, n: nat)
    requires IsRun(ws, steps) && n < |steps|
    ensures var closer := Closer(ws[n], steps[n]);
            ClosesQuitter(ws[n], steps[n]) <==> closer.Some? && QuitWanted(steps, n, closer.value)
  {
    RunInvariant(ws, steps, n);
    if Closer(ws[n], steps[n]).Some? {
      CloserOwnsWindow(ws[n], steps[n]);
      ObjectsAsAsked(ws, steps, n, Closer(ws[n], steps[n]).value);
    }
  }

  /** The quits posted in a run are counted by its closing steps: one each, and none without. */
  lemma {:induction false} QuitTotal(ws: seq<World>, steps: seq<Step>, n: nat)
    requires IsRun(ws, steps) && n <= |steps|
    ensures ws[n].os.quits == QuitSteps(ws, steps, n)
  {
    if n > 0 {
      QuitTotal(ws, steps, n - 1);
      ClosesQuitterIff(ws, steps, n - 1);
      RunInvariant(ws, steps, n - 1);
      QuitPosted(ws[n - 1], steps[n - 1]);
    }
  }

  /** A close nobody claims removes the window and posts a quit exactly if its object was last told to quit on close. */
  lemma ClosePostsQuit(ws: seq<World>, steps: seq<Step>, n: nat, h: Hwnd)
    requires IsRun(ws, steps) && n < |steps| && steps[n] == DoDispatch(h, WmClose, false, false)
    ensures h in ws[n].os.windows && ws[n].os.windows[h].userData.Some? && h !in ws[n + 1].os.windows
    ensures ws[n + 1].os.quits
         == ws[n].os.quits + if QuitWanted(steps, n, ws[n].os.windows[h].userData.value) then 1 else 0
  {
    assert Enabled(ws[n], steps[n]) && ws[n + 1] == Next(ws[n], steps[n]);
    RunInvariant(ws, steps, n);
    QuitPosted(ws[n], steps[n]);
    ClosesQuitterIff(ws, steps, n);
    UnclaimedCloseCloses(ws[n], steps[n]);
    CloseEffect(ws[n], h, false);
  }

  // A run in which a swallowed message does harm

  const Made := Outcome(true, Some(7), true, true)
  const Idle := Window(Plain, false, None, None)
  const Hosting := Window(Flutter, false, Some(7), Some(Controller(0, true, true)))
  const Scenario := [DoConstruct(1, Flutter), DoCreate(1, Made, false), DoDispatch(7, WmClose, false, true),
                     DoConstruct(2, Plain), DoCreate(2, Made, false), DoDestroy(1, false)]
  const Trace := [
    Start,
    World(map[1 := Idle.(kind := Flutter)], 1, false, Platform(false, map[], 0, 0, 0), [], [], false),
    World(map[1 := Hosting], 1, true, Platform(true, map[7 := OsWindow(0, Some(1))], 0, 1, 1), [], [], false),
    World(map[1 := Hosting], 1, true, Platform(true, map[], 0, 1, 1), [], [], false),
    World(map[1 := Hosting, 2 := Idle], 2, true, Platform(true, map[], 0, 1, 1), [], [], false),
    World(map[1 := Hosting, 2 := Idle.(handle := Some(7))], 2, true,
          Platform(true, map[7 := OsWindow(1, Some(2))], 0, 2, 1), [], [], false),
    World(map[1 := Idle.(kind := Flutter), 2 := Idle], 2, true, Platform(true, map[], 0, 2, 1),
          [DestroyCall(1, Some(OsWindow(1, Some(2))))], [0], false)]

  lemma ScenarioOpens()
    ensures Next(Trace[0], Scenario[0]) == Trace[1]
    ensures Next(Trace[1], Scenario[1]) == Trace[2]
    ensures Next(Trace[2], Scenario[2]) == Trace[3]
  {
  }

  lemma ScenarioReuses()
    ensures Next(Trace[3], Scenario[3]) == Trace[4]
    ensures Next(Trace[4], Scenario[4]) == Trace[5]
  {
  }

  lemma ScenarioMisfires()
    ensures Next(Trace[5], Scenario[5]) == Trace[6]
  {
    var w1 := LogDestroyCall(OnDestroy(Trace[5], 1), 1, 7);
    var w2 := CloseWindow(w1, 7, false);
    assert w2.objects == map[1 := Hosting.(controller := None), 2 := Idle] && w2.os.windows == map[];
  }

  lemma ThreeMore(ws: seq<World>, steps: seq<Step>, n: nat)
    requires |ws| == |steps| + 1 && n + 3 <= |steps|
    requires forall i | 0 <= i < n :: Enabled(ws[i], steps[i]) && ws[i + 1] == Next(ws[i], steps[i])
    requires Enabled(ws[n], steps[n]) && ws[n + 1] == Next(ws[n], steps[n])
    requires Enabled(ws[n + 1], steps[n + 1]) && ws[n + 2] == Next(ws[n + 1], steps[n + 1])
    requires Enabled(ws[n + 2], steps[n + 2]) && ws[n + 3] == Next(ws[n + 2], steps[n + 2])
    ensures forall i | 0 <= i < n + 3 :: Enabled(ws[i], steps[i]) && ws[i + 1] == Next(ws[i], steps[i])
  {
  }

  lemma ScenarioIsRun()
    ensures IsRun(Trace, Scenario)
  {
    ScenarioStarts();
    ScenarioReuses();
    ScenarioMisfires();
    ThreeMore(Trace, Scenario, 3);
  }

  lemma ScenarioStarts()
    ensures forall i | 0 <= i < 3 :: Enabled(Trace[i], Scenario[i]) && Trace[i + 1] == Next(Trace[i], Scenario[i])
  {
    ScenarioOpens();
    ThreeMore(Trace, Scenario, 0);
  }

  /**
   After a swallowed WM_DESTROY the object still holds the handle.  When the OS gives the same value to a
   window of a second object, destroying the first object closes the second one's window.
   */
  lemma StaleHandleClosesForeignWindow()
    ensures IsRun(Trace, Scenario) && Swallows(Trace[2], Scenario[2]) && !NoStale(Trace[3])
    ensures OwnsWindow(Trace[5], 2) && Scenario[5] == DoDestroy(1, false)
    ensures Trace[6].objects[2].handle == None && Trace[6].os.windows == map[] && !CallsOwn(Trace[6])
  {
    ScenarioIsRun();
    assert !OwnsWindow(Trace[3], 1);
    assert Trace[6].destroyCalls[0].hit.value.userData == Some(2);
  }

  // Runs in which the two other failures happen

  const FontSteps := [DoConstruct(1, Flutter), DoCreate(1, Made.(hasEngine := false), false),
                      DoDispatch(7, WmFontChange, false, false)]
  const NoEngine := World(map[1 := Hosting.(controller := Some(Controller(0, false, true)))], 1, true,
                          Platform(true, map[7 := OsWindow(0, Some(1))], 0, 1, 1), [], [], false)
  const FontTrace := [Start, Trace[1], NoEngine, NoEngine.(fault := true)]

  /** A controller that comes up without an engine leaves a window open, and a font change there dereferences null. */
  lemma FontChangeFaults()
    ensures IsRun(FontTrace, FontSteps) && FontChangeWithoutEngine(FontTrace[2], FontSteps[2])
    ensures !Create(FontTrace[1], 1, FontSteps[1].out, false).1 && FontTrace[3].fault
  {
    ThreeMore(FontTrace, FontSteps, 0);
  }

  const RefusedSteps := [DoConstruct(1, Plain), DoCreate(1, Made.(registerOk := false), false),
                         DoCreate(1, Made, false)]
  const Refused := World(map[1 := Idle], 1, true, Platform(false, map[], 0, 0, 0), [], [], false)
  const RefusedTrace := [Start, Refused.(classRegistered := false), Refused, Refused]

  /** A refused registration sets the flag, and a second attempt that the OS would accept fails on it. */
  lemma RefusedRegistration()
    ensures IsRun(RefusedTrace, RefusedSteps) && FailsToRegister(RefusedTrace[1], RefusedSteps[1])
    ensures RefusedTrace[2].classRegistered && !RefusedTrace[2].os.registered
    ensures RefusedSteps[2].out.registerOk && !Create(RefusedTrace[2], 1, RefusedSteps[2].out, false).1
  {
    ThreeMore(RefusedTrace, RefusedSteps, 0);
  }

  // The start-up of the program and the user closing its window

  const MainSteps := [DoConstruct(1, Flutter), DoCreate(1, Made, false), DoSetQuitOnClose(1, true),
                      DoDispatch(7, WmClose, false, false)]
  const MainTrace := [
    Start, Trace[1], Trace[2], Trace[2].(objects := map[1 := Hosting.(quitOnClose := true)]),
    World(map[1 := Window(Flutter, true, None, None)], 1, true, Platform(true, map[], 1, 1, 1), [], [0], false)]

  /** Closing the main window ends the message loop. */
  lemma MainWindowQuits()
    ensures IsRun(MainTrace, MainSteps)
    ensures MainTrace[3].os.quits == 0 && MainTrace[4].os.quits == 1 && MainTrace[4].os.windows == map[]
  {
    MainWindowOpens();
    MainWindowCloses();
    ThreeMore(MainTrace, MainSteps, 1);
  }

  lemma MainWindowOpens()
    ensures forall i | 0 <= i < 3 ::
              Enabled(MainTrace[i], MainSteps[i]) && MainTrace[i + 1] == Next(MainTrace[i], MainSteps[i])
  {
    ScenarioOpens();
    ThreeMore(MainTrace, MainSteps, 0);
  }

  lemma MainWindowCloses()
    ensures Next(MainTrace[2], MainSteps[2]) == MainTrace[3]
    ensures Enabled(MainTrace[3], MainSteps[3]) && Next(MainTrace[3], MainSteps[3]) == MainTrace[4]
  {
  }
}
