// Reference counting of mapped files: hold, one-shot release, shutdown.

module References {
  // cleaned counts how often release unmapped the memory; forced is set once a shutdown lost
  // patience with the holders.
  datatype Ref = Ref(refCount: int, available: bool, cleanupOver: bool, firstShutdown: int, cleaned: nat, forced: bool)

  const NEW_REF: Ref := Ref(1, true, false, 0, 0, false)

  function IsCleanupOver(r: Ref): bool { r.refCount <= 0 && r.cleanupOver }

  datatype Held = Held(ref: Ref, ok: bool)

  function HoldRef(r: Ref): Held {
    if r.available && r.refCount + 1 > 0 then Held(r.(refCount := r.refCount + 1), true) else Held(r, false)
  }

  // release and the cleanup it may run.
  function ReleaseRef(r: Ref): Ref {
    var s := r.(refCount := r.refCount - 1);
    if s.refCount > 0 then s
    else if s.available then s.(cleanupOver := false)
    else if IsCleanupOver(s) then s.(cleanupOver := true)
    else s.(cleanupOver := true, cleaned := s.cleaned + 1)
  }

  function ShutdownRef(r: Ref, now: int, intervalForcibly: int): Ref {
    if r.available then ReleaseRef(r.(available := false, firstShutdown := now))
    else if r.refCount > 0 && now - r.firstShutdown >= intervalForcibly then
      ReleaseRef(r.(refCount := -1000 - r.refCount, forced := true))
    else r
  }

  // ---------------------------------------------------------------- runs

  // handles[i] is true while select result i has not been released.
  datatype State = State(ref: Ref, handles: seq<bool>)

  datatype Step = Select | Release(i: nat) | Shutdown(now: int, intervalForcibly: int)

  function Next(s: State, step: Step): State {
    match step
    case Select => var h := HoldRef(s.ref); if h.ok then State(h.ref, s.handles + [true]) else s
    case Release(i) =>
      if i < |s.handles| && s.handles[i] then State(ReleaseRef(s.ref), s.handles[i := false]) else s
    case Shutdown(now, intervalForcibly) => s.(ref := ShutdownRef(s.ref, now, intervalForcibly))
  }

  function Run(steps: seq<Step>): State {
    if steps == [] then State(NEW_REF, []) else Next(Run(steps[..|steps| - 1]), steps[|steps| - 1])
  }

  function Outstanding(handles: seq<bool>): nat {
    if handles == [] then 0 else Outstanding(handles[..|handles| - 1]) + (if handles[|handles| - 1] then 1 else 0)
  }

  lemma {:induction false} ReleaseOne(handles: seq<bool>, i: nat)
    requires i < |handles| && handles[i]
    ensures Outstanding(handles[i := false]) == Outstanding(handles) - 1
  {
    var n := |handles| - 1;
    if i < n {
      ReleaseOne(handles[..n], i);
      assert handles[i := false][..n] == handles[..n][i := false];
    } else {
      assert handles[i := false][..n] == handles[..n];
    }
  }

  lemma {:induction false} SelectOne(handles: seq<bool>)
    ensures Outstanding(handles + [true]) == Outstanding(handles) + 1
  {
    assert (handles + [true])[..|handles|] == handles;
  }

  ghost predicate Inv(s: State) {
    var r, n := s.ref, Outstanding(s.handles);
    if r.available then r.refCount == n + 1 && !r.cleanupOver && r.cleaned == 0 && !r.forced
    else if r.forced then r.refCount < 0 && r.cleanupOver && r.cleaned == 1
    else r.refCount == n && r.cleanupOver == (n == 0) && r.cleaned == (if n == 0 then 1 else 0)
  }

  // In every state: one reference per outstanding hold, plus one while the file is available;
  // the memory is unmapped at most once, and never under a holder unless a shutdown was
  // forced.
  lemma {:induction false} CountsHolds(steps: seq<Step>)
    ensures var s := Run(steps);
            && Inv(s) && s.ref.cleaned <= 1
            && (s.ref.available ==> s.ref.refCount == Outstanding(s.handles) + 1)
            && (s.ref.cleaned == 1 && Outstanding(s.handles) > 0 ==> s.ref.forced)
            && (!s.ref.available && Outstanding(s.handles) == 0 ==> s.ref.cleaned == 1)
  {
    if steps != [] {
      CountsHolds(steps[..|steps| - 1]);
      var s := Run(steps[..|steps| - 1]);
      match steps[|steps| - 1]
      case Select => SelectOne(s.handles);
      case Release(i) => if i < |s.handles| && s.handles[i] { ReleaseOne(s.handles, i); }
      case Shutdown(_, _) =>
    }
  }

  // The number of the first shutdown, or of steps if there is none.
  function FirstShutdown(steps: seq<Step>): (f: nat)
    ensures f <= |steps| && (f < |steps| ==> steps[f].Shutdown?) && forall i :: 0 <= i < f ==> !steps[i].Shutdown?
  {
    if steps == [] then 0
    else
      var n := |steps| - 1;
      var f := FirstShutdown(steps[..n]);
      if f < n || steps[n].Shutdown? then f else n + 1
  }

  // A later shutdown that comes once the interval since the first is over, while someone holds.
  ghost predicate Forces(steps: seq<Step>, f: nat, j: nat) {
    && f < j < |steps| && steps[f].Shutdown? && steps[j].Shutdown?
    && steps[j].now - steps[f].now >= steps[j].intervalForcibly && Outstanding(Run(steps[..j]).handles) > 0
  }

  // A file can be held exactly until the first shutdown, whose time it remembers; a shutdown is
  // forced exactly if it comes later, when the interval is over and someone still holds the file.
  lemma {:induction false} ShutdownExact(steps: seq<Step>)
    ensures var f, r := FirstShutdown(steps), Run(steps).ref;
            && (r.available <==> f == |steps|) && (HoldRef(r).ok <==> f == |steps|)
            && (f < |steps| ==> r.firstShutdown == steps[f].now)
            && (r.forced <==> exists j :: Forces(steps, f, j))
  {
    CountsHolds(steps);
    if steps != [] {
      var n := |steps| - 1;
      var front := steps[..n];
      ShutdownExact(front);
      CountsHolds(front);
      LastForces(steps);
      ForcesSnoc(steps, FirstShutdown(front));
      hide Outstanding, Forces, Inv;
    }
  }

  lemma {:induction false} ForcesSnoc(steps: seq<Step>, f: nat)
    requires steps != []
    ensures var n := |steps| - 1; (exists j :: Forces(steps, f, j)) <==> (exists j :: Forces(steps[..n], f, j)) || Forces(steps, f, n)
  {
    var n := |steps| - 1;
    hide Run, Outstanding;
    forall j | 0 <= j < n ensures f < n ==> (Forces(steps[..n], f, j) <==> Forces(steps, f, j)) {
      assert steps[..n][..j] == steps[..j];
    }
  }

  // Only a shutdown can force, and it does exactly under that condition.
  lemma {:induction false} LastForces(steps: seq<Step>)
    requires steps != [] && Inv(Run(steps[..|steps| - 1]))
    requires var f, r := FirstShutdown(steps[..|steps| - 1]), Run(steps[..|steps| - 1]).ref;
             (r.available <==> f == |steps| - 1) && (f < |steps| - 1 ==> r.firstShutdown == steps[f].now)
    ensures Run(steps).ref.forced
       <==> Run(steps[..|steps| - 1]).ref.forced || Forces(steps, FirstShutdown(steps[..|steps| - 1]), |steps| - 1)
  {
  }

  // ---------------------------------------------------------------- in place

  class ReferenceResource {
    var refCount: int
    var available: bool
    var cleanupOver: bool
    var firstShutdownTimestamp: int
    ghost var cleaned: nat
    ghost var forced: bool

    ghost function View(): Ref
      reads this
    {
      Ref(refCount, available, cleanupOver, firstShutdownTimestamp, cleaned, forced)
    }

    constructor ()
      ensures View() == NEW_REF
    {
      refCount, available, cleanupOver, firstShutdownTimestamp := 1, true, false, 0;
      cleaned, forced := 0, false;
    }

    method Hold() returns (ok: bool)
      modifies this
      ensures Held(View(), ok) == HoldRef(old(View()))
    {
      if available {
        refCount := refCount + 1;
        if refCount > 0 {
          return true;
        }
        refCount := refCount - 1;
      }
      return false;
    }

    method Cleanup() returns (over: bool)
      modifies this`cleaned
      ensures over == !available && cleaned == old(cleaned) + if !available && !(refCount <= 0 && cleanupOver) then 1 else 0
    {
      if available {
        return false;
      }
      if refCount <= 0 && cleanupOver {
        return true;
      }
      cleaned := cleaned + 1;
      return true;
    }

    method Release()
      modifies this
      ensures View() == ReleaseRef(old(View()))
    {
      refCount := refCount - 1;
      if refCount > 0 {
        return;
      }
      cleanupOver := Cleanup();
    }

    method Shutdown(now: int, intervalForcibly: int)
      modifies this
      ensures View() == ShutdownRef(old(View()), now, intervalForcibly)
    {
      if available {
        available := false;
        firstShutdownTimestamp := now;
        Release();
      } else if refCount > 0 {
        if now - firstShutdownTimestamp >= intervalForcibly {
          refCount := -1000 - refCount;
          forced := true;
          Release();
        }
      }
    }
  }

  // The result of a select: its release reaches the file once.
  class SelectMapedBufferResult {
    var file: ReferenceResource?

    constructor (file: ReferenceResource)
      ensures this.file == file
    {
      this.file := file;
    }

    method Release()
      modifies this, file
      ensures file == null
      ensures old(file) != null ==> old(file).View() == ReleaseRef(old(file.View()))
    {
      if file != null {
        file.Release();
        file := null;
      }
    }
  }
}
