/** What every algorithm module shares: a cancellation flag, raised when
    the host tears the module down and checked by every suspension of the
    module's animations, so that a torn-down module stops at its next
    suspension. Waiting itself (the delay and its speed scaling) is not
    modelled: a suspension either resumes or fails. */
module Lifecycle {
  import opened Common
  import opened Graphics

  class ModuleBase {
    var cancelToken: bool
    const gfx: GraphicsEngine

    /** A new module starts uncancelled and clears the scene registry. */
    constructor (engine: GraphicsEngine)
      requires engine.Valid()
      modifies engine, engine.hoveredObject
      ensures gfx == engine && !cancelToken
      ensures engine.Valid()
      ensures engine.objects == [] && engine.labels == [] && engine.arrows == []
      ensures engine.hoveredObject == null && engine.tooltip == None
    {
      cancelToken := false;
      gfx := engine;
      new;
      engine.Clear();
    }

    /** One suspension: it fails exactly when the module has been torn down
        at the moment it is reached, and resumes otherwise. */
    method Sleep() returns (resumed: bool)
      ensures resumed <==> !cancelToken
    {
      if cancelToken {
        return false;
      }
      return true;
    }

    /** Tears the module down; nothing lowers the flag again. */
    method Destroy()
      modifies this
      ensures cancelToken
    {
      cancelToken := true;
    }
  }

  /** The calls a module's flag can see, in the order they happen. */
  datatype BaseCall = SleepCall | DestroyCall

  /** The flag after a run of calls. */
  function TokenAfter(token: bool, calls: seq<BaseCall>): bool
    decreases |calls|
  {
    if calls == [] then token
    else TokenAfter(token || calls[0] == DestroyCall, calls[1..])
  }

  /** Whether each call of a run resumes: a suspension resumes while the
      flag is down; a teardown "resumes" too (it cannot fail). */
  function Outcomes(token: bool, calls: seq<BaseCall>): (r: seq<bool>)
    ensures |r| == |calls|
    decreases |calls|
  {
    if calls == [] then []
    else [calls[0] == DestroyCall || !token] + Outcomes(token || calls[0] == DestroyCall, calls[1..])
  }

  /** Once the flag is up it stays up, whatever calls follow. */
  lemma {:induction false} TokenNeverLowers(calls: seq<BaseCall>)
    ensures TokenAfter(true, calls)
  {
    if calls != [] {
      TokenNeverLowers(calls[1..]);
    }
  }

  /** After a teardown every later suspension fails, and a second teardown
      changes nothing. */
  lemma {:induction false} SleepsAfterDestroyFail(token: bool, calls: seq<BaseCall>, i: nat, j: nat)
    requires i < j < |calls|
    requires calls[i] == DestroyCall && calls[j] == SleepCall
    ensures !Outcomes(token, calls)[j]
    decreases i
  {
    var t := token || calls[0] == DestroyCall;
    assert Outcomes(token, calls)[j] == Outcomes(t, calls[1..])[j - 1];
    if i == 0 {
      AllSleepsFail(calls[1..], j - 1);
    } else {
      SleepsAfterDestroyFail(t, calls[1..], i - 1, j - 1);
    }
  }

  /** With the flag up, every suspension fails. */
  lemma {:induction false} AllSleepsFail(calls: seq<BaseCall>, j: nat)
    requires j < |calls| && calls[j] == SleepCall
    ensures !Outcomes(true, calls)[j]
  {
    if j > 0 {
      AllSleepsFail(calls[1..], j - 1);
    }
  }

  /** With the flag down and no teardown, every suspension resumes. */
  lemma {:induction false} SleepsBeforeDestroyResume(calls: seq<BaseCall>, j: nat)
    requires j < |calls|
    requires forall k :: 0 <= k < j ==> calls[k] == SleepCall
    ensures Outcomes(false, calls)[j]
  {
    if j > 0 {
      SleepsBeforeDestroyResume(calls[1..], j - 1);
    }
  }

  /** Tearing down twice leaves the flag as tearing down once. */
  lemma DestroyIdempotent(token: bool, calls: seq<BaseCall>)
    ensures TokenAfter(token, [DestroyCall, DestroyCall] + calls) == TokenAfter(token, [DestroyCall] + calls)
  {
    assert ([DestroyCall, DestroyCall] + calls)[1..] == [DestroyCall] + calls;
    assert ([DestroyCall] + calls)[1..] == calls;
    TokenNeverLowers(calls);
  }
}
