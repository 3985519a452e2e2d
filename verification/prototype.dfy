/** The prototype stream handler of `src/main.c`: under the camera lock it
    fetches a frame, sends its bytes as one unframed chunk, and then returns
    the frame buffer to the driver whether or not a frame was obtained. */
module Prototype {
  import opened Common
  import opened LockProtocol
  import opened Webserver

  /** The outcome of one iteration: whether the lock was obtained, the
      length of the frame if the camera delivered one, and whether the send
      succeeded. */
  datatype ProtoOutcome = ProtoOutcome(taken: bool, frame: Option<nat>, sendOk: bool)

  predicate CaptureFailed(o: ProtoOutcome) {
    o.taken && o.frame.None?
  }

  /** One iteration of the prototype loop as written: a capture failure
      still calls `esp_camera_fb_return` with the null frame pointer, and no
      pause follows a completed iteration. A missed lock leaves `res` as it
      was, which the loop only reaches while it is `ESP_OK`. */
  function ProtoIteration(o: ProtoOutcome): (r: Iteration)
    ensures r.res == Ok <==> !o.taken || (o.frame.Some? && o.sendOk)
    ensures FrameReturnNull in r.events <==> CaptureFailed(o)
    ensures forall i :: 0 <= i < |r.events| && r.events[i].Send? ==> r.events[i].chunk.RawImage?
  {
    if !o.taken then Iteration([TakeTimeout, Delay(RetryDelayMs)], Ok)
    else match o.frame
      case None => Iteration([Take, FrameMissing, LogError, FrameReturnNull, Give], Fail)
      case Some(len) =>
        Iteration([Take, FrameGet, Send(RawImage(len), o.sendOk), FrameReturn, Give], if o.sendOk then Ok else Fail)
  }

  /** The prototype handler. The result of setting the content type is not
      checked, so the loop starts unconditionally. */
  function ProtoStreamHandler(env: seq<ProtoOutcome>): (r: HandlerRun)
    ensures r.exit != Returned(Ok)
    ensures r.exit == Streaming <==> forall i :: 0 <= i < |env| ==> !env[i].taken || (env[i].frame.Some? && env[i].sendOk)
  {
    ServeLoop(env, ProtoIteration)
  }

  /** The iteration after a successful take that hands over the frame
      unchanged: the part of the loop that is correct as written. */
  lemma ProtoIterationBalanced(o: ProtoOutcome)
    requires !CaptureFailed(o)
    ensures Balanced(ProtoIteration(o).events)
  {
    if !o.taken {
      assert Balanced([TakeTimeout, Delay(5)]);
    } else {
      var len := o.frame.value;
      var send := [Send(RawImage(len), o.sendOk)];
      var tail := [FrameReturn, Give];
      assert ProtoIteration(o).events == [Take, FrameGet] + (send + tail);
      RunAppend(Idle, [Take, FrameGet], send + tail);
      assert Run(Idle, [Take, FrameGet]) == Some(FrameHeld);
      RunSkipsNeutral(FrameHeld, send, tail);
      assert Run(FrameHeld, tail) == Some(Idle);
    }
  }

  /** As written, a capture failure breaks the protocol: the iteration
      hands a frame back to the driver that it never obtained. */
  lemma ProtoCaptureFailureUnbalanced(o: ProtoOutcome)
    requires CaptureFailed(o)
    ensures Run(Idle, ProtoIteration(o).events) == None
    ensures !Balanced(ProtoIteration(o).events)
  {
    assert ProtoIteration(o).events == [Take, FrameMissing, LogError, FrameReturnNull, Give];
    assert Run(Idle, [Take, FrameMissing, LogError, FrameReturnNull, Give]) == None;
  }

  /** The handler's trace follows the protocol exactly when it contains no
      return of a null frame, that is, when no iteration it ran was a
      capture failure. */
  lemma {:induction false} ProtoHandlerBalanced(env: seq<ProtoOutcome>)
    ensures Balanced(ProtoStreamHandler(env).events) <==> FrameReturnNull !in ProtoStreamHandler(env).events
    decreases |env|
  {
    var events := ProtoStreamHandler(env).events;
    if Balanced(events) {
      BalancedNoNullReturn(events);
    }
    if |env| == 0 {
      assert Run(Idle, []) == Some(Idle);
    } else if FrameReturnNull !in events {
      var it := ProtoIteration(env[0]);
      if it.res != Ok {
        ProtoIterationBalanced(env[0]);
      } else {
        var rest := ServeLoop(env[1..], ProtoIteration);
        assert events == it.events + rest.events;
        assert FrameReturnNull !in rest.events;
        ProtoHandlerBalanced(env[1..]);
        ProtoIterationBalanced(env[0]);
        BalancedAppend(it.events, rest.events);
      }
    }
  }

  /** Every iteration calls `esp_camera_fb_return` once per take, with
      the frame or with the null pointer. */
  lemma ProtoIterationReturns(o: ProtoOutcome)
    ensures Count(ProtoIteration(o).events, FrameReturn) + Count(ProtoIteration(o).events, FrameReturnNull)
      == Count(ProtoIteration(o).events, Take)
  {
    if o.taken && o.frame.Some? {
      var e := Send(RawImage(o.frame.value), o.sendOk);
      assert ProtoIteration(o).events == [Take, FrameGet, e, FrameReturn, Give];
      SentFrameCounts(e);
    }
  }

  /** The calls of an iteration that sends the frame: one take, one
      return with the frame and none without. */
  lemma SentFrameCounts(e: Event)
    requires e.Send?
    ensures var t := [Take, FrameGet, e, FrameReturn, Give];
      Count(t, FrameReturn) == 1 && Count(t, FrameReturnNull) == 0 && Count(t, Take) == 1
  {
    var tail := [FrameReturn, Give];
    assert [Take, FrameGet, e, FrameReturn, Give] == [Take, FrameGet] + ([e] + tail);
    CountAppend([Take, FrameGet], [e] + tail, FrameReturn);
    CountAppend([Take, FrameGet], [e] + tail, FrameReturnNull);
    CountAppend([Take, FrameGet], [e] + tail, Take);
    CountCons(e, tail, FrameReturn);
    CountCons(e, tail, FrameReturnNull);
    CountCons(e, tail, Take);
  }

  /** Over the whole handler, the number of returns to the driver, with or
      without a frame, equals the number of takes: the buffer is handed
      back after every take, including those where the camera delivered
      nothing. */
  lemma {:induction false} ProtoHandlerReturns(env: seq<ProtoOutcome>)
    ensures Count(ProtoStreamHandler(env).events, FrameReturn) + Count(ProtoStreamHandler(env).events, FrameReturnNull)
      == Count(ProtoStreamHandler(env).events, Take)
    decreases |env|
  {
    if |env| > 0 {
      var it := ProtoIteration(env[0]);
      ProtoIterationReturns(env[0]);
      if it.res == Ok {
        var rest := ServeLoop(env[1..], ProtoIteration);
        ProtoHandlerReturns(env[1..]);
        CountAppend(it.events, rest.events, FrameReturn);
        CountAppend(it.events, rest.events, FrameReturnNull);
        CountAppend(it.events, rest.events, Take);
      }
    }
  }

  /** A concrete run that shows the defect: the camera delivers nothing on
      the first take, and the handler returns a null frame to the driver. */
  lemma ProtoNullReturnExample()
    ensures ProtoStreamHandler([ProtoOutcome(true, None, true)]).events
      == [Take, FrameMissing, LogError, FrameReturnNull, Give]
    ensures !Balanced(ProtoStreamHandler([ProtoOutcome(true, None, true)]).events)
  {
    var o := ProtoOutcome(true, None, true);
    assert ProtoIteration(o).res == Fail;
    ProtoCaptureFailureUnbalanced(o);
  }

  // ---------------------------------------------------------------------
  // The evidently intended iteration
  // ---------------------------------------------------------------------

  /** The iteration with the frame returned only when one was obtained, as
      the firmware's stream handler does. */
  function GuardedIteration(o: ProtoOutcome): (r: Iteration)
    ensures r.res == ProtoIteration(o).res
    ensures FrameReturnNull !in r.events
  {
    if !o.taken then Iteration([TakeTimeout, Delay(RetryDelayMs)], Ok)
    else match o.frame
      case None => Iteration([Take, FrameMissing, LogError, Give], Fail)
      case Some(len) =>
        Iteration([Take, FrameGet, Send(RawImage(len), o.sendOk), FrameReturn, Give], if o.sendOk then Ok else Fail)
  }

  function GuardedStreamHandler(env: seq<ProtoOutcome>): (r: HandlerRun)
    ensures r.exit == ProtoStreamHandler(env).exit
  {
    ServeLoop(env, GuardedIteration)
  }

  /** The guarded iteration agrees with the prototype except on a capture
      failure. */
  lemma GuardedAgrees(o: ProtoOutcome)
    ensures !CaptureFailed(o) <==> GuardedIteration(o) == ProtoIteration(o)
  {
  }

  /** With the guard, every run of the handler follows the lock protocol:
      every take is matched by a give and every frame obtained is returned
      once. */
  lemma GuardedHandlerBalanced(env: seq<ProtoOutcome>)
    ensures Balanced(GuardedStreamHandler(env).events)
    ensures Count(GuardedStreamHandler(env).events, Take) == Count(GuardedStreamHandler(env).events, Give)
    ensures Count(GuardedStreamHandler(env).events, FrameGet) == Count(GuardedStreamHandler(env).events, FrameReturn)
  {
    forall o: ProtoOutcome
      ensures Balanced(GuardedIteration(o).events)
    {
      if CaptureFailed(o) {
        assert Balanced([Take, FrameMissing, LogError, Give]);
      } else {
        ProtoIterationBalanced(o);
      }
    }
    ServeLoopBalanced(env, GuardedIteration);
    BalancedCounts(GuardedStreamHandler(env).events);
  }
}
