/** The HTTP stream handlers of the firmware: the MJPEG stream of camera
    frames and the debug stream, which runs an inference on each frame and
    streams the decoded frame re-encoded as JPEG. Both loop until a capture,
    conversion or send fails; the HTTP server, the JPEG encoder and the
    camera are collaborators whose per-iteration outcomes are inputs. */
module Webserver {
  import opened Common
  import opened LockProtocol
  import Multipart

  /** Pause after an iteration that held the lock, and after a failed
      attempt to take it. */
  const FrameDelayMs: nat := 10
  const RetryDelayMs: nat := 5

  // ---------------------------------------------------------------------
  // The serve loop shared by all handlers
  // ---------------------------------------------------------------------

  /** The calls of one loop iteration and the value of `res` after it. */
  datatype Iteration = Iteration(events: seq<Event>, res: Status)

  /** How a handler ended: it returned `status`, or it was still streaming
      when the modelled prefix of its endless loop ran out. */
  datatype Exit = Returned(status: Status) | Streaming

  datatype HandlerRun = HandlerRun(events: seq<Event>, exit: Exit)

  /** `while (true) { …; if (res != ESP_OK) break; }` over the outcomes
      `env` of successive iterations. */
  function ServeLoop<T>(env: seq<T>, iter: T -> Iteration): (r: HandlerRun)
    ensures r.exit != Returned(Ok)
    ensures r.exit == Streaming <==> forall i :: 0 <= i < |env| ==> iter(env[i]).res == Ok
    decreases |env|
  {
    if |env| == 0 then HandlerRun([], Streaming)
    else
      var it := iter(env[0]);
      if it.res != Ok then HandlerRun(it.events, Returned(it.res))
      else
        var rest := ServeLoop(env[1..], iter);
        assert forall i :: 1 <= i < |env| ==> env[i] == env[1..][i - 1];
        HandlerRun(it.events + rest.events, rest.exit)
  }

  /** Balanced iterations make a balanced loop. */
  lemma {:induction false} ServeLoopBalanced<T>(env: seq<T>, iter: T -> Iteration)
    requires forall x :: Balanced(iter(x).events)
    ensures Balanced(ServeLoop(env, iter).events)
    decreases |env|
  {
    if |env| == 0 {
      assert Run(Idle, []) == Some(Idle);
    } else if iter(env[0]).res == Ok {
      ServeLoopBalanced(env[1..], iter);
      BalancedAppend(iter(env[0]).events, ServeLoop(env[1..], iter).events);
    }
  }

  predicate EndsWith(s: seq<Event>, suffix: seq<Event>) {
    |suffix| <= |s| && s[|s| - |suffix|..] == suffix
  }

  /** When every failing iteration ends with `suffix`, a loop that returns
      ends with it too: the handler leaves only through a failing
      iteration's last call. */
  lemma {:induction false} ServeLoopEndsWith<T>(env: seq<T>, iter: T -> Iteration, suffix: seq<Event>)
    requires forall x :: iter(x).res != Ok ==> EndsWith(iter(x).events, suffix)
    ensures ServeLoop(env, iter).exit.Returned? ==> EndsWith(ServeLoop(env, iter).events, suffix)
    decreases |env|
  {
    if |env| > 0 && iter(env[0]).res == Ok {
      ServeLoopEndsWith(env[1..], iter, suffix);
      var a := iter(env[0]).events;
      var b := ServeLoop(env[1..], iter).events;
      if ServeLoop(env[1..], iter).exit.Returned? {
        assert (a + b)[|a + b| - |suffix|..] == b[|b| - |suffix|..];
      }
    }
  }

  // ---------------------------------------------------------------------
  // Sending one image
  // ---------------------------------------------------------------------

  /** The three chunks of one multipart part, in order. */
  function PartChunks(len: nat): seq<Chunk> {
    [PartHeader(len), PartBody(len), Delimiter]
  }

  /** The header, the image and the delimiter, each sent only if the
      previous send succeeded; `res` is the first failure, if any. */
  function SendPart(len: nat, headerOk: bool, bodyOk: bool, delimiterOk: bool): (r: Iteration)
    ensures 1 <= |r.events| <= 3
    ensures forall i :: 0 <= i < |r.events| ==> r.events[i].Send? && r.events[i].chunk == PartChunks(len)[i]
    ensures forall i :: 0 <= i < |r.events| - 1 ==> r.events[i].ok
    ensures r.res == Ok <==> |r.events| == 3 && r.events[2].ok
    ensures r.res == Ok || !r.events[|r.events| - 1].ok
  {
    if !headerOk then Iteration([Send(PartHeader(len), false)], Fail)
    else if !bodyOk then Iteration([Send(PartHeader(len), true), Send(PartBody(len), false)], Fail)
    else Iteration([Send(PartHeader(len), true), Send(PartBody(len), true), Send(Delimiter, delimiterOk)],
                   if delimiterOk then Ok else Fail)
  }

  /** The bytes a chunk carries on the wire, for a part whose image is
      `image`. */
  function ChunkText(c: Chunk, image: string): string {
    match c
    case PartHeader(len) => Multipart.PartHeader(len)
    case PartBody(_) => image
    case Delimiter => Multipart.StreamBoundary
    case RawImage(_) => image
  }

  /** The bytes delivered by a sequence of sends. */
  function Delivered(t: seq<Event>, image: string): string
    decreases |t|
  {
    if |t| == 0 then []
    else (if t[0].Send? && t[0].ok then ChunkText(t[0].chunk, image) else []) + Delivered(t[1..], image)
  }

  /** A part whose three sends succeed delivers exactly one multipart part
      of the stream format, which a client splits back into the image. */
  lemma DeliveredPart(image: string)
    ensures Delivered(SendPart(|image|, true, true, true).events, image) == Multipart.Part(image)
  {
    FullPartSends(|image|);
    DeliveredFullPart(image, SendPart(|image|, true, true, true).events);
  }

  lemma FullPartSends(n: nat)
    ensures SendPart(n, true, true, true).events == [Send(PartHeader(n), true), Send(PartBody(n), true), Send(Delimiter, true)]
  {
  }

  lemma DeliveredFullPart(image: string, t: seq<Event>)
    requires t == [Send(PartHeader(|image|), true), Send(PartBody(|image|), true), Send(Delimiter, true)]
    ensures Delivered(t, image) == Multipart.Part(image)
  {
    DeliveredThree(PartHeader(|image|), PartBody(|image|), Delimiter, image);
    assert ChunkText(PartHeader(|image|), image) + image + ChunkText(Delimiter, image) == Multipart.Part(image);
  }

  lemma DeliveredThree(c0: Chunk, c1: Chunk, c2: Chunk, image: string)
    ensures Delivered([Send(c0, true), Send(c1, true), Send(c2, true)], image) ==
      ChunkText(c0, image) + ChunkText(c1, image) + ChunkText(c2, image)
  {
    var e0, e1, e2 := Send(c0, true), Send(c1, true), Send(c2, true);
    var x0, x1, x2 := ChunkText(c0, image), ChunkText(c1, image), ChunkText(c2, image);
    DeliveredCons(e2, [], image);
    assert [e1, e2] == [e1] + [e2];
    DeliveredCons(e1, [e2], image);
    assert [e0, e1, e2] == [e0] + [e1, e2];
    DeliveredCons(e0, [e1, e2], image);
    assert Delivered([e0, e1, e2], image) == x0 + (x1 + (x2 + []));
    assert x0 + (x1 + (x2 + [])) == x0 + x1 + x2;
  }

  lemma DeliveredCons(e: Event, t: seq<Event>, image: string)
    ensures Delivered([e] + t, image) ==
      (if e.Send? && e.ok then ChunkText(e.chunk, image) else []) + Delivered(t, image)
  {
    assert ([e] + t)[0] == e && ([e] + t)[1..] == t;
  }

  lemma SendsAreNeutral(len: nat, headerOk: bool, bodyOk: bool, delimiterOk: bool)
    ensures forall i :: 0 <= i < |SendPart(len, headerOk, bodyOk, delimiterOk).events| ==>
      Neutral(SendPart(len, headerOk, bodyOk, delimiterOk).events[i])
  {
  }

  // ---------------------------------------------------------------------
  // stream_handler
  // ---------------------------------------------------------------------

  /** Outcomes of one iteration of the stream loop: whether the lock was
      obtained, the length of the captured frame (`None` when capture
      failed), and the outcome of each send. */
  datatype StreamOutcome = StreamOutcome(taken: bool, frame: Option<nat>,
                                         headerOk: bool, bodyOk: bool, delimiterOk: bool)

  /** One iteration of the stream loop. A missing frame ends the stream
      with a failure after the lock is given back; a frame is returned
      whether or not its sends succeeded. */
  function StreamIteration(o: StreamOutcome): (r: Iteration)
    ensures r.res == Ok <==> !o.taken || (o.frame.Some? && o.headerOk && o.bodyOk && o.delimiterOk)
  {
    if !o.taken then Iteration([TakeTimeout, Delay(RetryDelayMs)], Ok)
    else match o.frame
      case None => Iteration([Take, FrameMissing, LogError, Give, Delay(FrameDelayMs)], Fail)
      case Some(len) =>
        var p := SendPart(len, o.headerOk, o.bodyOk, o.delimiterOk);
        Iteration([Take, FrameGet] + p.events + [FrameReturn, Give, Delay(FrameDelayMs)], p.res)
  }

  /** `stream_handler`: a failure to set the content type is returned
      before the loop, so the lock is never taken. The handler never returns
      success; it returns failure exactly when setting the content type
      failed or some iteration with the lock missed the frame or a send. */
  function StreamHandler(setTypeOk: bool, env: seq<StreamOutcome>): (r: HandlerRun)
    ensures !setTypeOk ==> r.events == [] && r.exit == Returned(Fail)
    ensures r.exit != Returned(Ok)
    ensures r.exit == Streaming <==>
      setTypeOk && forall i :: 0 <= i < |env| ==>
        !env[i].taken || (env[i].frame.Some? && env[i].headerOk && env[i].bodyOk && env[i].delimiterOk)
  {
    if !setTypeOk then HandlerRun([], Returned(Fail)) else ServeLoop(env, StreamIteration)
  }

  /** The lock-protocol state after taking the lock and obtaining a frame. */
  const FrameHeld: Guard := Guard(true, true, false)

  lemma FrameTail()
    ensures Run(FrameHeld, [FrameReturn, Give, Delay(FrameDelayMs)]) == Some(Idle)
  {
    assert Run(FrameHeld, [FrameReturn, Give, Delay(10)]) == Some(Idle);
  }

  /** Each iteration of the stream loop gives back whatever it obtained. */
  lemma StreamIterationBalanced(o: StreamOutcome)
    ensures Balanced(StreamIteration(o).events)
  {
    if !o.taken {
      assert Balanced([TakeTimeout, Delay(5)]);
    } else if o.frame.None? {
      assert Balanced([Take, FrameMissing, LogError, Give, Delay(10)]);
    } else {
      var p := SendPart(o.frame.value, o.headerOk, o.bodyOk, o.delimiterOk);
      var tail := [FrameReturn, Give, Delay(FrameDelayMs)];
      assert StreamIteration(o).events == [Take, FrameGet] + (p.events + tail);
      RunAppend(Idle, [Take, FrameGet], p.events + tail);
      assert Run(Idle, [Take, FrameGet]) == Some(FrameHeld);
      SendsAreNeutral(o.frame.value, o.headerOk, o.bodyOk, o.delimiterOk);
      RunSkipsNeutral(FrameHeld, p.events, tail);
      FrameTail();
    }
  }

  /** Whatever the camera, the lock and the client do, the stream handler
      gives back every frame it obtains and releases the lock after every
      successful take. */
  lemma StreamHandlerBalanced(setTypeOk: bool, env: seq<StreamOutcome>)
    ensures Balanced(StreamHandler(setTypeOk, env).events)
    ensures Count(StreamHandler(setTypeOk, env).events, Take) == Count(StreamHandler(setTypeOk, env).events, Give)
    ensures Count(StreamHandler(setTypeOk, env).events, FrameGet) == Count(StreamHandler(setTypeOk, env).events, FrameReturn)
  {
    if setTypeOk {
      forall o: StreamOutcome
        ensures Balanced(StreamIteration(o).events)
      {
        StreamIterationBalanced(o);
      }
      ServeLoopBalanced(env, StreamIteration);
    } else {
      assert Run(Idle, []) == Some(Idle);
    }
    BalancedCounts(StreamHandler(setTypeOk, env).events);
  }

  /** When the stream loop exits it has already returned the frame,
      released the lock and paused. */
  lemma StreamHandlerExit(setTypeOk: bool, env: seq<StreamOutcome>)
    ensures setTypeOk && StreamHandler(setTypeOk, env).exit.Returned? ==>
      EndsWith(StreamHandler(setTypeOk, env).events, [Give, Delay(FrameDelayMs)])
  {
    forall o: StreamOutcome | StreamIteration(o).res != Ok
      ensures EndsWith(StreamIteration(o).events, [Give, Delay(FrameDelayMs)])
    {
      var t := StreamIteration(o).events;
      assert t[|t| - 2..] == [Give, Delay(FrameDelayMs)];
    }
    ServeLoopEndsWith(env, StreamIteration, [Give, Delay(FrameDelayMs)]);
  }

  // ---------------------------------------------------------------------
  // debug_stream_handler
  // ---------------------------------------------------------------------

  /** Outcomes of one iteration of the debug loop: the lock, the capture,
      the JPEG conversion (`Some(len)` when it produced `len` bytes) and the
      three sends. */
  datatype DebugOutcome = DebugOutcome(taken: bool, captured: bool, jpeg: Option<nat>,
                                       headerOk: bool, bodyOk: bool, delimiterOk: bool)

  /** What happens to a captured frame after the inference: nothing when
      the full-frame RGB buffer is missing, a logged failure when conversion
      fails, otherwise the JPEG is sent and its buffer freed whatever the
      sends did. */
  function DebugPayload(fullBuffer: bool, o: DebugOutcome): (r: Iteration)
    ensures r.res == Ok <==> fullBuffer && o.jpeg.Some? && o.headerOk && o.bodyOk && o.delimiterOk
    ensures (!fullBuffer || o.jpeg.None?) ==> forall i :: 0 <= i < |r.events| ==> !r.events[i].Send?
  {
    if !fullBuffer then Iteration([LogError], Fail)
    else match o.jpeg
      case None => Iteration([JpegFailed, LogError], Fail)
      case Some(n) =>
        var p := SendPart(n, o.headerOk, o.bodyOk, o.delimiterOk);
        Iteration([JpegEncoded(n)] + p.events + [JpegFree], p.res)
  }

  /** One iteration of the debug loop: it succeeds exactly when the lock
      timed out, or when it got a frame, the full-frame buffer, a JPEG and
      three good sends; with the lock it releases it just before pausing
      10 ms, without it it pauses 5 ms. */
  function DebugIteration(fullBuffer: bool, o: DebugOutcome): (r: Iteration)
    ensures r.res == Ok <==>
      !o.taken || (o.captured && fullBuffer && o.jpeg.Some? && o.headerOk && o.bodyOk && o.delimiterOk)
    ensures |r.events| >= 2 && r.events[0] == (if o.taken then Take else TakeTimeout)
    ensures r.events[|r.events| - 1] == Delay(if o.taken then FrameDelayMs else RetryDelayMs)
    ensures o.taken ==> r.events[|r.events| - 2] == Give
  {
    if !o.taken then Iteration([TakeTimeout, Delay(RetryDelayMs)], Ok)
    else if !o.captured then Iteration([Take, FrameMissing, LogError, Give, Delay(FrameDelayMs)], Fail)
    else
      var p := DebugPayload(fullBuffer, o);
      Iteration([Take, FrameGet, Detect] + p.events + [FrameReturn, Give, Delay(FrameDelayMs)], p.res)
  }

  /** `debug_stream_handler`; `fullBuffer` says whether the full-frame RGB
      buffer of the detector exists. It never returns success; it stops
      exactly when setting the content type failed or an iteration with the
      lock missed the frame, the full-frame buffer, the conversion or a
      send. */
  function DebugStreamHandler(setTypeOk: bool, fullBuffer: bool, env: seq<DebugOutcome>): (r: HandlerRun)
    ensures !setTypeOk ==> r.events == [] && r.exit == Returned(Fail)
    ensures r.exit != Returned(Ok)
    ensures r.exit == Streaming <==>
      setTypeOk && forall i :: 0 <= i < |env| ==>
        !env[i].taken || (env[i].captured && fullBuffer && env[i].jpeg.Some? &&
                          env[i].headerOk && env[i].bodyOk && env[i].delimiterOk)
  {
    if !setTypeOk then HandlerRun([], Returned(Fail))
    else ServeLoop(env, (o: DebugOutcome) => DebugIteration(fullBuffer, o))
  }

  /** The payload runs with the lock and the frame held and leaves them so,
      with the JPEG buffer freed. */
  lemma DebugPayloadRestores(fullBuffer: bool, o: DebugOutcome)
    ensures Run(FrameHeld, DebugPayload(fullBuffer, o).events) == Some(FrameHeld)
  {
    var p := DebugPayload(fullBuffer, o).events;
    if !fullBuffer {
      assert Run(FrameHeld, [LogError]) == Some(FrameHeld);
    } else if o.jpeg.None? {
      assert Run(FrameHeld, [JpegFailed, LogError]) == Some(FrameHeld);
    } else {
      var n := o.jpeg.value;
      var s := SendPart(n, o.headerOk, o.bodyOk, o.delimiterOk).events;
      var encoding := Guard(true, true, true);
      assert p == [JpegEncoded(n)] + s + [JpegFree];
      RunAppend(FrameHeld, [JpegEncoded(n)] + s, [JpegFree]);
      RunAppend(FrameHeld, [JpegEncoded(n)], s);
      assert Run(FrameHeld, [JpegEncoded(n)]) == Some(encoding);
      SendsAreNeutral(n, o.headerOk, o.bodyOk, o.delimiterOk);
      RunSkipsNeutral(encoding, s, []);
      assert s + [] == s;
      assert Run(encoding, [JpegFree]) == Some(FrameHeld);
    }
  }

  /** The payload framed by the lock, the frame and the pause. */
  lemma FramedPayloadBalanced(fullBuffer: bool, o: DebugOutcome)
    ensures Balanced([Take, FrameGet, Detect] + DebugPayload(fullBuffer, o).events + [FrameReturn, Give, Delay(FrameDelayMs)])
  {
    var p := DebugPayload(fullBuffer, o).events;
    var tail := [FrameReturn, Give, Delay(FrameDelayMs)];
    assert [Take, FrameGet, Detect] + p + tail == [Take, FrameGet, Detect] + (p + tail);
    RunAppend(Idle, [Take, FrameGet, Detect], p + tail);
    assert Run(Idle, [Take, FrameGet, Detect]) == Some(FrameHeld);
    RunAppend(FrameHeld, p, tail);
    DebugPayloadRestores(fullBuffer, o);
    FrameTail();
  }

  lemma DebugIterationBalanced(fullBuffer: bool, o: DebugOutcome)
    ensures Balanced(DebugIteration(fullBuffer, o).events)
  {
    if !o.taken {
      assert Balanced([TakeTimeout, Delay(5)]);
    } else if !o.captured {
      assert Balanced([Take, FrameMissing, LogError, Give, Delay(10)]);
    } else {
      FramedPayloadBalanced(fullBuffer, o);
    }
  }

  /** The debug handler gives back every frame and the lock, and frees every
      JPEG buffer it obtains exactly once. */
  lemma DebugStreamHandlerBalanced(setTypeOk: bool, fullBuffer: bool, env: seq<DebugOutcome>)
    ensures Balanced(DebugStreamHandler(setTypeOk, fullBuffer, env).events)
    ensures var t := DebugStreamHandler(setTypeOk, fullBuffer, env).events;
      Count(t, Take) == Count(t, Give) && Count(t, FrameGet) == Count(t, FrameReturn) &&
      JpegAllocs(t) == Count(t, JpegFree)
  {
    var iter := (o: DebugOutcome) => DebugIteration(fullBuffer, o);
    if setTypeOk {
      forall o: DebugOutcome
        ensures Balanced(iter(o).events)
      {
        DebugIterationBalanced(fullBuffer, o);
      }
      ServeLoopBalanced(env, iter);
    } else {
      assert Run(Idle, []) == Some(Idle);
    }
    BalancedCounts(DebugStreamHandler(setTypeOk, fullBuffer, env).events);
  }

  /** Every chunk the debug handler sends in an iteration announces and
      carries the JPEG produced in that iteration. */
  lemma DebugSendsCarryJpeg(fullBuffer: bool, o: DebugOutcome)
    ensures var t := DebugIteration(fullBuffer, o).events;
      forall i :: 0 <= i < |t| && t[i].Send? ==>
        o.jpeg.Some? && t[i].chunk in PartChunks(o.jpeg.value)
  {
    var t := DebugIteration(fullBuffer, o).events;
    if o.taken && o.captured {
      var p := DebugPayload(fullBuffer, o).events;
      assert t == [Take, FrameGet, Detect] + p + [FrameReturn, Give, Delay(FrameDelayMs)];
      if fullBuffer && o.jpeg.Some? {
        var s := SendPart(o.jpeg.value, o.headerOk, o.bodyOk, o.delimiterOk).events;
        assert p == [JpegEncoded(o.jpeg.value)] + s + [JpegFree];
        forall i | 0 <= i < |t| && t[i].Send?
          ensures t[i].chunk in PartChunks(o.jpeg.value)
        {
          assert 4 <= i < 4 + |s| && t[i] == s[i - 4];
        }
      }
    }
  }
}
