/** The camera-lock protocol shared by the detection task and the stream
    handlers, as a trace of collaborator calls checked by a small automaton.

    Each loop iteration of a task is modelled sequentially: the scheduler,
    the tick timeouts and the interleaving of the two tasks are left out, and
    the outcome of every call into FreeRTOS, the camera driver, the JPEG
    encoder or the HTTP server is an input of the model. */
module LockProtocol {
  import opened Common

  /** A chunk of the multipart stream: the per-part header announcing
      `len` bytes, the `len` bytes of image data, the boundary delimiter, or
      (prototype handler only) a bare image without framing. */
  datatype Chunk = PartHeader(len: nat) | PartBody(len: nat) | Delimiter | RawImage(len: nat)

  /** One observable call in a task loop. */
  datatype Event =
    | Take                     // xSemaphoreTake returned pdTRUE
    | TakeTimeout              // xSemaphoreTake timed out
    | Give                     // xSemaphoreGive
    | FrameGet                 // esp_camera_fb_get returned a frame
    | FrameMissing             // esp_camera_fb_get returned NULL
    | FrameReturn              // esp_camera_fb_return of the frame obtained
    | FrameReturnNull          // esp_camera_fb_return(NULL)
    | Detect                   // run_person_detection on the frame
    | JpegEncoded(len: nat)    // fmt2jpg succeeded and allocated a buffer
    | JpegFailed               // fmt2jpg failed, nothing allocated
    | JpegFree                 // free of the fmt2jpg buffer
    | Send(chunk: Chunk, ok: bool)  // httpd_resp_send_chunk and its outcome
    | LogSkip                  // "camera blocked" warning of a skipped cycle
    | LogError                 // an error log line
    | Delay(ms: nat)           // vTaskDelay

  /** What is currently held: the lock, a camera frame, a JPEG buffer. */
  datatype Guard = Guard(held: bool, frameOut: bool, jpegOut: bool)

  const Idle: Guard := Guard(false, false, false)

  /** One step of the protocol automaton; `None` is a protocol violation.
      The lock is taken only when free and given only once the frame and the
      JPEG buffer are back; a frame is obtained, used and returned only
      under the lock; a JPEG buffer is allocated and used only under the lock
      and freed exactly once. */
  function Step(g: Guard, e: Event): Option<Guard> {
    match e
    case Take => if !g.held then Some(g.(held := true)) else None
    case TakeTimeout => if !g.held then Some(g) else None
    case Give => if g.held && !g.frameOut && !g.jpegOut then Some(g.(held := false)) else None
    case FrameGet => if g.held && !g.frameOut then Some(g.(frameOut := true)) else None
    case FrameMissing => if g.held && !g.frameOut then Some(g) else None
    case FrameReturn => if g.held && g.frameOut then Some(g.(frameOut := false)) else None
    case FrameReturnNull => None
    case Detect => if g.held && g.frameOut then Some(g) else None
    case JpegEncoded(_) => if g.held && !g.jpegOut then Some(g.(jpegOut := true)) else None
    case JpegFailed => if g.held then Some(g) else None
    case JpegFree => if g.held && g.jpegOut then Some(g.(jpegOut := false)) else None
    case Send(_, _) => if g.held then Some(g) else None
    case LogSkip => Some(g)
    case LogError => Some(g)
    case Delay(_) => Some(g)
  }

  /** Runs the automaton over a whole trace. */
  function Run(g: Guard, t: seq<Event>): Option<Guard>
    decreases |t|
  {
    if |t| == 0 then Some(g)
    else match Step(g, t[0])
      case None => None
      case Some(g') => Run(g', t[1..])
  }

  /** A trace that follows the protocol and ends with nothing held. */
  predicate Balanced(t: seq<Event>) {
    Run(Idle, t) == Some(Idle)
  }

  /** Running over a concatenation runs over the two halves in turn. */
  lemma {:induction false} RunAppend(g: Guard, a: seq<Event>, b: seq<Event>)
    ensures Run(g, a + b) == (match Run(g, a) case None => None case Some(g') => Run(g', b))
    decreases |a|
  {
    if |a| == 0 {
      assert a + b == b;
    } else {
      assert (a + b)[0] == a[0];
      assert (a + b)[1..] == a[1..] + b;
      match Step(g, a[0])
      case None =>
      case Some(g') => RunAppend(g', a[1..], b);
    }
  }

  /** Balanced pieces make a balanced whole. */
  lemma BalancedAppend(a: seq<Event>, b: seq<Event>)
    requires Balanced(a) && Balanced(b)
    ensures Balanced(a + b)
  {
    RunAppend(Idle, a, b);
  }

  function Flag(b: bool): int {
    if b then 1 else 0
  }

  /** The counters of takes and gives, of frames obtained and returned, and of
      JPEG buffers allocated and freed move with the automaton state. */
  lemma {:induction false} RunCounts(g: Guard, t: seq<Event>, g': Guard)
    requires Run(g, t) == Some(g')
    ensures Count(t, Take) - Count(t, Give) == Flag(g'.held) - Flag(g.held)
    ensures Count(t, FrameGet) - Count(t, FrameReturn) == Flag(g'.frameOut) - Flag(g.frameOut)
    ensures JpegAllocs(t) - Count(t, JpegFree) == Flag(g'.jpegOut) - Flag(g.jpegOut)
    decreases |t|
  {
    if |t| > 0 {
      assert Step(g, t[0]).Some?;
      var g1 := Step(g, t[0]).value;
      assert Run(g1, t[1..]) == Some(g');
      StepCounts(g, t[0], g1);
      RunCounts(g1, t[1..], g');
    }
  }

  /** One indicator per counted event: 1 if `e` is `x`, else 0. */
  function Is(e: Event, x: Event): int {
    if e == x then 1 else 0
  }

  /** The counters move with the automaton state in a single step. */
  lemma StepCounts(g: Guard, e: Event, g1: Guard)
    requires Step(g, e) == Some(g1)
    ensures Is(e, Take) - Is(e, Give) == Flag(g1.held) - Flag(g.held)
    ensures Is(e, FrameGet) - Is(e, FrameReturn) == Flag(g1.frameOut) - Flag(g.frameOut)
    ensures (if e.JpegEncoded? then 1 else 0) - Is(e, JpegFree) == Flag(g1.jpegOut) - Flag(g.jpegOut)
  {
  }

  /** Number of successful JPEG conversions in a trace. */
  function JpegAllocs(t: seq<Event>): (n: nat)
    ensures n <= |t|
  {
    if |t| == 0 then 0 else (if t[0].JpegEncoded? then 1 else 0) + JpegAllocs(t[1..])
  }

  /** In a balanced trace every take is matched by a give, every frame
      obtained by a return, and every JPEG buffer by a free. */
  lemma BalancedCounts(t: seq<Event>)
    requires Balanced(t)
    ensures Count(t, Take) == Count(t, Give)
    ensures Count(t, FrameGet) == Count(t, FrameReturn)
    ensures JpegAllocs(t) == Count(t, JpegFree)
  {
    RunCounts(Idle, t, Idle);
  }

  /** Events that leave the automaton state unchanged while the lock is
      held: sends, failed conversions, log lines and pauses. */
  predicate Neutral(e: Event) {
    e.Send? || e.JpegFailed? || e.LogSkip? || e.LogError? || e.Delay?
  }

  /** A run of neutral events under the lock can be skipped. */
  lemma {:induction false} RunSkipsNeutral(g: Guard, s: seq<Event>, t: seq<Event>)
    requires g.held
    requires forall i :: 0 <= i < |s| ==> Neutral(s[i])
    ensures Run(g, s + t) == Run(g, t)
    decreases |s|
  {
    if |s| == 0 {
      assert s + t == t;
    } else {
      assert (s + t)[0] == s[0];
      assert (s + t)[1..] == s[1..] + t;
      assert Step(g, s[0]) == Some(g);
      assert Run(g, s + t) == Run(g, (s + t)[1..]);
      RunSkipsNeutral(g, s[1..], t);
    }
  }

  /** A balanced trace never returns a frame it did not obtain. */
  lemma BalancedNoNullReturn(t: seq<Event>)
    requires Balanced(t)
    ensures FrameReturnNull !in t
  {
    BalancedNoNullReturnFrom(Idle, t);
  }

  lemma {:induction false} BalancedNoNullReturnFrom(g: Guard, t: seq<Event>)
    requires Run(g, t).Some?
    ensures FrameReturnNull !in t
    decreases |t|
  {
    if |t| > 0 {
      var g1 :| Step(g, t[0]) == Some(g1);
      BalancedNoNullReturnFrom(g1, t[1..]);
      assert t == [t[0]] + t[1..];
    }
  }
}
