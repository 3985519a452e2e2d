/** The start-up sequence of `app_main`: an ordered list of initialisation
    steps in which a failing step either aborts (`ESP_ERROR_CHECK`, which
    restarts the chip), returns from `app_main`, or is ignored. A step is
    attempted exactly when every earlier gating step passed. */
module Startup {
  /** The initialisation steps of the two `app_main` variants. */
  datatype Step =
    | NvsInit              // first nvs_flash_init
    | NvsErase             // nvs_flash_erase after a recoverable NVS error
    | NvsRetry             // second nvs_flash_init
    | NetifInit            // esp_netif_init
    | EventLoopCreate      // esp_event_loop_create_default
    | MutexCreate          // xSemaphoreCreateMutex
    | CameraInit           // camera initialisation
    | ModelSetup           // setup_person_detection_model
    | WifiConnect          // station-mode Wi-Fi bring-up
    | WebserverStart       // HTTP server start and handler registration
    | DetectionTaskStart   // xTaskCreate of the detection task

  /** What `app_main` does when a step fails. */
  datatype OnFailure = Abort | Return | Ignore

  datatype Gate = Gate(step: Step, onFailure: OnFailure)

  /** How `app_main` ends: having run every step, by returning early after
      a failed step, or by aborting in `ESP_ERROR_CHECK`. */
  datatype End = Completed | Returned(at: Step) | Aborted(at: Step)

  /** The steps attempted, in order, and how start-up ended. */
  datatype Boot = Boot(attempted: seq<Step>, end: End)

  /** A gate lets start-up go on when its step succeeds or its failure is
      ignored. */
  predicate Passes(g: Gate, ok: Step -> bool) {
    ok(g.step) || g.onFailure == Ignore
  }

  /** No step occurs twice in a plan. */
  predicate Distinct(plan: seq<Gate>) {
    forall i, j :: 0 <= i < j < |plan| ==> plan[i].step != plan[j].step
  }

  /** Runs the gates in order; `ok` says which steps succeed. */
  function RunGates(plan: seq<Gate>, ok: Step -> bool): (b: Boot)
    ensures |b.attempted| <= |plan|
    ensures forall i :: 0 <= i < |b.attempted| ==> b.attempted[i] == plan[i].step
    ensures b.end == Completed ==> |b.attempted| == |plan|
    ensures b.end != Completed ==> |b.attempted| > 0 && b.end.at == b.attempted[|b.attempted| - 1]
    decreases |plan|
  {
    if |plan| == 0 then Boot([], Completed)
    else if Passes(plan[0], ok) then
      var rest := RunGates(plan[1..], ok);
      Boot([plan[0].step] + rest.attempted, rest.end)
    else if plan[0].onFailure == Abort then Boot([plan[0].step], Aborted(plan[0].step))
    else Boot([plan[0].step], Returned(plan[0].step))
  }

  /** A run that does not complete stops at a gate that failed and was
      not ignored, and it aborts exactly when that gate aborts. */
  lemma {:induction false} GateStops(plan: seq<Gate>, ok: Step -> bool)
    ensures var b := RunGates(plan, ok);
      b.end != Completed ==>
        !Passes(plan[|b.attempted| - 1], ok)
        && (b.end.Aborted? <==> plan[|b.attempted| - 1].onFailure == Abort)
    decreases |plan|
  {
    if |plan| > 0 && Passes(plan[0], ok) {
      GateStops(plan[1..], ok);
    }
  }

  /** Gate `k` is reached exactly when every gate before it passes, and
      start-up completes exactly when every gate passes. */
  lemma GateReached(plan: seq<Gate>, ok: Step -> bool, k: nat)
    requires k <= |plan|
    ensures k < |plan| ==> (k < |RunGates(plan, ok).attempted| <==> forall j :: 0 <= j < k ==> Passes(plan[j], ok))
    ensures k == |plan| ==> (RunGates(plan, ok).end == Completed <==> forall j :: 0 <= j < k ==> Passes(plan[j], ok))
  {
    GatesPassedPrefix(plan, ok, k);
  }

  /** The induction behind `GateReached`: the run gets past the first `k`
      gates, attempting more than `k` steps or completing, exactly when they
      all pass. */
  lemma {:induction false} GatesPassedPrefix(plan: seq<Gate>, ok: Step -> bool, k: nat)
    requires k <= |plan|
    ensures (k < |RunGates(plan, ok).attempted| || RunGates(plan, ok).end == Completed)
      <==> forall j :: 0 <= j < k ==> Passes(plan[j], ok)
    decreases k
  {
    if k > 0 {
      var b, rest := RunGates(plan, ok), RunGates(plan[1..], ok);
      if Passes(plan[0], ok) {
        assert b.attempted == [plan[0].step] + rest.attempted && b.end == rest.end;
        GatesPassedPrefix(plan[1..], ok, k - 1);
        assert (forall j :: 0 <= j < k ==> Passes(plan[j], ok))
          <==> (forall j :: 0 <= j < k - 1 ==> Passes(plan[1..][j], ok)) by {
          forall j | 0 < j < k
            ensures plan[j] == plan[1..][j - 1]
          {
          }
        }
      } else {
        assert |b.attempted| == 1 && b.end != Completed;
        assert !Passes(plan[0], ok);
      }
    }
  }

  /** In a plan without repeated steps, a step is attempted exactly when
      every gate before it passes. */
  lemma StepAttempted(plan: seq<Gate>, ok: Step -> bool, k: nat)
    requires Distinct(plan) && k < |plan|
    ensures plan[k].step in RunGates(plan, ok).attempted <==> forall j :: 0 <= j < k ==> Passes(plan[j], ok)
  {
    var b := RunGates(plan, ok);
    GateReached(plan, ok, k);
    if plan[k].step in b.attempted {
      var i :| 0 <= i < |b.attempted| && b.attempted[i] == plan[k].step;
      assert plan[i].step == plan[k].step;
      assert i == k;
    }
    if k < |b.attempted| {
      assert b.attempted[k] == plan[k].step;
    }
  }

  /** Runs `second` only when `first` completed. */
  function Then(first: Boot, second: Boot): (b: Boot)
    ensures first.end == Completed ==> b.end == second.end && b.attempted == first.attempted + second.attempted
    ensures first.end != Completed ==> b == first
  {
    if first.end == Completed then Boot(first.attempted + second.attempted, second.end) else first
  }

  // ---------------------------------------------------------------------
  // Non-volatile storage
  // ---------------------------------------------------------------------

  /** Results of `nvs_flash_init` that matter to start-up. */
  datatype NvsStatus = NvsOk | NoFreePages | NewVersionFound | NvsError

  /** A full partition or a newer NVS layout is repaired by erasing. */
  predicate Recoverable(s: NvsStatus) {
    s == NoFreePages || s == NewVersionFound
  }

  /** NVS initialisation: a recoverable error triggers an erase and one
      retry; the erase, and the final result, pass through
      `ESP_ERROR_CHECK`. */
  function NvsStart(first: NvsStatus, eraseOk: bool, second: NvsStatus): (b: Boot)
    ensures b.end == Completed <==> first == NvsOk || (Recoverable(first) && eraseOk && second == NvsOk)
    ensures b.end != Completed ==> b.end.Aborted?
    ensures NvsErase in b.attempted <==> Recoverable(first)
    ensures NvsRetry in b.attempted <==> Recoverable(first) && eraseOk
    ensures forall s :: s in b.attempted ==> s == NvsInit || s == NvsErase || s == NvsRetry
  {
    if Recoverable(first) then
      if !eraseOk then Boot([NvsInit, NvsErase], Aborted(NvsErase))
      else if second == NvsOk then Boot([NvsInit, NvsErase, NvsRetry], Completed)
      else Boot([NvsInit, NvsErase, NvsRetry], Aborted(NvsRetry))
    else if first == NvsOk then Boot([NvsInit], Completed)
    else Boot([NvsInit], Aborted(NvsInit))
  }

  /** The outcome of every start-up call. */
  datatype BootOutcomes = BootOutcomes(nvsFirst: NvsStatus, eraseOk: bool, nvsSecond: NvsStatus, ok: Step -> bool)

  predicate NvsReady(o: BootOutcomes) {
    o.nvsFirst == NvsOk || (Recoverable(o.nvsFirst) && o.eraseOk && o.nvsSecond == NvsOk)
  }

  /** A step after NVS start-up is attempted exactly when NVS came up and
      the step is attempted by the remaining gates. */
  lemma AfterNvs(o: BootOutcomes, plan: seq<Gate>, s: Step)
    requires s !in {NvsInit, NvsErase, NvsRetry}
    ensures s in Then(NvsStart(o.nvsFirst, o.eraseOk, o.nvsSecond), RunGates(plan, o.ok)).attempted
      <==> NvsReady(o) && s in RunGates(plan, o.ok).attempted
  {
  }

  /** For a plan whose last gate starts the detection task and ignores its
      failure, the task is started, and start-up completes, exactly when NVS
      came up and every earlier gate passes. */
  lemma TaskStartedIff(o: BootOutcomes, plan: seq<Gate>)
    requires Distinct(plan)
    requires |plan| > 0 && plan[|plan| - 1] == Gate(DetectionTaskStart, Ignore)
    ensures DetectionTaskStart in Then(NvsStart(o.nvsFirst, o.eraseOk, o.nvsSecond), RunGates(plan, o.ok)).attempted
      <==> NvsReady(o) && forall j :: 0 <= j < |plan| - 1 ==> Passes(plan[j], o.ok)
    ensures Then(NvsStart(o.nvsFirst, o.eraseOk, o.nvsSecond), RunGates(plan, o.ok)).end == Completed
      <==> NvsReady(o) && forall j :: 0 <= j < |plan| - 1 ==> Passes(plan[j], o.ok)
  {
    TaskAttempted(o.ok, plan);
    AfterNvs(o, plan, DetectionTaskStart);
    GateReached(plan, o.ok, |plan|);
    assert Passes(plan[|plan| - 1], o.ok);
  }

  lemma TaskAttempted(ok: Step -> bool, plan: seq<Gate>)
    requires Distinct(plan)
    requires |plan| > 0 && plan[|plan| - 1] == Gate(DetectionTaskStart, Ignore)
    ensures DetectionTaskStart in RunGates(plan, ok).attempted
      <==> forall j :: 0 <= j < |plan| - 1 ==> Passes(plan[j], ok)
  {
    StepAttempted(plan, ok, |plan| - 1);
  }

  // ---------------------------------------------------------------------
  // The firmware's app_main
  // ---------------------------------------------------------------------

  /** The gates after NVS start-up. The network stack and the event loop
      are `ESP_ERROR_CHECK`ed; mutex, camera and model failures return;
      with the web server configured in, Wi-Fi and the server are
      `ESP_ERROR_CHECK`ed; starting the detection task is not checked. */
  function FirmwarePlan(webserver: bool): (plan: seq<Gate>)
    ensures Distinct(plan)
    ensures |plan| > 0 && plan[|plan| - 1] == Gate(DetectionTaskStart, Ignore)
  {
    [Gate(NetifInit, Abort), Gate(EventLoopCreate, Abort), Gate(MutexCreate, Return),
     Gate(CameraInit, Return), Gate(ModelSetup, Return)]
    + (if webserver then [Gate(WifiConnect, Abort), Gate(WebserverStart, Abort)] else [])
    + [Gate(DetectionTaskStart, Ignore)]
  }

  /** The steps whose failure makes the firmware's `app_main` return. */
  predicate FirmwareReturnsAt(s: Step) {
    s == MutexCreate || s == CameraInit || s == ModelSetup
  }

  /** Which firmware gates return, abort or are ignored on failure. */
  lemma FirmwareGateKinds(webserver: bool)
    ensures var plan := FirmwarePlan(webserver);
      forall k :: 0 <= k < |plan| ==>
        (plan[k].onFailure == Return <==> FirmwareReturnsAt(plan[k].step))
        && (plan[k].onFailure == Ignore <==> plan[k].step == DetectionTaskStart)
  {
  }

  /** The firmware's gates stop only by returning at a mutex, camera or
      model failure or by aborting elsewhere, never at the task start. */
  lemma FirmwareGatesStop(ok: Step -> bool, webserver: bool)
    ensures var g := RunGates(FirmwarePlan(webserver), ok);
      g.end != Completed ==> (g.end.Returned? <==> FirmwareReturnsAt(g.end.at)) && g.end.at != DetectionTaskStart
  {
    var plan := FirmwarePlan(webserver);
    var g := RunGates(plan, ok);
    if g.end != Completed {
      var k := |g.attempted| - 1;
      assert g.end.at == plan[k].step;
      GateStops(plan, ok);
      FirmwareGateKinds(webserver);
    }
  }

  /** The firmware's `app_main`: NVS comes first; it returns early only
      after a failed mutex, camera or model step, aborts after any other
      failure, and never stops at the unchecked task start. */
  function FirmwareAppMain(o: BootOutcomes, webserver: bool): (b: Boot)
    ensures |b.attempted| > 0 && b.attempted[0] == NvsInit
    ensures b.end != Completed ==>
      (b.end.Returned? <==> FirmwareReturnsAt(b.end.at)) && b.end.at != DetectionTaskStart
  {
    FirmwareGatesStop(o.ok, webserver);
    Then(NvsStart(o.nvsFirst, o.eraseOk, o.nvsSecond), RunGates(FirmwarePlan(webserver), o.ok))
  }

  /** Every step after NVS start-up that the firmware needs before the
      detection task. */
  predicate GatesReady(ok: Step -> bool, webserver: bool) {
    ok(NetifInit) && ok(EventLoopCreate) && ok(MutexCreate) && ok(CameraInit) && ok(ModelSetup)
    && (webserver ==> ok(WifiConnect) && ok(WebserverStart))
  }

  predicate FirmwareReady(o: BootOutcomes, webserver: bool) {
    NvsReady(o) && GatesReady(o.ok, webserver)
  }

  /** The gates before the detection task all pass exactly when their
      steps all succeed: none of them is ignored. */
  lemma FirmwareGatesBeforeTask(ok: Step -> bool, webserver: bool)
    ensures (forall j :: 0 <= j < |FirmwarePlan(webserver)| - 1 ==> Passes(FirmwarePlan(webserver)[j], ok))
      <==> GatesReady(ok, webserver)
  {
    var plan := FirmwarePlan(webserver);
    var k := |plan| - 1;
    var before := plan[..k];
    if webserver {
      assert before == [Gate(NetifInit, Abort), Gate(EventLoopCreate, Abort), Gate(MutexCreate, Return),
        Gate(CameraInit, Return), Gate(ModelSetup, Return), Gate(WifiConnect, Abort), Gate(WebserverStart, Abort)];
    } else {
      assert before == [Gate(NetifInit, Abort), Gate(EventLoopCreate, Abort), Gate(MutexCreate, Return),
        Gate(CameraInit, Return), Gate(ModelSetup, Return)];
    }
    if GatesReady(ok, webserver) {
      forall j | 0 <= j < k
        ensures Passes(plan[j], ok)
      {
        assert plan[j] == before[j];
      }
    }
    if forall j :: 0 <= j < k ==> Passes(plan[j], ok) {
      assert Passes(before[0], ok) && Passes(before[1], ok) && Passes(before[2], ok);
      assert Passes(before[3], ok) && Passes(before[4], ok);
      if webserver {
        assert Passes(before[5], ok) && Passes(before[6], ok);
      }
    }
  }

  /** The detection task is started exactly when every earlier step
      succeeded, and then start-up completes. */
  lemma FirmwareStartsTask(o: BootOutcomes, webserver: bool)
    ensures DetectionTaskStart in FirmwareAppMain(o, webserver).attempted <==> FirmwareReady(o, webserver)
    ensures FirmwareAppMain(o, webserver).end == Completed <==> FirmwareReady(o, webserver)
  {
    TaskStartedIff(o, FirmwarePlan(webserver));
    FirmwareGatesBeforeTask(o.ok, webserver);
  }

  /** One passing gate: its step is attempted and the rest of the plan
      runs. */
  lemma GatePasses(plan: seq<Gate>, ok: Step -> bool)
    requires |plan| > 0 && Passes(plan[0], ok)
    ensures RunGates(plan, ok).attempted == [plan[0].step] + RunGates(plan[1..], ok).attempted
    ensures RunGates(plan, ok).end == RunGates(plan[1..], ok).end
  {
  }

  /** A failing gate that returns: its step is the last one attempted. */
  lemma GateReturns(plan: seq<Gate>, ok: Step -> bool)
    requires |plan| > 0 && !Passes(plan[0], ok) && plan[0].onFailure == Return
    ensures RunGates(plan, ok) == Boot([plan[0].step], Returned(plan[0].step))
  {
  }

  /** A plan that opens with the network, the event loop and the mutex
      stops at the mutex when only the mutex fails. */
  lemma {:induction false} MutexReturns(plan: seq<Gate>, ok: Step -> bool)
    requires |plan| >= 3
    requires plan[0] == Gate(NetifInit, Abort) && plan[1] == Gate(EventLoopCreate, Abort)
    requires plan[2] == Gate(MutexCreate, Return)
    requires ok(NetifInit) && ok(EventLoopCreate) && !ok(MutexCreate)
    ensures RunGates(plan, ok).attempted == [NetifInit, EventLoopCreate, MutexCreate]
    ensures RunGates(plan, ok).end == Returned(MutexCreate)
  {
    var rest1, rest2 := plan[1..], plan[2..];
    assert rest1[1..] == rest2;
    GatePasses(plan, ok);
    GatePasses(rest1, ok);
    GateReturns(rest2, ok);
  }

  /** When the mutex cannot be created, `app_main` returns before camera
      initialisation, model setup, the web server and the detection task. */
  lemma {:induction false} FirmwareMutexFailure(o: BootOutcomes, webserver: bool)
    requires NvsReady(o) && o.ok(NetifInit) && o.ok(EventLoopCreate) && !o.ok(MutexCreate)
    ensures FirmwareAppMain(o, webserver).end == Returned(MutexCreate)
    ensures CameraInit !in FirmwareAppMain(o, webserver).attempted
    ensures ModelSetup !in FirmwareAppMain(o, webserver).attempted
    ensures WebserverStart !in FirmwareAppMain(o, webserver).attempted
    ensures DetectionTaskStart !in FirmwareAppMain(o, webserver).attempted
  {
    var plan := FirmwarePlan(webserver);
    assert plan[..3] == [Gate(NetifInit, Abort), Gate(EventLoopCreate, Abort), Gate(MutexCreate, Return)];
    assert plan[0] == plan[..3][0] && plan[1] == plan[..3][1] && plan[2] == plan[..3][2];
    MutexReturns(plan, o.ok);
    AfterNvs(o, plan, CameraInit);
    AfterNvs(o, plan, ModelSetup);
    AfterNvs(o, plan, WebserverStart);
    AfterNvs(o, plan, DetectionTaskStart);
  }

  /** With the web server configured out, Wi-Fi and the server are never
      started. */
  lemma FirmwareWithoutWebserver(o: BootOutcomes)
    ensures WifiConnect !in FirmwareAppMain(o, false).attempted
    ensures WebserverStart !in FirmwareAppMain(o, false).attempted
  {
    var plan := FirmwarePlan(false);
    var b := RunGates(plan, o.ok);
    forall i | 0 <= i < |b.attempted|
      ensures b.attempted[i] != WifiConnect && b.attempted[i] != WebserverStart
    {
      assert b.attempted[i] == plan[i].step;
    }
    AfterNvs(o, plan, WifiConnect);
    AfterNvs(o, plan, WebserverStart);
  }

  /** With the web server built in, it is attempted before the detection
      task: whenever the task is started, the server was started first. */
  lemma FirmwareWebserverFirst(o: BootOutcomes)
    ensures DetectionTaskStart in FirmwareAppMain(o, true).attempted ==>
      WebserverStart in FirmwareAppMain(o, true).attempted[..|FirmwareAppMain(o, true).attempted| - 1]
      && FirmwareAppMain(o, true).attempted[|FirmwareAppMain(o, true).attempted| - 1] == DetectionTaskStart
  {
    var plan := FirmwarePlan(true);
    var b := FirmwareAppMain(o, true);
    FirmwareStartsTask(o, true);
    if DetectionTaskStart in b.attempted {
      var g := RunGates(plan, o.ok);
      var n := NvsStart(o.nvsFirst, o.eraseOk, o.nvsSecond);
      assert n.end == Completed && g.end == Completed;
      assert |plan| == 8 && plan[6].step == WebserverStart && plan[7].step == DetectionTaskStart;
      assert b.attempted == n.attempted + g.attempted;
      assert b.attempted[|n.attempted| + 6] == g.attempted[6];
    }
  }

  // ---------------------------------------------------------------------
  // The prototype's app_main
  // ---------------------------------------------------------------------

  /** The gates of the prototype after NVS start-up: the camera is
      `ESP_ERROR_CHECK`ed rather than returning, the Wi-Fi calls abort on
      failure, starting the web server reports nothing, and no model is set
      up. */
  function PrototypePlan(): (plan: seq<Gate>)
    ensures Distinct(plan)
    ensures |plan| > 0 && plan[|plan| - 1] == Gate(DetectionTaskStart, Ignore)
  {
    [Gate(NetifInit, Abort), Gate(EventLoopCreate, Abort), Gate(MutexCreate, Return),
     Gate(CameraInit, Abort), Gate(WifiConnect, Abort), Gate(WebserverStart, Ignore),
     Gate(DetectionTaskStart, Ignore)]
  }

  /** Which prototype gates return, abort or are ignored on failure. */
  lemma PrototypeGateKinds()
    ensures var plan := PrototypePlan();
      forall k :: 0 <= k < |plan| ==>
        (plan[k].onFailure == Return <==> plan[k].step == MutexCreate)
        && (plan[k].onFailure == Ignore <==> plan[k].step == WebserverStart || plan[k].step == DetectionTaskStart)
  {
  }

  /** The prototype's gates stop only by returning at the mutex or by
      aborting elsewhere, never at the web server or the task start. */
  lemma PrototypeGatesStop(ok: Step -> bool)
    ensures var g := RunGates(PrototypePlan(), ok);
      g.end != Completed ==>
        (g.end.Returned? <==> g.end.at == MutexCreate)
        && g.end.at != WebserverStart && g.end.at != DetectionTaskStart
  {
    var plan := PrototypePlan();
    var g := RunGates(plan, ok);
    if g.end != Completed {
      var k := |g.attempted| - 1;
      assert g.end.at == plan[k].step;
      GateStops(plan, ok);
      PrototypeGateKinds();
    }
  }

  /** The prototype's `app_main`: NVS comes first; it returns early only
      when the mutex cannot be created, aborts after any other checked
      failure, and never stops at the web server or the task start. */
  function PrototypeAppMain(o: BootOutcomes): (b: Boot)
    ensures |b.attempted| > 0 && b.attempted[0] == NvsInit
    ensures b.end != Completed ==>
      (b.end.Returned? <==> b.end.at == MutexCreate)
      && b.end.at != WebserverStart && b.end.at != DetectionTaskStart
  {
    PrototypeGatesStop(o.ok);
    Then(NvsStart(o.nvsFirst, o.eraseOk, o.nvsSecond), RunGates(PrototypePlan(), o.ok))
  }

  predicate PrototypeReady(o: BootOutcomes) {
    NvsReady(o) && o.ok(NetifInit) && o.ok(EventLoopCreate) && o.ok(MutexCreate)
    && o.ok(CameraInit) && o.ok(WifiConnect)
  }

  lemma PrototypeGatesBeforeTask(ok: Step -> bool)
    ensures (forall j :: 0 <= j < |PrototypePlan()| - 1 ==> Passes(PrototypePlan()[j], ok))
      <==> ok(NetifInit) && ok(EventLoopCreate) && ok(MutexCreate) && ok(CameraInit) && ok(WifiConnect)
  {
    var plan := PrototypePlan();
    if ok(NetifInit) && ok(EventLoopCreate) && ok(MutexCreate) && ok(CameraInit) && ok(WifiConnect) {
      forall j | 0 <= j < |plan| - 1
        ensures Passes(plan[j], ok)
      {
      }
    }
    if forall j :: 0 <= j < |plan| - 1 ==> Passes(plan[j], ok) {
      assert Passes(plan[0], ok) && Passes(plan[1], ok) && Passes(plan[2], ok);
      assert Passes(plan[3], ok) && Passes(plan[4], ok);
    }
  }

  /** The prototype starts the detection task exactly when NVS, the network
      stack, the mutex, the camera and Wi-Fi came up, whether or not the web
      server started. */
  lemma PrototypeStartsTask(o: BootOutcomes)
    ensures DetectionTaskStart in PrototypeAppMain(o).attempted <==> PrototypeReady(o)
    ensures PrototypeAppMain(o).end == Completed <==> PrototypeReady(o)
  {
    TaskStartedIff(o, PrototypePlan());
    PrototypeGatesBeforeTask(o.ok);
  }

  /** When the prototype cannot create the mutex it returns before the
      camera, Wi-Fi, the web server and the detection task; a camera failure
      after that aborts instead. */
  lemma {:induction false} PrototypeMutexAndCamera(o: BootOutcomes)
    requires NvsReady(o) && o.ok(NetifInit) && o.ok(EventLoopCreate)
    ensures !o.ok(MutexCreate) ==>
      PrototypeAppMain(o).end == Returned(MutexCreate)
      && CameraInit !in PrototypeAppMain(o).attempted
      && WebserverStart !in PrototypeAppMain(o).attempted
      && DetectionTaskStart !in PrototypeAppMain(o).attempted
    ensures o.ok(MutexCreate) && !o.ok(CameraInit) ==> PrototypeAppMain(o).end == Aborted(CameraInit)
  {
    var plan := PrototypePlan();
    assert plan[1..][1..] == plan[2..];
    if !o.ok(MutexCreate) {
      MutexReturns(plan, o.ok);
      AfterNvs(o, plan, CameraInit);
      AfterNvs(o, plan, WebserverStart);
      AfterNvs(o, plan, DetectionTaskStart);
    } else if !o.ok(CameraInit) {
      assert plan[2..][1..] == plan[3..];
      assert RunGates(plan[3..], o.ok) == Boot([CameraInit], Aborted(CameraInit));
      assert RunGates(plan, o.ok).end == Aborted(CameraInit);
    }
  }
}
