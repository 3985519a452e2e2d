/** The person-detection component: buffer and arena setup with unwinding on
    failure, one inference on a camera frame, and the periodic detection
    task that shares the camera under the lock. */
module PersonDetection {
  import opened Common
  import opened ImagePipeline
  import opened LockProtocol

  // ---------------------------------------------------------------------
  // Setup: buffers, arena, interpreter
  // ---------------------------------------------------------------------

  /** The four blocks the setup obtains from the SPIRAM heap. */
  datatype Buffer = InputBuffer | FullRgb | SmallRgb | Arena

  /** Byte size requested for each block. */
  function BufferBytes(b: Buffer): nat {
    match b
    case InputBuffer => NumRows * NumCols * NumChannels
    case FullRgb => FullWidth * FullHeight * RgbChannels
    case SmallRgb => NumCols * NumRows * RgbChannels
    case Arena => CameraArenaSize
  }

  /** The `kTensorArenaSize` of the camera firmware. */
  const CameraArenaSize: nat := 160 * 1024

  /** The image buffers, which a failed setup hands back. */
  const ImageBuffers: set<Buffer> := {InputBuffer, FullRgb, SmallRgb}

  /** Observable steps of the setup. */
  datatype SetupEvent =
    | Alloc(b: Buffer)         // heap_caps_malloc returned a block
    | AllocFailed(b: Buffer)   // heap_caps_malloc returned NULL
    | Free(b: Buffer)          // heap_caps_free
    | SchemaMismatch           // the model's schema version is not supported
    | TensorsAllocated(ok: bool)  // interpreter->AllocateTensors() and its outcome

  /** The outcome of every collaborator call the setup makes. */
  datatype SetupOutcomes = SetupOutcomes(
    inputOk: bool, fullOk: bool, smallOk: bool,
    schemaOk: bool, arenaOk: bool, tensorsOk: bool)

  datatype SetupResult = SetupResult(status: Status, events: seq<SetupEvent>)

  /** `setup_person_detection_model`, branch by branch. `arenaBefore` says
      whether the static arena pointer is already set by an earlier call, in
      which case no arena is requested. Every failure frees the image buffers
      obtained so far and nothing else: the arena is never freed. */
  function SetupPersonDetection(o: SetupOutcomes, arenaBefore: bool): (r: SetupResult)
    ensures r.status == Ok <==> SetupSucceeds(o, arenaBefore)
    ensures Free(Arena) !in r.events
    ensures Alloc(Arena) in r.events ==> !arenaBefore
  {
    var images := [Alloc(InputBuffer), Alloc(FullRgb), Alloc(SmallRgb)];
    var unwind := [Free(InputBuffer), Free(FullRgb), Free(SmallRgb)];
    if !o.inputOk then
      SetupResult(Fail, [AllocFailed(InputBuffer)])
    else if !o.fullOk then
      SetupResult(Fail, [Alloc(InputBuffer), AllocFailed(FullRgb), Free(InputBuffer)])
    else if !o.smallOk then
      SetupResult(Fail, [Alloc(InputBuffer), Alloc(FullRgb), AllocFailed(SmallRgb), Free(InputBuffer), Free(FullRgb)])
    else if !o.schemaOk then
      SetupResult(Fail, images + [SchemaMismatch] + unwind)
    else if !arenaBefore && !o.arenaOk then
      SetupResult(Fail, images + [AllocFailed(Arena)] + unwind)
    else
      var arena := if arenaBefore then [] else [Alloc(Arena)];
      if !o.tensorsOk then
        SetupResult(Fail, images + arena + [TensorsAllocated(false)] + unwind)
      else
        SetupResult(Ok, images + arena + [TensorsAllocated(true)])
  }

  /** Every step the setup depends on succeeds; the arena request only
      matters when no arena exists yet. */
  predicate SetupSucceeds(o: SetupOutcomes, arenaBefore: bool) {
    o.inputOk && o.fullOk && o.smallOk && o.schemaOk && (arenaBefore || o.arenaOk) && o.tensorsOk
  }

  /** The set of live blocks after a trace of setup events, starting from
      `live`; `None` when a block is obtained twice or freed while not live. */
  function Live(live: set<Buffer>, t: seq<SetupEvent>): Option<set<Buffer>>
    decreases |t|
  {
    if |t| == 0 then Some(live)
    else match t[0]
      case Alloc(b) => if b in live then None else Live(live + {b}, t[1..])
      case Free(b) => if b in live then Live(live - {b}, t[1..]) else None
      case _ => Live(live, t[1..])
  }

  lemma {:induction false} LiveAppend(live: set<Buffer>, a: seq<SetupEvent>, b: seq<SetupEvent>)
    ensures Live(live, a + b) == (match Live(live, a) case None => None case Some(l) => Live(l, b))
    decreases |a|
  {
    if |a| == 0 {
      assert a + b == b;
    } else {
      assert (a + b)[0] == a[0];
      assert (a + b)[1..] == a[1..] + b;
      match a[0]
      case Alloc(x) => if x !in live { LiveAppend(live + {x}, a[1..], b); }
      case Free(x) => if x in live { LiveAppend(live - {x}, a[1..], b); }
      case _ => LiveAppend(live, a[1..], b);
    }
  }

  /** The blocks live before the setup: the arena, if an earlier call left one. */
  function ArenaIf(present: bool): set<Buffer> {
    if present then {Arena} else {}
  }

  lemma LiveImages(live: set<Buffer>)
    requires live !! ImageBuffers
    ensures Live(live, [Alloc(InputBuffer), Alloc(FullRgb), Alloc(SmallRgb)]) == Some(live + ImageBuffers)
    ensures Live(live + ImageBuffers, [Free(InputBuffer), Free(FullRgb), Free(SmallRgb)]) == Some(live)
  {
    var t := [Alloc(InputBuffer), Alloc(FullRgb), Alloc(SmallRgb)];
    assert Live(live, t) == Live(live + {InputBuffer}, t[1..]);
    assert Live(live + {InputBuffer}, t[1..]) == Live(live + {InputBuffer} + {FullRgb}, t[2..]);
    assert Live(live + {InputBuffer} + {FullRgb}, t[2..]) == Live(live + {InputBuffer} + {FullRgb} + {SmallRgb}, t[3..]);
    assert live + {InputBuffer} + {FullRgb} + {SmallRgb} == live + ImageBuffers;
    var u := [Free(InputBuffer), Free(FullRgb), Free(SmallRgb)];
    assert live + ImageBuffers - {InputBuffer} - {FullRgb} - {SmallRgb} == live;
    assert Live(live + ImageBuffers, u) == Live(live + ImageBuffers - {InputBuffer}, u[1..]);
    assert Live(live + ImageBuffers - {InputBuffer}, u[1..]) == Live(live + ImageBuffers - {InputBuffer} - {FullRgb}, u[2..]);
  }

  /** Memory discipline of the setup: no block is obtained twice or freed
      while not live; success leaves the three image buffers and the arena
      live; failure leaves no image buffer live and keeps the arena exactly
      when it existed before or was obtained now. */
  lemma SetupMemory(o: SetupOutcomes, arenaBefore: bool)
    ensures var r := SetupPersonDetection(o, arenaBefore);
      Live(ArenaIf(arenaBefore), r.events) ==
        Some(if r.status == Ok then ImageBuffers + {Arena}
             else ArenaIf(arenaBefore || Alloc(Arena) in r.events))
  {
    if o.inputOk && o.fullOk && o.smallOk {
      SetupMemoryAfterImages(o, arenaBefore);
    } else {
      SetupMemoryImageFailure(o, arenaBefore);
    }
  }

  /** A failure while obtaining the image buffers frees those obtained. */
  lemma SetupMemoryImageFailure(o: SetupOutcomes, arenaBefore: bool)
    requires !(o.inputOk && o.fullOk && o.smallOk)
    ensures var r := SetupPersonDetection(o, arenaBefore);
      r.status == Fail && Alloc(Arena) !in r.events && Live(ArenaIf(arenaBefore), r.events) == Some(ArenaIf(arenaBefore))
  {
    var a := ArenaIf(arenaBefore);
    if !o.inputOk {
    } else if !o.fullOk {
      var t := [Alloc(InputBuffer), AllocFailed(FullRgb), Free(InputBuffer)];
      assert Live(a, t) == Live(a + {InputBuffer}, t[1..]);
      assert a + {InputBuffer} - {InputBuffer} == a;
    } else {
      var t := [Alloc(InputBuffer), Alloc(FullRgb), AllocFailed(SmallRgb), Free(InputBuffer), Free(FullRgb)];
      assert Live(a, t) == Live(a + {InputBuffer}, t[1..]);
      assert Live(a + {InputBuffer}, t[1..]) == Live(a + {InputBuffer} + {FullRgb}, t[2..]);
      assert Live(a + {InputBuffer} + {FullRgb}, t[3..]) == Live(a + {InputBuffer} + {FullRgb} - {InputBuffer}, t[4..]);
      assert a + {InputBuffer} + {FullRgb} - {InputBuffer} - {FullRgb} == a;
    }
  }

  /** The events between obtaining the image buffers and unwinding them. */
  function MiddleEvents(o: SetupOutcomes, arenaBefore: bool): seq<SetupEvent> {
    if !o.schemaOk then [SchemaMismatch]
    else if !arenaBefore && !o.arenaOk then [AllocFailed(Arena)]
    else if arenaBefore then [TensorsAllocated(o.tensorsOk)]
    else [Alloc(Arena), TensorsAllocated(o.tensorsOk)]
  }

  lemma LiveMiddle(o: SetupOutcomes, arenaBefore: bool)
    ensures Live(ArenaIf(arenaBefore) + ImageBuffers, MiddleEvents(o, arenaBefore)) ==
      Some(ArenaIf(arenaBefore || Alloc(Arena) in MiddleEvents(o, arenaBefore)) + ImageBuffers)
  {
    var a := ArenaIf(arenaBefore);
    var mid := MiddleEvents(o, arenaBefore);
    if !o.schemaOk || (!arenaBefore && !o.arenaOk) || arenaBefore {
      assert Live(a + ImageBuffers, mid) == Live(a + ImageBuffers, mid[1..]);
    } else {
      assert Live(a + ImageBuffers, mid) == Live(a + ImageBuffers + {Arena}, mid[1..]);
      assert Live(a + ImageBuffers + {Arena}, mid[1..]) == Live(a + ImageBuffers + {Arena}, mid[2..]);
      assert a + ImageBuffers + {Arena} == ArenaIf(true) + ImageBuffers;
    }
  }

  lemma SetupEventsAfterImages(o: SetupOutcomes, arenaBefore: bool)
    requires o.inputOk && o.fullOk && o.smallOk
    ensures var r := SetupPersonDetection(o, arenaBefore);
      var images := [Alloc(InputBuffer), Alloc(FullRgb), Alloc(SmallRgb)];
      var unwind := [Free(InputBuffer), Free(FullRgb), Free(SmallRgb)];
      r.events == if r.status == Ok then images + MiddleEvents(o, arenaBefore)
                  else images + MiddleEvents(o, arenaBefore) + unwind
  {
    var images := [Alloc(InputBuffer), Alloc(FullRgb), Alloc(SmallRgb)];
    if o.schemaOk && (arenaBefore || o.arenaOk) && !arenaBefore {
      assert images + [Alloc(Arena)] + [TensorsAllocated(o.tensorsOk)] == images + [Alloc(Arena), TensorsAllocated(o.tensorsOk)];
    } else if o.schemaOk && arenaBefore {
      assert images + [] == images;
    }
  }

  /** A failure after the image buffers frees all three; success keeps all
      three and the arena. */
  lemma SetupMemoryAfterImages(o: SetupOutcomes, arenaBefore: bool)
    requires o.inputOk && o.fullOk && o.smallOk
    ensures var r := SetupPersonDetection(o, arenaBefore);
      Live(ArenaIf(arenaBefore), r.events) ==
        Some(if r.status == Ok then ImageBuffers + {Arena}
             else ArenaIf(arenaBefore || Alloc(Arena) in r.events))
  {
    var r := SetupPersonDetection(o, arenaBefore);
    var a := ArenaIf(arenaBefore);
    var images := [Alloc(InputBuffer), Alloc(FullRgb), Alloc(SmallRgb)];
    var unwind := [Free(InputBuffer), Free(FullRgb), Free(SmallRgb)];
    var mid := MiddleEvents(o, arenaBefore);
    var after := ArenaIf(arenaBefore || Alloc(Arena) in mid);
    SetupEventsAfterImages(o, arenaBefore);
    LiveImages(a);
    LiveMiddle(o, arenaBefore);
    LiveImages(after);
    LiveAppend(a, images, mid);
    if r.status == Ok {
      assert after == {Arena};
      assert after + ImageBuffers == ImageBuffers + {Arena};
    } else {
      LiveAppend(a, images + mid, unwind);
      assert Alloc(Arena) in r.events <==> Alloc(Arena) in mid;
    }
  }

  // ---------------------------------------------------------------------
  // Reference: a staged setup with one common cleanup
  // ---------------------------------------------------------------------

  /** One step of the setup in a table-driven formulation. */
  datatype Stage = Obtain(b: Buffer) | CheckSchema | ObtainArena | AllocateTensors

  const SetupStages: seq<Stage> :=
    [Obtain(InputBuffer), Obtain(FullRgb), Obtain(SmallRgb), CheckSchema, ObtainArena, AllocateTensors]

  /** Whether a stage succeeds, and the events it produces. */
  function StageEvents(s: Stage, o: SetupOutcomes, arenaBefore: bool): (bool, seq<SetupEvent>) {
    match s
    case Obtain(b) =>
      var ok := if b == InputBuffer then o.inputOk else if b == FullRgb then o.fullOk else o.smallOk;
      (ok, if ok then [Alloc(b)] else [AllocFailed(b)])
    case CheckSchema => (o.schemaOk, if o.schemaOk then [] else [SchemaMismatch])
    case ObtainArena =>
      if arenaBefore then (true, [])
      else (o.arenaOk, if o.arenaOk then [Alloc(Arena)] else [AllocFailed(Arena)])
    case AllocateTensors => (o.tensorsOk, [TensorsAllocated(o.tensorsOk)])
  }

  /** Frees the given blocks in order. */
  function Unwind(held: seq<Buffer>): (t: seq<SetupEvent>)
    ensures |t| == |held|
    ensures forall i :: 0 <= i < |held| ==> t[i] == Free(held[i])
  {
    if |held| == 0 then [] else [Free(held[0])] + Unwind(held[1..])
  }

  /** Runs the stages in order; the first failing stage ends the setup with
      one cleanup that frees every image buffer obtained so far. */
  function RunStages(stages: seq<Stage>, o: SetupOutcomes, arenaBefore: bool, held: seq<Buffer>): SetupResult
    decreases |stages|
  {
    if |stages| == 0 then SetupResult(Ok, [])
    else
      var (ok, ev) := StageEvents(stages[0], o, arenaBefore);
      if !ok then SetupResult(Fail, ev + Unwind(held))
      else
        var held' := if stages[0].Obtain? then held + [stages[0].b] else held;
        var rest := RunStages(stages[1..], o, arenaBefore, held');
        SetupResult(rest.status, ev + rest.events)
  }

  lemma {:induction false} StageTensorsStep(o: SetupOutcomes, arenaBefore: bool, held: seq<Buffer>)
    ensures RunStages([AllocateTensors], o, arenaBefore, held) ==
      if o.tensorsOk then SetupResult(Ok, [TensorsAllocated(true)])
      else SetupResult(Fail, [TensorsAllocated(false)] + Unwind(held))
  {
    assert [AllocateTensors][1..] == [];
  }

  lemma {:induction false} StageArenaStep(o: SetupOutcomes, arenaBefore: bool, held: seq<Buffer>)
    ensures RunStages([ObtainArena, AllocateTensors], o, arenaBefore, held) ==
      if !arenaBefore && !o.arenaOk then SetupResult(Fail, [AllocFailed(Arena)] + Unwind(held))
      else
        var arena := if arenaBefore then [] else [Alloc(Arena)];
        var rest := RunStages([AllocateTensors], o, arenaBefore, held);
        SetupResult(rest.status, arena + rest.events)
  {
    assert [ObtainArena, AllocateTensors][1..] == [AllocateTensors];
  }

  lemma {:induction false} StageSchemaStep(o: SetupOutcomes, arenaBefore: bool, held: seq<Buffer>)
    ensures RunStages([CheckSchema, ObtainArena, AllocateTensors], o, arenaBefore, held) ==
      if !o.schemaOk then SetupResult(Fail, [SchemaMismatch] + Unwind(held))
      else
        var rest := RunStages([ObtainArena, AllocateTensors], o, arenaBefore, held);
        SetupResult(rest.status, [] + rest.events)
  {
    assert [CheckSchema, ObtainArena, AllocateTensors][1..] == [ObtainArena, AllocateTensors];
  }

  lemma {:induction false} StageObtainStep(b: Buffer, rest: seq<Stage>, o: SetupOutcomes, arenaBefore: bool, held: seq<Buffer>)
    requires b != Arena
    ensures var ok := if b == InputBuffer then o.inputOk else if b == FullRgb then o.fullOk else o.smallOk;
      RunStages([Obtain(b)] + rest, o, arenaBefore, held) ==
      if !ok then SetupResult(Fail, [AllocFailed(b)] + Unwind(held))
      else
        var r := RunStages(rest, o, arenaBefore, held + [b]);
        SetupResult(r.status, [Alloc(b)] + r.events)
  {
    assert ([Obtain(b)] + rest)[0] == Obtain(b);
    assert ([Obtain(b)] + rest)[1..] == rest;
  }

  /** The stages after the image buffers: schema, arena, tensors. */
  lemma {:induction false} StageTail(o: SetupOutcomes, arenaBefore: bool, held: seq<Buffer>)
    ensures var arena := if arenaBefore then [] else [Alloc(Arena)];
      RunStages([CheckSchema, ObtainArena, AllocateTensors], o, arenaBefore, held) ==
      if !o.schemaOk then SetupResult(Fail, [SchemaMismatch] + Unwind(held))
      else if !arenaBefore && !o.arenaOk then SetupResult(Fail, [AllocFailed(Arena)] + Unwind(held))
      else if !o.tensorsOk then SetupResult(Fail, arena + [TensorsAllocated(false)] + Unwind(held))
      else SetupResult(Ok, arena + [TensorsAllocated(true)])
  {
    StageTensorsStep(o, arenaBefore, held);
    StageArenaStep(o, arenaBefore, held);
    StageSchemaStep(o, arenaBefore, held);
  }

  /** The hand-unrolled branches of the setup are the staged setup with a
      single cleanup of everything obtained so far. */
  lemma SetupIsStaged(o: SetupOutcomes, arenaBefore: bool)
    ensures SetupPersonDetection(o, arenaBefore) == RunStages(SetupStages, o, arenaBefore, [])
  {
    if o.inputOk && o.fullOk && o.smallOk {
      StagedImages(o, arenaBefore);
    } else {
      var tail := [CheckSchema, ObtainArena, AllocateTensors];
      assert SetupStages == [Obtain(InputBuffer), Obtain(FullRgb), Obtain(SmallRgb)] + tail;
      ImagesFail(o, arenaBefore, [], tail);
      assert [] + [InputBuffer] == [InputBuffer];
      assert [] + [InputBuffer, FullRgb] == [InputBuffer, FullRgb];
      assert Unwind([]) == [];
      assert Unwind([InputBuffer]) == [Free(InputBuffer)];
      assert Unwind([InputBuffer, FullRgb]) == [Free(InputBuffer), Free(FullRgb)];
    }
  }

  /** An image stage whose allocation fails frees what is held and stops. */
  lemma ObtainFails(b: Buffer, rest: seq<Stage>, o: SetupOutcomes, arenaBefore: bool, held: seq<Buffer>)
    requires b != Arena
    requires !(if b == InputBuffer then o.inputOk else if b == FullRgb then o.fullOk else o.smallOk)
    ensures RunStages([Obtain(b)] + rest, o, arenaBefore, held) == SetupResult(Fail, [AllocFailed(b)] + Unwind(held))
  {
    StageObtainStep(b, rest, o, arenaBefore, held);
  }

  /** An image stage whose allocation succeeds holds the buffer and goes
      on. */
  lemma ObtainSucceeds(b: Buffer, rest: seq<Stage>, o: SetupOutcomes, arenaBefore: bool, held: seq<Buffer>)
    requires b != Arena
    requires if b == InputBuffer then o.inputOk else if b == FullRgb then o.fullOk else o.smallOk
    ensures var r := RunStages(rest, o, arenaBefore, held + [b]);
      RunStages([Obtain(b)] + rest, o, arenaBefore, held) == SetupResult(r.status, [Alloc(b)] + r.events)
  {
    StageObtainStep(b, rest, o, arenaBefore, held);
  }

  /** A failing image stage ends the setup with the cleanup of the image
      buffers obtained before it. */
  lemma {:induction false} ImagesFail(o: SetupOutcomes, arenaBefore: bool, held: seq<Buffer>, tail: seq<Stage>)
    requires !(o.inputOk && o.fullOk && o.smallOk)
    ensures var r := RunStages([Obtain(InputBuffer), Obtain(FullRgb), Obtain(SmallRgb)] + tail, o, arenaBefore, held);
      r.status == Fail
      && (!o.inputOk ==> r.events == [AllocFailed(InputBuffer)] + Unwind(held))
      && (o.inputOk && !o.fullOk ==> r.events == [Alloc(InputBuffer)] + ([AllocFailed(FullRgb)] + Unwind(held + [InputBuffer])))
      && (o.inputOk && o.fullOk ==>
            r.events == [Alloc(InputBuffer)] + ([Alloc(FullRgb), AllocFailed(SmallRgb)] + Unwind(held + [InputBuffer, FullRgb])))
  {
    var s1 := [Obtain(FullRgb), Obtain(SmallRgb)] + tail;
    assert [Obtain(InputBuffer)] + s1 == [Obtain(InputBuffer), Obtain(FullRgb), Obtain(SmallRgb)] + tail;
    if !o.inputOk {
      ObtainFails(InputBuffer, s1, o, arenaBefore, held);
    } else {
      ObtainSucceeds(InputBuffer, s1, o, arenaBefore, held);
      LaterImagesFail(o, arenaBefore, held + [InputBuffer], tail);
      assert held + [InputBuffer] + [FullRgb] == held + [InputBuffer, FullRgb];
    }
  }

  /** The second or third image stage fails after the first succeeded. */
  lemma {:induction false} LaterImagesFail(o: SetupOutcomes, arenaBefore: bool, held: seq<Buffer>, tail: seq<Stage>)
    requires !(o.fullOk && o.smallOk)
    ensures RunStages([Obtain(FullRgb), Obtain(SmallRgb)] + tail, o, arenaBefore, held) ==
      SetupResult(Fail,
        if !o.fullOk then [AllocFailed(FullRgb)] + Unwind(held)
        else [Alloc(FullRgb), AllocFailed(SmallRgb)] + Unwind(held + [FullRgb]))
  {
    var s2 := [Obtain(SmallRgb)] + tail;
    assert [Obtain(FullRgb)] + s2 == [Obtain(FullRgb), Obtain(SmallRgb)] + tail;
    if !o.fullOk {
      ObtainFails(FullRgb, s2, o, arenaBefore, held);
    } else {
      ObtainSucceeds(FullRgb, s2, o, arenaBefore, held);
      ObtainFails(SmallRgb, tail, o, arenaBefore, held + [FullRgb]);
    }
  }

  /** Three successful image stages in a row. */
  lemma {:induction false} ObtainImages(o: SetupOutcomes, arenaBefore: bool, held: seq<Buffer>, tail: seq<Stage>)
    requires o.inputOk && o.fullOk && o.smallOk
    ensures var r := RunStages(tail, o, arenaBefore, held + [InputBuffer, FullRgb, SmallRgb]);
      RunStages([Obtain(InputBuffer), Obtain(FullRgb), Obtain(SmallRgb)] + tail, o, arenaBefore, held) ==
      SetupResult(r.status, [Alloc(InputBuffer), Alloc(FullRgb), Alloc(SmallRgb)] + r.events)
  {
    var s2 := [Obtain(SmallRgb)] + tail;
    var s1 := [Obtain(FullRgb)] + s2;
    assert [Obtain(InputBuffer)] + s1 == [Obtain(InputBuffer), Obtain(FullRgb), Obtain(SmallRgb)] + tail;
    StageObtainStep(InputBuffer, s1, o, arenaBefore, held);
    StageObtainStep(FullRgb, s2, o, arenaBefore, held + [InputBuffer]);
    StageObtainStep(SmallRgb, tail, o, arenaBefore, held + [InputBuffer] + [FullRgb]);
    assert held + [InputBuffer] + [FullRgb] + [SmallRgb] == held + [InputBuffer, FullRgb, SmallRgb];
    var r := RunStages(tail, o, arenaBefore, held + [InputBuffer, FullRgb, SmallRgb]);
    assert [Alloc(InputBuffer)] + ([Alloc(FullRgb)] + ([Alloc(SmallRgb)] + r.events)) ==
      [Alloc(InputBuffer), Alloc(FullRgb), Alloc(SmallRgb)] + r.events;
  }

  lemma StagedPrefix(o: SetupOutcomes, arenaBefore: bool)
    requires o.inputOk && o.fullOk && o.smallOk
    ensures var r3 := RunStages([CheckSchema, ObtainArena, AllocateTensors], o, arenaBefore, [InputBuffer, FullRgb, SmallRgb]);
      RunStages(SetupStages, o, arenaBefore, []) ==
      SetupResult(r3.status, [Alloc(InputBuffer), Alloc(FullRgb), Alloc(SmallRgb)] + r3.events)
  {
    var tail := [CheckSchema, ObtainArena, AllocateTensors];
    assert SetupStages == [Obtain(InputBuffer), Obtain(FullRgb), Obtain(SmallRgb)] + tail;
    ObtainImages(o, arenaBefore, [], tail);
    assert [] + [InputBuffer, FullRgb, SmallRgb] == [InputBuffer, FullRgb, SmallRgb];
  }

  /** The tail stages produce the middle events of the setup, followed by
      the cleanup when one of them fails. */
  lemma {:induction false} StageTailMiddle(o: SetupOutcomes, arenaBefore: bool, held: seq<Buffer>)
    ensures var ok := o.schemaOk && (arenaBefore || o.arenaOk) && o.tensorsOk;
      RunStages([CheckSchema, ObtainArena, AllocateTensors], o, arenaBefore, held) ==
      SetupResult(if ok then Ok else Fail, MiddleEvents(o, arenaBefore) + (if ok then [] else Unwind(held)))
  {
    StageTail(o, arenaBefore, held);
    if o.schemaOk && (arenaBefore || o.arenaOk) {
      if arenaBefore {
        assert [] + [TensorsAllocated(o.tensorsOk)] == [TensorsAllocated(o.tensorsOk)];
      } else {
        assert [Alloc(Arena)] + [TensorsAllocated(o.tensorsOk)] == [Alloc(Arena), TensorsAllocated(o.tensorsOk)];
      }
      if o.tensorsOk {
        assert MiddleEvents(o, arenaBefore) + [] == MiddleEvents(o, arenaBefore);
      }
    }
  }

  /** Once the three image buffers are obtained, the staged setup continues
      with the tail stages and unwinds all three on failure. */
  lemma StagedAfterImages(o: SetupOutcomes, arenaBefore: bool)
    requires o.inputOk && o.fullOk && o.smallOk
    ensures var ok := o.schemaOk && (arenaBefore || o.arenaOk) && o.tensorsOk;
      RunStages(SetupStages, o, arenaBefore, []) ==
      SetupResult(if ok then Ok else Fail,
        [Alloc(InputBuffer), Alloc(FullRgb), Alloc(SmallRgb)] + MiddleEvents(o, arenaBefore)
        + (if ok then [] else [Free(InputBuffer), Free(FullRgb), Free(SmallRgb)]))
  {
    var h3 := [InputBuffer, FullRgb, SmallRgb];
    var images := [Alloc(InputBuffer), Alloc(FullRgb), Alloc(SmallRgb)];
    var mid := MiddleEvents(o, arenaBefore);
    var ok := o.schemaOk && (arenaBefore || o.arenaOk) && o.tensorsOk;
    var u := if ok then [] else Unwind(h3);
    StagedPrefix(o, arenaBefore);
    StageTailMiddle(o, arenaBefore, h3);
    assert Unwind(h3) == [Free(InputBuffer), Free(FullRgb), Free(SmallRgb)];
    assert images + (mid + u) == images + mid + u;
  }

  lemma StagedImages(o: SetupOutcomes, arenaBefore: bool)
    requires o.inputOk && o.fullOk && o.smallOk
    ensures SetupPersonDetection(o, arenaBefore) == RunStages(SetupStages, o, arenaBefore, [])
  {
    var images := [Alloc(InputBuffer), Alloc(FullRgb), Alloc(SmallRgb)];
    var mid := MiddleEvents(o, arenaBefore);
    StagedAfterImages(o, arenaBefore);
    SetupEventsAfterImages(o, arenaBefore);
    if SetupSucceeds(o, arenaBefore) {
      assert images + mid + [] == images + mid;
    }
  }

  // ---------------------------------------------------------------------
  // One inference
  // ---------------------------------------------------------------------

  /** What one call of `run_person_detection` produces once the frame is
      decoded: the model input it writes, whether Invoke failed, the two
      output scores and the logged decision. */
  datatype Inference = Inference(input: seq<int>, invokeFailed: bool,
                                 personScore: int, notPersonScore: int, decision: Decision)

  /** The geometry of the decoded 320x240 RGB frame. */
  predicate DecodedFrame(full: seq<int>) {
    |full| == BufferSize(FullWidth, FullHeight, RgbChannels) && AllBytes(full)
  }

  /** Reference for the model input: the grey value of output pixel
      (`y`, `x`) of the bilinear 320x240 -> 96x96 resize. */
  function PixelGrey(full: seq<int>, y: int, x: int): int
    requires DecodedFrame(full)
  {
    var geom := ResizeGeometry(full, NumCols, NumRows, RgbChannels, FullWidth, FullHeight);
    assert geom;
    Luma(OutputSample(full, y, x, 0, NumCols, NumRows, RgbChannels, FullWidth, FullHeight),
         OutputSample(full, y, x, 1, NumCols, NumRows, RgbChannels, FullWidth, FullHeight),
         OutputSample(full, y, x, 2, NumCols, NumRows, RgbChannels, FullWidth, FullHeight)) - 128
  }

  /** The grey pixels computed from the resized frame are the reference
      grey values of the frame. */
  lemma {:induction false} GreyIsReference(full: seq<int>, small: seq<int>, grey: seq<int>)
    requires DecodedFrame(full)
    requires |small| == NumRows * NumCols * RgbChannels
    requires forall y, x, ch :: 0 <= y < NumRows && 0 <= x < NumCols && 0 <= ch < RgbChannels ==>
      0 <= FlatIndex(y, x, ch, NumCols, RgbChannels) < |small|
      && small[FlatIndex(y, x, ch, NumCols, RgbChannels)] ==
         OutputSample(full, y, x, ch, NumCols, NumRows, RgbChannels, FullWidth, FullHeight)
    requires |grey| == NumRows * NumCols
    requires forall i :: 0 <= i < NumRows * NumCols ==> grey[i] == Luma(small[3 * i], small[3 * i + 1], small[3 * i + 2]) - 128
    ensures forall y, x :: 0 <= y < NumRows && 0 <= x < NumCols ==> grey[y * NumCols + x] == PixelGrey(full, y, x)
  {
    forall y, x | 0 <= y < NumRows && 0 <= x < NumCols
      ensures grey[y * NumCols + x] == PixelGrey(full, y, x)
    {
      var i := y * 96 + x;
      assert i == y * NumCols + x && 0 <= i < NumRows * NumCols;
      assert FlatIndex(y, x, 0, NumCols, RgbChannels) == 3 * i;
      assert FlatIndex(y, x, 1, NumCols, RgbChannels) == 3 * i + 1;
      assert FlatIndex(y, x, 2, NumCols, RgbChannels) == 3 * i + 2;
    }
  }

  /** `run_person_detection`. `decoded` is the result of the JPEG decoder
      (`None` when it fails), `smallPrev` the previous content of the 96x96
      RGB buffer, and `invokeOk`, `personScore`, `notPersonScore` the
      interpreter's outcome and output. A decode failure returns before any
      resize, quantisation or inference; an Invoke failure is only logged and
      the scores are still read and classified. */
  method RunPersonDetection(decoded: Option<seq<int>>, smallPrev: seq<int>, invokeOk: bool,
                            personScore: int, notPersonScore: int)
      returns (r: Option<Inference>)
    requires decoded.Some? ==> DecodedFrame(decoded.value)
    requires |smallPrev| == BufferSize(NumCols, NumRows, RgbChannels)
    requires IsInt8(personScore) && IsInt8(notPersonScore)
    ensures decoded.None? <==> r.None?
    ensures r.Some? ==> |r.value.input| == NumRows * NumCols * NumChannels && AllInt8(r.value.input)
    ensures r.Some? && decoded.Some? ==> forall y, x :: 0 <= y < NumRows && 0 <= x < NumCols ==>
      r.value.input[y * NumCols + x] == PixelGrey(decoded.value, y, x)
    ensures r.Some? ==> r.value.invokeFailed == !invokeOk
    ensures r.Some? ==> r.value.personScore == personScore && r.value.notPersonScore == notPersonScore
    ensures r.Some? ==> (r.value.decision == Person <==> personScore > PersonThreshold)
  {
    if decoded.None? {
      return None;
    }
    var full := decoded.value;
    assert ResizeGeometry(full, NumCols, NumRows, RgbChannels, FullWidth, FullHeight);
    var small, _ := ResizeLinear(full, smallPrev, NumCols, NumRows, RgbChannels, FullWidth, FullHeight);
    var grey := QuantiseGrey(small, NumRows * NumCols);
    GreyIsReference(full, small, grey);
    var input := grey;
    r := Some(Inference(input, !invokeOk, personScore, notPersonScore, Classify(personScore)));
  }

  // ---------------------------------------------------------------------
  // The detection task
  // ---------------------------------------------------------------------

  /** Outcome of the two collaborator calls of one task cycle: whether the
      lock was obtained within 50 ticks and whether the camera delivered a
      frame. */
  datatype Cycle = Cycle(taken: bool, captured: bool)

  const CycleDelayMs: nat := 1000

  /** One iteration of `person_detection_task`: it starts by asking for
      the lock, releases the lock before it pauses, and runs an inference
      only when both the lock and a frame were obtained. */
  function DetectionCycle(c: Cycle): (t: seq<Event>)
    ensures |t| >= 3 && t[|t| - 1] == Delay(CycleDelayMs)
    ensures t[0] == (if c.taken then Take else TakeTimeout)
    ensures c.taken ==> t[|t| - 2] == Give
  {
    if c.taken then
      [Take] + (if c.captured then [FrameGet, Detect, FrameReturn] else [FrameMissing, LogError])
        + [Give, Delay(CycleDelayMs)]
    else
      [TakeTimeout, LogSkip, Delay(CycleDelayMs)]
  }

  /** The task's calls over the first `|env|` iterations of its endless
      loop. */
  function DetectionTask(env: seq<Cycle>): (t: seq<Event>)
    ensures |t| >= 3 * |env|
    ensures |env| > 0 ==> t[0] == (if env[0].taken then Take else TakeTimeout)
    ensures |env| > 0 ==> t[|t| - 1] == Delay(CycleDelayMs)
    decreases |env|
  {
    if |env| == 0 then [] else DetectionCycle(env[0]) + DetectionTask(env[1..])
  }

  /** Number of cycles in which the lock was obtained and a frame arrived. */
  function Inferences(env: seq<Cycle>): (n: nat)
    ensures n <= |env|
  {
    if |env| == 0 then 0 else (if env[0].taken && env[0].captured then 1 else 0) + Inferences(env[1..])
  }

  /** Number of cycles in which the lock was not obtained. */
  function Skips(env: seq<Cycle>): (n: nat)
    ensures n <= |env|
  {
    if |env| == 0 then 0 else (if env[0].taken then 0 else 1) + Skips(env[1..])
  }

  /** The three shapes a cycle can take each end with nothing held. */
  lemma CycleShapesBalanced()
    ensures Balanced([Take, FrameGet, Detect, FrameReturn, Give, Delay(1000)])
    ensures Balanced([Take, FrameMissing, LogError, Give, Delay(1000)])
    ensures Balanced([TakeTimeout, LogSkip, Delay(1000)])
  {
  }

  /** Each cycle ends with nothing held. */
  lemma DetectionCycleBalanced(c: Cycle)
    ensures Balanced(DetectionCycle(c))
  {
    CycleShapesBalanced();
    if c.taken && c.captured {
      assert DetectionCycle(c) == [Take, FrameGet, Detect, FrameReturn, Give, Delay(1000)];
    } else if c.taken {
      assert DetectionCycle(c) == [Take, FrameMissing, LogError, Give, Delay(1000)];
    } else {
      assert DetectionCycle(c) == [TakeTimeout, LogSkip, Delay(1000)];
    }
  }

  /** A cycle obtains a frame exactly when it obtained the lock and the
      camera delivered, and then runs one inference; it warns exactly when
      the lock was not obtained; it always pauses once. */
  lemma DetectionCycleCounts(c: Cycle)
    ensures Count(DetectionCycle(c), Detect) == (if c.taken && c.captured then 1 else 0)
    ensures Count(DetectionCycle(c), FrameGet) == (if c.taken && c.captured then 1 else 0)
    ensures Count(DetectionCycle(c), LogSkip) == (if c.taken then 0 else 1)
    ensures Count(DetectionCycle(c), Take) == (if c.taken then 1 else 0)
    ensures Count(DetectionCycle(c), Delay(CycleDelayMs)) == 1
  {
    CycleDetects(c);
    CycleFrameGets(c);
    CycleSkips(c);
    CycleTakes(c);
    CycleDelays(c);
  }

  lemma CycleDetects(c: Cycle)
    ensures Count(DetectionCycle(c), Detect) == (if c.taken && c.captured then 1 else 0)
  {
    if c.taken && c.captured {
      assert DetectionCycle(c) == [Take, FrameGet, Detect, FrameReturn, Give, Delay(1000)];
      assert Count([Take, FrameGet, Detect, FrameReturn, Give, Delay(1000)], Detect) == 1;
    } else if c.taken {
      assert DetectionCycle(c) == [Take, FrameMissing, LogError, Give, Delay(1000)];
      assert Count([Take, FrameMissing, LogError, Give, Delay(1000)], Detect) == 0;
    } else {
      assert DetectionCycle(c) == [TakeTimeout, LogSkip, Delay(1000)];
      assert Count([TakeTimeout, LogSkip, Delay(1000)], Detect) == 0;
    }
  }

  lemma CycleFrameGets(c: Cycle)
    ensures Count(DetectionCycle(c), FrameGet) == (if c.taken && c.captured then 1 else 0)
  {
    if c.taken && c.captured {
      assert DetectionCycle(c) == [Take, FrameGet, Detect, FrameReturn, Give, Delay(1000)];
      assert Count([Take, FrameGet, Detect, FrameReturn, Give, Delay(1000)], FrameGet) == 1;
    } else if c.taken {
      assert DetectionCycle(c) == [Take, FrameMissing, LogError, Give, Delay(1000)];
      assert Count([Take, FrameMissing, LogError, Give, Delay(1000)], FrameGet) == 0;
    } else {
      assert DetectionCycle(c) == [TakeTimeout, LogSkip, Delay(1000)];
      assert Count([TakeTimeout, LogSkip, Delay(1000)], FrameGet) == 0;
    }
  }

  lemma CycleSkips(c: Cycle)
    ensures Count(DetectionCycle(c), LogSkip) == (if c.taken then 0 else 1)
  {
    if c.taken && c.captured {
      assert DetectionCycle(c) == [Take, FrameGet, Detect, FrameReturn, Give, Delay(1000)];
      assert Count([Take, FrameGet, Detect, FrameReturn, Give, Delay(1000)], LogSkip) == 0;
    } else if c.taken {
      assert DetectionCycle(c) == [Take, FrameMissing, LogError, Give, Delay(1000)];
      assert Count([Take, FrameMissing, LogError, Give, Delay(1000)], LogSkip) == 0;
    } else {
      assert DetectionCycle(c) == [TakeTimeout, LogSkip, Delay(1000)];
      assert Count([TakeTimeout, LogSkip, Delay(1000)], LogSkip) == 1;
    }
  }

  lemma CycleTakes(c: Cycle)
    ensures Count(DetectionCycle(c), Take) == (if c.taken then 1 else 0)
  {
    if c.taken && c.captured {
      assert DetectionCycle(c) == [Take, FrameGet, Detect, FrameReturn, Give, Delay(1000)];
      assert Count([Take, FrameGet, Detect, FrameReturn, Give, Delay(1000)], Take) == 1;
    } else if c.taken {
      assert DetectionCycle(c) == [Take, FrameMissing, LogError, Give, Delay(1000)];
      assert Count([Take, FrameMissing, LogError, Give, Delay(1000)], Take) == 1;
    } else {
      assert DetectionCycle(c) == [TakeTimeout, LogSkip, Delay(1000)];
      assert Count([TakeTimeout, LogSkip, Delay(1000)], Take) == 0;
    }
  }

  lemma CycleDelays(c: Cycle)
    ensures Count(DetectionCycle(c), Delay(CycleDelayMs)) == 1
  {
    if c.taken && c.captured {
      assert DetectionCycle(c) == [Take, FrameGet, Detect, FrameReturn, Give, Delay(1000)];
      assert Count([Take, FrameGet, Detect, FrameReturn, Give, Delay(1000)], Delay(1000)) == 1;
    } else if c.taken {
      assert DetectionCycle(c) == [Take, FrameMissing, LogError, Give, Delay(1000)];
      assert Count([Take, FrameMissing, LogError, Give, Delay(1000)], Delay(1000)) == 1;
    } else {
      assert DetectionCycle(c) == [TakeTimeout, LogSkip, Delay(1000)];
      assert Count([TakeTimeout, LogSkip, Delay(1000)], Delay(1000)) == 1;
    }
  }

  /** The task never leaves the lock, a frame or anything else held at the
      end of a cycle, whatever the lock and the camera do. */
  lemma {:induction false} DetectionTaskBalanced(env: seq<Cycle>)
    ensures Balanced(DetectionTask(env))
    decreases |env|
  {
    if |env| == 0 {
      assert Run(Idle, []) == Some(Idle);
    } else {
      DetectionTaskBalanced(env[1..]);
      DetectionCycleBalanced(env[0]);
      BalancedAppend(DetectionCycle(env[0]), DetectionTask(env[1..]));
    }
  }

  /** One inference per cycle that obtained both the lock and a frame, one
      "camera blocked" warning per cycle without the lock, and a 1000 ms
      pause after every cycle. */
  lemma {:induction false} DetectionTaskCounts(env: seq<Cycle>)
    ensures Count(DetectionTask(env), Detect) == Inferences(env)
    ensures Count(DetectionTask(env), FrameGet) == Inferences(env)
    ensures Count(DetectionTask(env), LogSkip) == Skips(env)
    ensures Count(DetectionTask(env), Take) == |env| - Skips(env)
    ensures Count(DetectionTask(env), Delay(CycleDelayMs)) == |env|
    decreases |env|
  {
    if |env| > 0 {
      var c := DetectionCycle(env[0]);
      DetectionTaskCounts(env[1..]);
      DetectionCycleCounts(env[0]);
      CountAppend(c, DetectionTask(env[1..]), Detect);
      CountAppend(c, DetectionTask(env[1..]), FrameGet);
      CountAppend(c, DetectionTask(env[1..]), LogSkip);
      CountAppend(c, DetectionTask(env[1..]), Take);
      CountAppend(c, DetectionTask(env[1..]), Delay(CycleDelayMs));
    }
  }
}
