/** `th_final_initialize` of the three MLPerf Tiny ports: placing the
    tensor arena in one of the board's memories, building the interpreter
    and binding the input and output tensors. The allocators, the model
    loader and `AllocateTensors` are inputs of the model. */
module ArenaInit {
  import opened Common
  import opened Benchmark

  /** The three boards. */
  datatype Port = EspS3 | ArduinoGiga | EspWroom

  /** The `kTensorArenaSize` each port reserves for each model. */
  function TensorArenaSize(p: Port, m: ModelVersion): (n: nat)
    ensures n >= 30 * 1024
  {
    match p
    case EspS3 =>
      (match m case IC01 => 200 * 1024 case KWS01 => 150 * 1024 case VWW01 => 300 * 1024
               case AD01 => 100 * 1024 case STRWW01 => 100 * 1024)
    case ArduinoGiga =>
      (match m case IC01 => 1024 * 1024 case KWS01 => 100 * 1024 case VWW01 => 350 * 1024
               case AD01 => 100 * 1024 case STRWW01 => 100 * 1024)
    case EspWroom =>
      (match m case IC01 => 110 * 1024 case KWS01 => 100 * 1024 case VWW01 => 200 * 1024
               case AD01 => 50 * 1024 case STRWW01 => 30 * 1024)
  }

  /** The memories an arena can be placed in. */
  datatype Region = Internal | Psram | Sdram

  /** The regions tried, in order, and the one that held the arena. */
  datatype Allocation = Allocation(tried: seq<Region>, got: Option<Region>)

  /** Tries the regions of `tiers` in order until an allocation succeeds;
      `ok` says which regions have room. */
  function FirstFit(tiers: seq<Region>, ok: Region -> bool): (a: Allocation)
    ensures |a.tried| <= |tiers| && a.tried == tiers[..|a.tried|]
    decreases |tiers|
  {
    if |tiers| == 0 then Allocation([], None)
    else if ok(tiers[0]) then Allocation([tiers[0]], Some(tiers[0]))
    else
      var rest := FirstFit(tiers[1..], ok);
      Allocation([tiers[0]] + rest.tried, rest.got)
  }

  /** The arena lands in the first region with room: every region tried
      before it failed, and when none has room every region was tried. */
  lemma {:induction false} FirstFitChoice(tiers: seq<Region>, ok: Region -> bool)
    ensures FirstFit(tiers, ok).got.Some? ==>
      |FirstFit(tiers, ok).tried| > 0
      && FirstFit(tiers, ok).got.value == FirstFit(tiers, ok).tried[|FirstFit(tiers, ok).tried| - 1]
      && ok(FirstFit(tiers, ok).got.value)
    ensures forall j :: 0 <= j < |FirstFit(tiers, ok).tried| - 1 ==> !ok(FirstFit(tiers, ok).tried[j])
    ensures FirstFit(tiers, ok).got.None? ==>
      FirstFit(tiers, ok).tried == tiers && forall j :: 0 <= j < |tiers| ==> !ok(tiers[j])
    decreases |tiers|
  {
    if |tiers| > 0 && !ok(tiers[0]) {
      FirstFitChoice(tiers[1..], ok);
      var rest := FirstFit(tiers[1..], ok);
      var a := FirstFit(tiers, ok);
      assert a.tried == [tiers[0]] + rest.tried;
      forall j | 0 < j < |a.tried|
        ensures a.tried[j] == rest.tried[j - 1]
      {
      }
      if rest.got.None? {
        forall j | 0 < j < |tiers|
          ensures !ok(tiers[j])
        {
          assert tiers[j] == tiers[1..][j - 1];
        }
      }
    }
  }

  /** What initialisation leaves behind. */
  datatype InitState = InitState(arena: Option<Region>, modelLoaded: bool, interpreterBuilt: bool, ioBound: bool)

  datatype InitRun = InitRun(tried: seq<Region>, state: InitState)

  /** The interpreter and the tensors after an arena is in place: the
      input and output tensors are bound only when `AllocateTensors`
      succeeds. */
  function BuildInterpreter(arena: Region, allocateOk: bool): (s: InitState)
    ensures s.arena == Some(arena) && s.modelLoaded && s.interpreterBuilt
    ensures s.ioBound <==> allocateOk
  {
    InitState(Some(arena), true, true, allocateOk)
  }

  /** The ESP32-S3 port: when no arena exists yet it tries internal RAM,
      then PSRAM; with neither it returns before loading the model. */
  function S3FinalInit(arena0: Option<Region>, ok: Region -> bool, allocateOk: bool): (r: InitRun)
    ensures arena0.Some? ==> r.tried == [] && r.state.arena == arena0
    ensures r.state.modelLoaded <==> r.state.arena.Some?
    ensures r.state.interpreterBuilt <==> r.state.arena.Some?
    ensures r.state.ioBound <==> r.state.arena.Some? && allocateOk
  {
    var a := if arena0.Some? then Allocation([], arena0) else FirstFit([Internal, Psram], ok);
    match a.got
    case None => InitRun(a.tried, InitState(None, false, false, false))
    case Some(region) => InitRun(a.tried, BuildInterpreter(region, allocateOk))
  }

  /** Where the ESP32-S3 arena ends up: PSRAM is tried only after internal
      RAM failed, and initialisation goes on exactly when one of them had
      room or an arena already existed. */
  lemma S3Placement(arena0: Option<Region>, ok: Region -> bool, allocateOk: bool)
    ensures arena0.None? ==>
      (S3FinalInit(arena0, ok, allocateOk).state.arena == Some(Internal) <==> ok(Internal))
      && (S3FinalInit(arena0, ok, allocateOk).state.arena == Some(Psram) <==> !ok(Internal) && ok(Psram))
      && (Psram in S3FinalInit(arena0, ok, allocateOk).tried <==> !ok(Internal))
    ensures S3FinalInit(arena0, ok, allocateOk).state.arena.Some? <==> arena0.Some? || ok(Internal) || ok(Psram)
  {
    if arena0.None? {
      var a := FirstFit([Internal, Psram], ok);
      FirstFitChoice([Internal, Psram], ok);
      assert a.tried == [Internal, Psram][..|a.tried|];
      if ok(Internal) {
        assert a.tried == [Internal];
      } else {
        assert a.tried[0] == Internal;
        assert |a.tried| == 2;
      }
    }
  }

  /** The ESP32-WROOM-32 port: a single `malloc` when no arena exists
      yet, and a return before the model when it fails. */
  function WroomFinalInit(arena0: Option<Region>, ok: Region -> bool, allocateOk: bool): (r: InitRun)
    ensures arena0.Some? ==> r.tried == [] && r.state.arena == arena0
    ensures arena0.None? ==> r.tried == [Internal]
    ensures r.state.modelLoaded <==> r.state.arena.Some?
    ensures r.state.interpreterBuilt <==> r.state.arena.Some?
    ensures r.state.ioBound <==> r.state.arena.Some? && allocateOk
  {
    var a := if arena0.Some? then Allocation([], arena0) else FirstFit([Internal], ok);
    match a.got
    case None => InitRun(a.tried, InitState(None, false, false, false))
    case Some(region) => InitRun(a.tried, BuildInterpreter(region, allocateOk))
  }

  lemma WroomPlacement(arena0: Option<Region>, ok: Region -> bool, allocateOk: bool)
    ensures WroomFinalInit(arena0, ok, allocateOk).state.arena.Some? <==> arena0.Some? || ok(Internal)
    ensures arena0.None? && ok(Internal) ==> WroomFinalInit(arena0, ok, allocateOk).state.arena == Some(Internal)
  {
    if arena0.None? {
      FirstFitChoice([Internal], ok);
    }
  }

  // ---------------------------------------------------------------------
  // The Arduino Giga port
  // ---------------------------------------------------------------------

  /** Addresses are 32-bit. */
  const AddressSpace: nat := 0x1_0000_0000

  /** The slack added to the request so that a 16-byte aligned arena of
      the full size fits in the block. */
  const AlignSlack: nat := 16

  /** `(uintptr_t)(raw + 15) & ~15`: the sum wraps at the address width,
      and clearing the four low bits of an unsigned value subtracts its
      remainder modulo 16. */
  function AlignArena(raw: nat): (a: nat)
    requires raw < AddressSpace
    ensures a % 16 == 0
    ensures raw + 15 < AddressSpace ==> raw <= a <= raw + 15
    ensures raw + 15 >= AddressSpace ==> a == 0
  {
    var bumped := (raw + 15) % AddressSpace;
    bumped - bumped % 16
  }

  /** The aligned arena is a multiple of 16 within the first 16 bytes of
      the block, and the whole arena lies inside the block of
      `size + 16` bytes. */
  lemma AlignArenaFits(raw: nat, size: nat)
    requires raw + size + AlignSlack <= AddressSpace
    ensures AlignArena(raw) % 16 == 0
    ensures raw <= AlignArena(raw) <= raw + 15
    ensures AlignArena(raw) + size <= raw + size + AlignSlack
  {
    assert (raw + 15) % AddressSpace == raw + 15;
  }

  /** The Giga run: the regions tried, whether SDRAM mode was entered, the
      aligned arena address, and the resulting state. */
  datatype GigaRun = GigaRun(run: InitRun, usingSdram: bool, address: Option<nat>)

  /** The Arduino Giga port: the model and the operators are set up
      first; `malloc` of the arena plus slack is tried, then SDRAM. There
      is no check for an earlier arena, so every call allocates anew. */
  function GigaFinalInit(ok: Region -> bool, raw: nat, m: ModelVersion, allocateOk: bool): (g: GigaRun)
    requires raw + TensorArenaSize(ArduinoGiga, m) + AlignSlack <= AddressSpace
    ensures g.run.state.modelLoaded
    ensures g.usingSdram <==> !ok(Internal)
    ensures g.run.state.interpreterBuilt <==> g.run.state.arena.Some?
    ensures g.address.Some? <==> g.run.state.arena.Some?
    ensures g.run.state.ioBound <==> g.run.state.arena.Some? && allocateOk
    ensures g.address.Some? ==>
      g.address.value % 16 == 0 && raw <= g.address.value
      && g.address.value + TensorArenaSize(ArduinoGiga, m) <= raw + TensorArenaSize(ArduinoGiga, m) + AlignSlack
  {
    var size := TensorArenaSize(ArduinoGiga, m);
    var a := FirstFit([Internal, Sdram], ok);
    var sdram := !ok(Internal);
    match a.got
    case None => GigaRun(InitRun(a.tried, InitState(None, true, false, false)), sdram, None)
    case Some(region) =>
      AlignArenaFits(raw, size);
      GigaRun(InitRun(a.tried, BuildInterpreter(region, allocateOk)), sdram, Some(AlignArena(raw)))
  }

  /** The Giga falls back to SDRAM exactly when `malloc` failed, and it
      builds an interpreter exactly when one of the two had room. */
  lemma GigaPlacement(ok: Region -> bool, raw: nat, m: ModelVersion, allocateOk: bool)
    requires raw + TensorArenaSize(ArduinoGiga, m) + AlignSlack <= AddressSpace
    ensures GigaFinalInit(ok, raw, m, allocateOk).run.state.arena == Some(Sdram) <==> !ok(Internal) && ok(Sdram)
    ensures GigaFinalInit(ok, raw, m, allocateOk).run.state.arena == Some(Internal) <==> ok(Internal)
    ensures GigaFinalInit(ok, raw, m, allocateOk).run.state.interpreterBuilt <==> ok(Internal) || ok(Sdram)
    ensures GigaFinalInit(ok, raw, m, allocateOk).usingSdram ==> Sdram in GigaFinalInit(ok, raw, m, allocateOk).run.tried
  {
    var a := FirstFit([Internal, Sdram], ok);
    FirstFitChoice([Internal, Sdram], ok);
    assert a.tried == [Internal, Sdram][..|a.tried|];
    if ok(Internal) {
      assert a.tried == [Internal];
    } else {
      assert a.tried[0] == Internal;
      assert |a.tried| == 2;
    }
  }
}
