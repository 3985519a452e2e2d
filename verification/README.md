# ESP32 person detection and MLPerf Tiny ports — a Dafny model

This project models the logic of the ESP32 camera firmware and of the three
MLPerf Tiny benchmark ports. Camera, JPEG codec, TensorFlow Lite Micro,
allocators, Wi-Fi and HTTP are left outside the model. Each call into them
becomes an abstract outcome (success or failure, a length, a score) passed
in as a parameter. The model covers:

- **Image pipeline** (`image_pipeline.dfy`, module `ImagePipeline`), from
  `person_detection.cpp`:
  - the index and clamp rules of `image_resize_linear`: which four source
    samples each output reads, and that every output cell is written once,
    at its own index;
  - the grey quantisation `((305r + 600g + 119b) >> 10) - 128`;
  - the strict `> 50` person decision.
- **Model setup and inference** (`person_detection.dfy`, module
  `PersonDetection`):
  - `setup_person_detection_model` as an allocation trace with unwinding,
    checked against a staged reference definition and a live-buffer
    interpretation;
  - the control flow of `run_person_detection`;
  - the per-iteration trace of `person_detection_task`.
- **Camera lock protocol** (`lock_protocol.dfy`, module `LockProtocol`): one
  guard state machine that checks every event trace. It covers the mutex,
  the frame buffer and the JPEG buffer. A trace is *balanced* when it runs
  from idle back to idle. Balanced traces have equal take/give,
  get/return and JPEG alloc/free counts.
- **Stream handlers** (`webserver.dfy`, module `Webserver`): the MJPEG
  `stream_handler` and `debug_stream_handler` of `webserver.cpp`, as a
  generic serve loop over per-iteration outcomes.
- **Multipart framing** (`multipart.dfy`, module `Multipart`): the part
  header, the boundary chunk, the 64-byte `snprintf` buffer, and a parser
  that inverts the byte stream the handler emits.
- **Prototype firmware** (`prototype.dfy`, module `Prototype`): the
  `stream_handler` of `src/main.c`.
- **Startup** (`startup.dfy`, module `Startup`): `app_main` of `main.cpp`
  and of `main.c` as a plan of gates. Each gate aborts, returns or ignores
  on failure.
- **Benchmark I/O** (`benchmark.dfy`, module `Benchmark`): `th_load_tensor`
  and the `th_results` line, shared by the three ports.
- **Arena placement** (`arena_init.dfy`, module `ArenaInit`):
  `th_final_initialize` of the ESP32-S3, Arduino Giga and ESP32-WROOM-32
  ports. This includes the Giga's 16-byte alignment arithmetic on 32-bit
  addresses.
- **Shared definitions** (`common.dfy`, module `Common`): `Option`, the
  status type, byte and int8 ranges with two's-complement conversion, and
  occurrence counting.

Values that are floating point in the source are handled in one of two ways:

- The resize geometry (scale, source coordinate, fraction) uses exact
  `real` arithmetic, with `Trunc` and `Round` as the C casts.
- The dequantised result values are abstract strings.

## Model

| member | source | states |
|---|---|---|
| Common.ToInt8 | MLPerf_ESP32-S3/lib/api/submitter_implemented.cpp:159-160 | the `(int8_t)` cast yields a value in [-128,127] congruent to its argument modulo 256, and leaves in-range values unchanged |
| Common.AsInt8 | MLPerf_ESP32-S3/lib/api/submitter_implemented.cpp:163 | reading a byte through an `int8_t` pointer gives an int8 whose byte pattern is the original byte |
| ImagePipeline.FlatIndexInBuffer | ESP32-CAM_Programm/lib/person_detection/person_detection.cpp:40-41 | a row/column/channel triple inside the image has a flat index inside the `w*h*c` buffer |
| ImagePipeline.Trunc | ESP32-CAM_Programm/lib/person_detection/person_detection.cpp:46 | the `(int)` cast truncates toward zero: the result lies within one of its argument, on the side of zero |
| ImagePipeline.Round | ESP32-CAM_Programm/lib/person_detection/person_detection.cpp:72 | `round` gives the nearest integer, ties away from zero |
| ImagePipeline.ClampColumn | ESP32-CAM_Programm/lib/person_detection/person_detection.cpp:58-67 | the column index is clamped into [0, src_w-2]; an in-range index keeps its fraction, and either clamp also forces the fraction to 0 |
| ImagePipeline.ClampRow | ESP32-CAM_Programm/lib/person_detection/person_detection.cpp:48-50 | the row index is clamped into [0, src_h-2], while the row fraction is kept unchanged in every case |
| ImagePipeline.ColumnTap | ESP32-CAM_Programm/lib/person_detection/person_detection.cpp:55-68 | for any output column the two source columns read lie inside the source width |
| ImagePipeline.RowTap | ESP32-CAM_Programm/lib/person_detection/person_detection.cpp:45-50 | for any output row the two source rows read lie inside the source height |
| ImagePipeline.ReadsInBounds | ESP32-CAM_Programm/lib/person_detection/person_detection.cpp:45-72 | given source sides of at least 2, all four samples each output reads index inside the source buffer |
| ImagePipeline.FillRaster | ESP32-CAM_Programm/lib/person_detection/person_detection.cpp:40-42 | the nested row/column/channel loops write each buffer index exactly once, in increasing order, and cell (y,x,c) holds the sample computed for (y,x,c) |
| ImagePipeline.ResizeLinear | ESP32-CAM_Programm/lib/person_detection/person_detection.cpp:35-76 | the resize writes each output cell once; the cell holds the rounded bilinear blend of its four clamped source samples; a downscale of bytes yields bytes |
| ImagePipeline.IdentityResizeCopiesClampedPixel | ESP32-CAM_Programm/lib/person_detection/person_detection.cpp:49-50 | an identity-size resize copies each pixel, except that the last row and column are replaced by their clamped neighbours |
| ImagePipeline.IdentityResizeNotExact | ESP32-CAM_Programm/lib/person_detection/person_detection.cpp:58-67 | a concrete 2x2 image whose identity resize changes its bottom-right pixel |
| ImagePipeline.BlendInRange | ESP32-CAM_Programm/lib/person_detection/person_detection.cpp:72 | blending four bytes with weights in [0,1] stays within [0,255] |
| ImagePipeline.DownscaleKeepsBytes | ESP32-CAM_Programm/lib/person_detection/person_detection.cpp:37-72 | when the output is no larger than the source, every output sample of a byte image is a byte |
| ImagePipeline.UpscaleOvershoots | ESP32-CAM_Programm/lib/person_detection/person_detection.cpp:45-50 | upscaling gives a negative row fraction at the top edge, and the blend then leaves the byte range (319) |
| ImagePipeline.GreyPixel | ESP32-CAM_Programm/lib/person_detection/person_detection.cpp:211 | the grey value of any byte triple is already an int8, so the `(int8_t)` store never wraps |
| ImagePipeline.LumaIsByte | ESP32-CAM_Programm/lib/person_detection/person_detection.cpp:204-215 | the weighted sum shifted by 10 is a byte; white maps to 127 and black to -128 |
| ImagePipeline.NeutralGreyExact | ESP32-CAM_Programm/lib/person_detection/person_detection.cpp:211 | because the weights sum to 1024, an equal-channel pixel v maps exactly to v-128 |
| ImagePipeline.GreyMonotone | ESP32-CAM_Programm/lib/person_detection/person_detection.cpp:211 | raising any channel never lowers the grey value |
| ImagePipeline.QuantiseGrey | ESP32-CAM_Programm/lib/person_detection/person_detection.cpp:204-215 | pixel i of the grey buffer is the luma of RGB triple i minus 128, and every pixel is an int8 |
| ImagePipeline.ClassifyThreshold | ESP32-CAM_Programm/lib/person_detection/person_detection.cpp:236 | the report decision is monotone in the person score: a higher score never turns a person into no person |
| LockProtocol.RunAppend | ESP32-CAM_Programm/lib/webserver/webserver.cpp:50-98 | running two traces one after the other is the same as running their concatenation |
| LockProtocol.BalancedAppend | ESP32-CAM_Programm/lib/webserver/webserver.cpp:50-98 | concatenating balanced iterations yields a balanced trace |
| LockProtocol.RunCounts | ESP32-CAM_Programm/lib/webserver/webserver.cpp:52-84 | along any accepted trace, take minus give, get minus return and JPEG allocations minus frees each equal the change in the matching guard flag |
| LockProtocol.BalancedCounts | ESP32-CAM_Programm/lib/webserver/webserver.cpp:52-84 | a balanced trace has as many gives as takes, as many frame returns as gets, and as many JPEG frees as allocations |
| LockProtocol.RunSkipsNeutral | ESP32-CAM_Programm/lib/webserver/webserver.cpp:63-74 | while the lock is held, sends, logs and delays leave the guard state unchanged |
| LockProtocol.BalancedNoNullReturn | ESP32-CAM_Programm/src/main.c:97 | no balanced trace returns a null frame to the driver |
| PersonDetection.SetupPersonDetection | ESP32-CAM_Programm/lib/person_detection/person_detection.cpp:92-178 | setup reports OK exactly when the three image buffers, the schema check, the arena (unless one already exists) and `AllocateTensors` all succeed; the arena is never freed and is allocated only when absent |
| PersonDetection.SetupMemory | ESP32-CAM_Programm/lib/person_detection/person_detection.cpp:95-167 | after setup the live allocations are the three image buffers plus the arena on success; on failure they are exactly the arena, if it existed or was just allocated |
| PersonDetection.SetupMemoryImageFailure | ESP32-CAM_Programm/lib/person_detection/person_detection.cpp:95-118 | when an image buffer cannot be allocated, setup fails without touching the arena, and exactly the earlier image buffers are freed |
| PersonDetection.Unwind | ESP32-CAM_Programm/lib/person_detection/person_detection.cpp:124-167 | the unwind frees exactly the buffers held, one event each, in order |
| PersonDetection.SetupIsStaged | ESP32-CAM_Programm/lib/person_detection/person_detection.cpp:92-178 | setup equals the reference definition that runs the stages in order and, at the first failure, frees every image buffer obtained so far |
| PersonDetection.RunPersonDetection | ESP32-CAM_Programm/lib/person_detection/person_detection.cpp:180-242 | a decode failure returns before resize, quantisation and invoke; otherwise the input tensor holds the grey image, an invoke failure is only recorded, the scores are read anyway, and the decision is Person exactly when the person score exceeds 50 |
| PersonDetection.DetectionCycle | ESP32-CAM_Programm/lib/person_detection/person_detection.cpp:250-266 | an iteration opens with the lock request (a timeout when it is not obtained), gives the lock back just before pausing when it was obtained, and always ends with the 1000 ms pause |
| PersonDetection.DetectionTask | ESP32-CAM_Programm/src/main.c:38-69 | n iterations produce at least three events each; a non-empty run opens with the first lock request and ends paused |
| PersonDetection.DetectionCycleBalanced | ESP32-CAM_Programm/lib/person_detection/person_detection.cpp:250-266 | one task iteration follows the lock protocol whether or not the take and the capture succeed |
| PersonDetection.DetectionCycleCounts | ESP32-CAM_Programm/lib/person_detection/person_detection.cpp:250-266 | an iteration runs inference and gets a frame exactly when the take and the capture succeed, logs a skip exactly when the take fails, and always delays once |
| PersonDetection.DetectionTaskBalanced | ESP32-CAM_Programm/lib/person_detection/person_detection.cpp:247-267 | any number of task iterations together follow the lock protocol |
| PersonDetection.DetectionTaskCounts | ESP32-CAM_Programm/lib/person_detection/person_detection.cpp:247-267 | over any run of the task, inferences equal captured frames, skips equal failed takes, and there is one delay per iteration |
| Multipart.Decimal | ESP32-CAM_Programm/lib/webserver/webserver.cpp:63 | the `%u` rendering is a non-empty digit string without a leading zero |
| Multipart.DecimalRoundTrip | ESP32-CAM_Programm/lib/webserver/webserver.cpp:63 | parsing the rendered digits gives back the number |
| Multipart.DecimalLength | ESP32-CAM_Programm/lib/webserver/webserver.cpp:63 | a number below 10^k renders in at most k digits |
| Multipart.Snprintf | ESP32-CAM_Programm/lib/webserver/webserver.cpp:63 | `snprintf` stores a prefix of the text of at most size-1 characters, stores all of it when it fits, and returns the full length |
| Multipart.PartHeaderFits | ESP32-CAM_Programm/lib/webserver/webserver.cpp:32-38 | for any 32-bit length the part header is at most 56 characters, so the 64-byte buffer holds it untruncated |
| Multipart.PartHeaderAnnouncesLength | ESP32-CAM_Programm/lib/webserver/webserver.cpp:63 | the header formatted for a frame opens with the JPEG content type, ends with the blank line, and its `Content-Length` digits read back as the frame length |
| Multipart.PartRoundTrip | ESP32-CAM_Programm/lib/webserver/webserver.cpp:63-74 | header, image and boundary, as sent, parse back to the image and the rest of the stream |
| Multipart.StreamRoundTrip | ESP32-CAM_Programm/lib/webserver/webserver.cpp:50-98 | a stream of parts parses back to the sequence of images sent |
| Multipart.ContentTypeMatchesDelimiter | ESP32-CAM_Programm/lib/webserver/webserver.cpp:29-31 | the boundary parameter of the content type is the boundary the delimiter chunk uses, and it is a valid boundary under section 5.1.1 of RFC 2046 |
| Multipart.HeaderHasNoDelimiter | ESP32-CAM_Programm/lib/webserver/webserver.cpp:31-32 | no part header contains the delimiter, so a header cannot end a part early |
| Webserver.ServeLoop | ESP32-CAM_Programm/lib/webserver/webserver.cpp:50-98 | the loop never returns OK, and it is still streaming exactly when every iteration so far left `res` OK |
| Webserver.ServeLoopBalanced | ESP32-CAM_Programm/lib/webserver/webserver.cpp:50-98 | if every iteration follows the lock protocol, so does the whole loop |
| Webserver.ServeLoopEndsWith | ESP32-CAM_Programm/lib/webserver/webserver.cpp:94-97 | the loop breaks only right after an iteration that failed, so its trace ends the way that iteration's trace ends |
| Webserver.SendPart | ESP32-CAM_Programm/lib/webserver/webserver.cpp:63-74 | the header, body and boundary are sent in that order, each later send only after the earlier ones succeeded, and the result is OK exactly when all three succeeded |
| Webserver.DeliveredPart | ESP32-CAM_Programm/lib/webserver/webserver.cpp:63-74 | when all three sends succeed, the bytes delivered are exactly the multipart part of the frame |
| Webserver.SendsAreNeutral | ESP32-CAM_Programm/lib/webserver/webserver.cpp:63-74 | sending the part does not change the lock or buffer state |
| Webserver.StreamIteration | ESP32-CAM_Programm/lib/webserver/webserver.cpp:52-91 | an iteration leaves `res` OK exactly when the take timed out or a frame was captured and all three sends succeeded |
| Webserver.StreamHandler | ESP32-CAM_Programm/lib/webserver/webserver.cpp:35-101 | a failed content-type call returns before any event; the handler never returns OK and keeps streaming exactly while every iteration succeeds |
| Webserver.StreamIterationBalanced | ESP32-CAM_Programm/lib/webserver/webserver.cpp:52-86 | after every take the frame is returned if one was obtained and the lock is given once, whatever the sends did |
| Webserver.StreamHandlerBalanced | ESP32-CAM_Programm/lib/webserver/webserver.cpp:35-101 | over any run of the handler, gives equal takes and frame returns equal frame gets |
| Webserver.StreamHandlerExit | ESP32-CAM_Programm/lib/webserver/webserver.cpp:56-58 | when the handler exits after streaming, its last events are the lock release and the pause, so the lock is never held at exit |
| Webserver.DebugPayload | ESP32-CAM_Programm/lib/webserver/webserver.cpp:138-186 | the debug payload succeeds exactly when the full buffer exists, the JPEG conversion succeeds and all three sends succeed; without a JPEG nothing is sent |
| Webserver.DebugStreamHandler | ESP32-CAM_Programm/lib/webserver/webserver.cpp:104-219 | a failed content-type call returns before any event; the handler keeps streaming exactly while every iteration is a missed take or a full successful send |
| Webserver.DebugPayloadRestores | ESP32-CAM_Programm/lib/webserver/webserver.cpp:156-181 | the payload leaves the lock state as it found it: a JPEG buffer from a successful `fmt2jpg` is freed before the frame is returned |
| Webserver.DebugIterationBalanced | ESP32-CAM_Programm/lib/webserver/webserver.cpp:121-202 | every debug iteration follows the lock protocol |
| Webserver.DebugIteration | ESP32-CAM_Programm/lib/webserver/webserver.cpp:121-207 | an iteration succeeds exactly when the lock timed out, or a frame, the full buffer, a JPEG and all three sends succeeded; with the lock it gives it back right before the 10 ms pause, without it it pauses 5 ms |
| Webserver.DebugStreamHandlerBalanced | ESP32-CAM_Programm/lib/webserver/webserver.cpp:104-219 | over any run of the debug handler, gives equal takes, frame returns equal gets and JPEG frees equal JPEG allocations |
| Webserver.DebugSendsCarryJpeg | ESP32-CAM_Programm/lib/webserver/webserver.cpp:165-175 | every chunk the debug handler sends belongs to the part of the JPEG just encoded |
| Prototype.ProtoIteration | ESP32-CAM_Programm/src/main.c:86-104 | an iteration leaves `res` OK exactly when the take timed out or a frame was sent successfully; a null frame is returned exactly on a capture failure |
| Prototype.ProtoStreamHandler | ESP32-CAM_Programm/src/main.c:72-113 | the prototype handler never returns OK and keeps streaming exactly while every iteration succeeds |
| Prototype.ProtoIterationBalanced | ESP32-CAM_Programm/src/main.c:87-100 | an iteration without a capture failure follows the lock protocol |
| Prototype.ProtoCaptureFailureUnbalanced | ESP32-CAM_Programm/src/main.c:90-97 | a capture failure returns a frame that was never obtained, which breaks the protocol |
| Prototype.ProtoHandlerBalanced | ESP32-CAM_Programm/src/main.c:72-113 | a handler trace follows the protocol exactly when it contains no null-frame return |
| Prototype.ProtoHandlerReturns | ESP32-CAM_Programm/src/main.c:87-97 | over any run, frame returns (with or without a frame) equal takes, not successful captures |
| Prototype.ProtoNullReturnExample | ESP32-CAM_Programm/src/main.c:97 | a concrete run: one take with a failed capture returns a null frame and is unbalanced |
| Prototype.GuardedIteration | ESP32-CAM_Programm/lib/webserver/webserver.cpp:78-81 | the corrected iteration has the same `res` as the original and never returns a null frame |
| Prototype.GuardedHandlerBalanced | ESP32-CAM_Programm/lib/webserver/webserver.cpp:77-84 | with the return guarded, every run of the prototype handler follows the lock protocol, with matched takes/gives and gets/returns |
| Startup.RunGates | ESP32-CAM_Programm/src/main.cpp:29-61 | steps are attempted in plan order; a completed run attempted every step, and a stopped run ended at the last step it attempted |
| Startup.GateStops | ESP32-CAM_Programm/src/main.cpp:29-61 | a run that stops does so at a gate that failed and is not ignored, and it aborts exactly when that gate's failure aborts |
| Startup.GateReached | ESP32-CAM_Programm/src/main.cpp:29-61 | step k is attempted exactly when every earlier gate passed, and the run completes exactly when every gate passes |
| Startup.StepAttempted | ESP32-CAM_Programm/src/main.cpp:40-47 | in a plan of distinct steps a step is attempted exactly when every earlier step succeeded or is ignored on failure, so a failed camera init skips model setup and a failed model setup skips the webserver and the task |
| Startup.NvsStart | ESP32-CAM_Programm/src/main.cpp:23-28 | NVS start succeeds when the first init succeeds, or when it reports no free pages or a new version and the erase and the second init succeed; otherwise it aborts; the erase is attempted exactly on those two codes |
| Startup.TaskStartedIff | ESP32-CAM_Programm/src/main.cpp:21-61 | for a plan that ends in starting the task, the task is started exactly when NVS came up and every earlier gate passed |
| Startup.FirmwarePlan | ESP32-CAM_Programm/src/main.cpp:29-61 | the firmware plan names each step once and ends by starting the detection task |
| Startup.FirmwareGateKinds | ESP32-CAM_Programm/src/main.cpp:29-61 | in the firmware plan exactly the mutex, camera and model failures return, and only the task start is unchecked |
| Startup.FirmwareAppMain | ESP32-CAM_Programm/src/main.cpp:21-63 | NVS initialisation comes first; an early end is a return exactly when it is at the mutex, camera or model step, and never at the task start |
| Startup.FirmwareStartsTask | ESP32-CAM_Programm/src/main.cpp:21-61 | the detection task is started exactly when NVS, netif, event loop, mutex, camera, model and (when enabled) Wi-Fi and webserver all succeed |
| Startup.FirmwareMutexFailure | ESP32-CAM_Programm/src/main.cpp:33-37 | a failed mutex creation returns before camera init, model setup, webserver and task |
| Startup.FirmwareWithoutWebserver | ESP32-CAM_Programm/src/main.cpp:52-58 | with the webserver disabled, neither Wi-Fi nor the webserver is started |
| Startup.FirmwareWebserverFirst | ESP32-CAM_Programm/src/main.cpp:52-61 | when the task is started with the webserver enabled, the webserver was started before it and the task start is the last step |
| Startup.PrototypePlan | ESP32-CAM_Programm/src/main.c:162-188 | the prototype plan names each step once and ends by creating the detection task |
| Startup.PrototypeGateKinds | ESP32-CAM_Programm/src/main.c:162-188 | in the prototype plan only the mutex failure returns, and the web server and the task start are unchecked |
| Startup.PrototypeAppMain | ESP32-CAM_Programm/src/main.c:151-188 | NVS initialisation comes first; an early end is a return exactly when it is at the mutex, and never at the web server or the task start |
| Startup.PrototypeStartsTask | ESP32-CAM_Programm/src/main.c:152-189 | the prototype creates the task exactly when NVS, netif, event loop, mutex, camera and Wi-Fi succeed; a failed webserver start does not stop it |
| Startup.PrototypeMutexAndCamera | ESP32-CAM_Programm/src/main.c:166-173 | a failed mutex creation returns before camera, webserver and task; a failed camera init aborts |
| Benchmark.LoadedValue | MLPerf_ESP32-S3/lib/api/submitter_implemented.cpp:154-169 | an int8 tensor receives int8 values and a uint8 tensor receives bytes |
| Benchmark.LoadTensor | MLPerf_ESP32-S3/lib/api/submitter_implemented.cpp:143-173 | a size mismatch is only logged; IC01/VWW01 int8 gives host-128, other int8 models get the host bytes reinterpreted, uint8 gets the host bytes, and an unknown type leaves the tensor unchanged and is logged |
| Benchmark.LoadRoundTrip | MLPerf_Arduino_Giga/lib/api/submitter_implemented.cpp:162-176 | adding 128 back (or reinterpreting the byte) recovers every host byte, so the load is injective |
| Benchmark.LoadOnto | MLPerf_ESP32-Wroom-32/lib/api/submitter_implemented.cpp:159-176 | every int8 (or byte) tensor value is the load of some host byte, so the load is onto |
| Benchmark.FormatResults | MLPerf_ESP32-S3/lib/api/submitter_implemented.cpp:175-192 | the output loop prints the prefix, the values with a comma after all but the last, and the suffix; with comma-free values the line has exactly n-1 commas |
| Benchmark.JoinCommas | MLPerf_Arduino_Giga/lib/api/submitter_implemented.cpp:192-196 | joining n comma-free values puts exactly n-1 commas between them |
| Benchmark.ResultsCommas | MLPerf_ESP32-Wroom-32/lib/api/submitter_implemented.cpp:182-199 | the full results line carries exactly n-1 commas, with no trailing comma |
| Benchmark.SplitJoin | MLPerf_ESP32-S3/lib/api/submitter_implemented.cpp:184-189 | splitting the joined values at commas gives back the values |
| Benchmark.ResultsRoundTrip | MLPerf_ESP32-S3/lib/api/submitter_implemented.cpp:175-192 | a results line of non-empty comma-free values parses back to those values |
| ArenaInit.FirstFit | MLPerf_ESP32-S3/lib/api/submitter_implemented.cpp:272-292 | the regions tried are a prefix of the tier order |
| ArenaInit.FirstFitChoice | MLPerf_Arduino_Giga/lib/api/submitter_implemented.cpp:278-295 | the arena lands in the first region with room, every region tried before it failed, and when none has room all were tried |
| ArenaInit.BuildInterpreter | MLPerf_ESP32-S3/lib/api/submitter_implemented.cpp:300-313 | with an arena in place the model and interpreter are set up, and the input and output tensors are bound exactly when `AllocateTensors` succeeds |
| ArenaInit.S3FinalInit | MLPerf_ESP32-S3/lib/api/submitter_implemented.cpp:261-326 | an existing arena is kept without allocating; the model and interpreter are set up exactly when an arena exists; the tensors are bound exactly when `AllocateTensors` also succeeds |
| ArenaInit.S3Placement | MLPerf_ESP32-S3/lib/api/submitter_implemented.cpp:272-298 | internal RAM is used when it has room, PSRAM only after internal RAM failed, and initialisation goes on exactly when an arena existed or one of them had room |
| ArenaInit.WroomFinalInit | MLPerf_ESP32-Wroom-32/lib/api/submitter_implemented.cpp:254-308 | `malloc` is tried only when no arena exists; model, interpreter and tensors follow as on the S3 |
| ArenaInit.WroomPlacement | MLPerf_ESP32-Wroom-32/lib/api/submitter_implemented.cpp:261-272 | initialisation goes on exactly when an arena existed or `malloc` succeeded |
| ArenaInit.AlignArena | MLPerf_Arduino_Giga/lib/api/submitter_implemented.cpp:298 | the aligned address is a multiple of 16; without wrap-around it lies in [raw, raw+15]; when `raw + 15` wraps past the 32-bit address space it is 0 |
| ArenaInit.AlignArenaFits | MLPerf_Arduino_Giga/lib/api/submitter_implemented.cpp:274-298 | the aligned arena is a multiple of 16 within [raw, raw+15], and the arena of full size ends inside the block of size+16 bytes |
| ArenaInit.GigaFinalInit | MLPerf_Arduino_Giga/lib/api/submitter_implemented.cpp:266-323 | with the model's `kTensorArenaSize`: the model is always loaded; SDRAM mode is entered exactly when `malloc` failed; an aligned address and an interpreter exist exactly when an arena was found; the tensors are bound exactly when `AllocateTensors` also succeeds |
| ArenaInit.GigaPlacement | MLPerf_Arduino_Giga/lib/api/submitter_implemented.cpp:278-295 | SDRAM holds the arena exactly when `malloc` failed and SDRAM had room; the interpreter is built exactly when one of them had room |

## Left out

- Floating point. Bilinear weights, `round` and the resize scale use exact
  reals. The dequantised `%f` values of the results line are abstract
  strings, and `%f` formatting is not modelled.
- Foreign calls are outcomes passed in as parameters: JPEG decode and
  encode, `GetModel`, the op resolver, `Invoke`, `AllocateTensors`, the
  camera driver, Wi-Fi, HTTP registration and the IP event handler.
- Concurrency. Each task and handler is a sequential trace against an
  abstract lock. Real interleaving, tick timeouts and the length of delays
  are not modelled. The infinite loops are modelled over finite prefixes:
  one outcome per iteration.
- PersonDetection.DetectionCycle also covers `person_detection_task` of
  `src/main.c` (lines 38-69). The event shape and the 1000 ms pause are the
  same. The difference is that `run_person_detection` of `src/main.c`
  (lines 22-35) is a placeholder that only logs; the model records it as the
  same `Detect` event and does not model its body.
- ImagePipeline.ResizeLinear: for an upscale the blend can leave the byte
  range, and storing the out-of-range `round()` result into a `uint8_t` is
  undefined behaviour in C++. The contract promises bytes only for
  downscales. UpscaleOvershoots exhibits the overshoot.
- The camera resolution and the 96x96x1 input come from `model_settings.h`,
  which is not part of this model. The constants are written out in
  `person_detection.dfy`.
- The image buffers and the arena are allocated from SPIRAM only (lines
  95, 103, 112 and 136 of `person_detection.cpp`); the internal-RAM
  allocation of the arena at line 134 is commented out. The model has one
  allocation outcome per block and no fallback.
- Calling `setup_person_detection_model` a second time leaks the earlier
  image buffers. The model starts each setup from the arena state only.
- The `static` interpreter of the MLPerf ports is constructed only on the
  first call. Repeated initialisation is modelled only through the
  existing-arena flag.
- ArenaInit.GigaFinalInit: the Giga allocates anew on every call and never
  frees. The model covers one call. It also requires that the block lies
  inside the 32-bit address space. AlignArena itself models the wrap of
  `raw + 15`.
- Benchmark.LoadTensor: requires the tensor to be no longer than the host
  buffer. This stands for the `MAX_DB_INPUT_SIZE` bound of the static
  buffer. Overrunning that buffer is not modelled.
- The `th_printf` formatting buffer (256 bytes on the S3 and the Giga, 128
  on the WROOM-32) and the serial transport are left out. The results line
  is modelled as the text printed.
- The debug stream encodes the full 320x240 RGB888 frame, not the 96x96 input.
  The model abstracts the JPEG to its length, so the frame size does not
  matter.
- The prototype `stream_handler` ignores the results of setting the content
  type and header, and sends raw frames under `image/jpeg` without part
  framing. The model records them as raw-image chunks.
- `start_camera_webserver` registers the two handlers after `httpd_start`.
  Startup models it as one gate that aborts on failure, through
  `ESP_ERROR_CHECK`.

## Findings

| source | as written | input that shows it | evidently intended | confidence | as-written member | corrected member |
|---|---|---|---|---|---|---|
| ESP32-CAM_Programm/src/main.c:97 | `esp_camera_fb_return(fb)` is called after every successful take, even when `esp_camera_fb_get` returned NULL | one iteration: the take succeeds and the capture returns NULL | return the frame only when one was obtained, as `webserver.cpp` lines 78-81 do | not executed | Prototype.ProtoNullReturnExample | Prototype.GuardedHandlerBalanced |
