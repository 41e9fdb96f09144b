# Models and proofs for catkit2

catkit2 controls optical testbeds: services exchange frames through shared-memory streams, a testbed
process starts and stops them, a simulator stands in for hardware, and a safety monitor watches over it
all. This project models the stateful parts of that system in Dafny 4.11 and proves what their users
rely on. `dafny verify dfyconfig.toml` checks everything.

## What is modelled

- **The frame ring** (`FrameRing`, `OutstandingRequests`, `Readers`, `DataStreams`). A rolling buffer
  addressed by `id % N` with the counters FirstId, LastId and NextRequestId. `FrameRing` has the writer's
  steps on values and a log of everything published; `OutstandingRequests` drops its assumption that each
  frame is published before the next is requested; `Readers` interleaves a reader's accesses with the
  writer's steps one shared access at a time; `DataStreams` has the class that updates header and bytes in
  place, each method tied to those functions.
- **Publication and waiting** (`Publication`, `Wakeups`, `Waiting`). The compare-and-exchange loop that
  raises LastId, the mutex and condition variable with any number of threads and spurious or timed
  wake-ups, and the wait loop of one reader.
- **Taking exposures** (`Exposures`), a client of the ring.
- **The testbed** (`Dependencies`, `Launching`, `ShuttingDown`, `ShutdownTiming`, `Testbeds`). Dependency
  set-up with the safety edges, the circular dependency check, the recursive start of a service with what it
  needs, and the shutdown loop with its escalation, its leniency and its Ctrl+C path. Which processes exist,
  what the clock says and when Ctrl+C is pressed are inputs.
- **The optical model** (`OpticalModels`, `CachedModels`). Evaluation of planes with no cache is the
  reference; the class with its cache, purging and pins is proved to return the same.
- **The simulator** (`Simulators`, `SimulatedTime`, `CameraChains`, `SimulatorServices`). Pending callbacks,
  throttled simulated time and the reset/readout chains of cameras. `Simulators` has what holds for any
  settings, `SimulatedTime` the order of callbacks and when time goes back, `CameraChains` the exposures of one
  camera over whole runs. Light, wall clock and commands are inputs.
- **The fail-safe chain** (`Safety`), **the value codec** (`Codec`, `Tensors`) and **the deformable mirror**
  (`Mirrors`), the latter in exact real arithmetic.

Behaviour that surprised us and is stated as it is in the code, each with the exact condition under which it
occurs and, where one is not immediate, a run that reaches it:

- with several outstanding requests the window can outgrow the buffer for good, and available frames are
  overwritten (`OutstandingRequests.AlwaysContainedWhen`, `OvergrownWindowStays`, `OverlapExactly`);
- a reader overtaken after its wait gets another frame under the old id
  (`Readers.OvertakenWaiterGetsNewerFrame`, `FrameRing.WhatALateReaderSees`);
- a frame that arrives as the waiting time runs out is not returned (`Waiting.FrameAtDeadlineIsMissed`);
- exposures taken on a camera that was not acquiring may begin with an old frame, although the comment in
  the code says they cannot (`Exposures.OldFrameIsTakenWhen`);
- starting a camera that is already integrating silences it (`CameraChains.StallsExactlyWhenRestarted`,
  `StalledCameraStaysStalled`);
- a frame interval shorter than the exposure, a negative exposure, or a callback added for an earlier time sends
  simulated time backwards (`SimulatedTime.StepLeavesNothingPast`, `TimeGoesBackExactly`);
- registering a cached plane again may leave its old wavefronts in the cache
  (`OpticalModels.StaleAfterRegistering`);
- with 256 safeties or more nothing is ever safe (`Safety.TooManySafetiesAreNeverSafe`).

## Model

| member | source | states |
|---|---|---|
| `FrameRing.RunKeepsInv` | catkit_core/DataStream.cpp:147-292 | Along every run of a writer that publishes each frame before the next request or reconfiguration: FirstId = max(base, claimed ids − N), LastId = number of published frames, NextRequestId is LastId or LastId + 1, every available slot holds the bytes and time stamp published under its id, and the log of published frames only grows |
| `FrameRing.StepKeepsInv` | catkit_core/DataStream.cpp:147-191 | Each single step (evict, take an id, store a byte, stamp, publish, reconfigure) keeps all of that; a slot keeps its record until it is handed out again, also after its id was evicted |
| `FrameRing.WindowIsLaidOut` | catkit_core/DataStream.cpp:45-62 | Any two ids that are available or being filled occupy disjoint byte ranges inside the allocation, after any reconfigurations |
| `FrameRing.FrameViewFillsItsSlot` | catkit_core/DataStream.cpp:45-62 | The size a frame view computes from its four padded dimensions is the slot size the layout reserved |
| `FrameRing.LayoutShowsShape` | catkit_core/DataStream.cpp:45-62 | Every layout that is made has the type, rank, dimensions and frame count asked for, ones beyond the rank, and the counts of that shape; none is made of more than four dimensions or twenty frames |
| `FrameRing.SlotsGoRound` | catkit_core/DataStream.cpp:155 | Ids go round the slots: the first N fill slots 0 to N − 1, each id is followed by the next slot or slot 0, and consecutive slots are adjacent bytes |
| `FrameRing.SubmitIsARun` | catkit_core/DataStream.cpp:215-227 | SubmitData is a run of these steps and appends exactly the submitted bytes and time to the log |
| `FrameRing.NewestIsAvailableWhen` | catkit_core/DataStream.cpp:269-292 | The newest id is available if and only if a frame was published since the last reconfiguration and, with a single slot, no request is under way |
| `FrameRing.ViewStaysIntact` | catkit_core/DataStream.cpp:339-347 | A view of a published frame keeps its bytes and stamp through the next id + N − NextRequestId requests, even after eviction |
| `FrameRing.GraceIsExact` | catkit_core/DataStream.cpp:149-162 | The request after those hands out that very slot, whatever the frame size; for the newest frame of an idle writer the grace is N − 1 requests |
| `FrameRing.WhatALateReaderSees` | catkit_core/DataStream.cpp:333-347 | At any point of the writer, without a new look at FirstId: the slot of an id holds the newest published frame sharing the slot unless that slot is being filled, which is decided by the counters; it is the requested frame if and only if at most N − 1 frames were published after it, which between frames is availability |
| `OutstandingRequests.OverlapExactly` | catkit_core/DataStream.cpp:149-155 | Without the discipline, for every window: a request hands out the slot of an available frame if and only if the window exceeds the buffer or (outstanding mod N) + min(window, N − 1) ≥ N |
| `OutstandingRequests.TwoOutstandingOverlap` | catkit_core/DataStream.cpp:149-155 | A concrete case: two outstanding requests on a two-slot ring overwrite an available frame |
| `OutstandingRequests.AlwaysContainedWhen` | catkit_core/DataStream.cpp:149-191 | Along any run of requests, publications in any order and reconfigurations, no publication can make the window larger than the buffer if and only if at each request everything requested was published or fewer than N ids from FirstId on were handed out, and each new buffer holds what is outstanding |
| `OutstandingRequests.ActContainedWhen` | catkit_core/DataStream.cpp:149-191 | The same for one call: the guard checked before it decides whether the window can outgrow the buffer after it |
| `OutstandingRequests.OverlapsWithoutRoom` | catkit_core/DataStream.cpp:149-155 | As long as the window cannot outgrow the buffer, a request overwrites an available frame if and only if that guard fails and a frame is available |
| `OutstandingRequests.OvergrownWindowStays` | catkit_core/DataStream.cpp:150-151 | Because the eviction test is an equality, along every run from a window larger than the buffer FirstId stands still, the window stays too large and every request hands out the slot of an available frame, until a reconfiguration |
| `OutstandingRequests.InOrderOutgrows` | catkit_core/DataStream.cpp:149-155 | A concrete case: two requests at once on a full two-slot ring, published in order, give a window of three |
| `OutstandingRequests.OutOfOrderOutgrows` | catkit_core/DataStream.cpp:180-189 | A concrete case on a single slot: two requests at once and the second id published |
| `FrameRing.SlotsAreDisjoint` | catkit_core/DataStream.cpp:155 | Different slots are disjoint byte ranges for every frame size and frame count |
| `FrameRing.Offset` | catkit_core/DataStream.cpp:155 | A slot never reaches past the frames-times-frame-size area |
| `DataStreams.CalculateBufferSize` | catkit_core/DataStream.cpp:45-62 | The loop over the dimensions computes the specified layout or error |
| `DataStreams.DataStream.Create` | catkit_core/DataStream.cpp:86-123 | Fails exactly for more than four dimensions or more than twenty frames; otherwise the header shows the shape, type and frame count asked for, all counters are zero and the allocation is exactly the frames |
| `DataStreams.DataStream.Open` | catkit_core/DataStream.cpp:130-145 | The handle starts reading at LastId |
| `DataStreams.DataStream.RequestNewFrame` | catkit_core/DataStream.cpp:147-168 | The new header state and the view of the slot handed out |
| `DataStreams.DataStream.SubmitFrame` | catkit_core/DataStream.cpp:170-191 | Stamps the slot of the id and raises LastId to at least id + 1, changing nothing else |
| `DataStreams.DataStream.SubmitData` | catkit_core/DataStream.cpp:215-227 | The whole new ring equals the specified submission of these bytes and time |
| `DataStreams.DataStream.UpdateParameters` | catkit_core/DataStream.cpp:269-292 | Succeeds exactly for at most four dimensions and twenty frames that fit the allocation; then the header shows the shape, type and frame count asked for and the window is empty, otherwise nothing changes |
| `DataStreams.DataStream.GetFrame` | catkit_core/DataStream.cpp:319-348 | Which of the four outcomes occurs is decided exactly by the window; a returned view has the id, the type and dimensions in the header, the time stamp of its slot, and starts there |
| `DataStreams.DataStream.ReadFrame` | catkit_core/DataStream.cpp:339-347 | After the wait the slot of the id is returned whatever the window says |
| `DataStreams.DataStream.GetNextFrame` | catkit_core/DataStream.cpp:350-381 | Aims for the chosen id, never below the cursor; the window alone decides between the view, either failure and waiting; success moves the cursor just past the id, anything else leaves it |
| `DataStreams.DataStream.FinishNextFrame` | catkit_core/DataStream.cpp:377-381 | After a granted wait the slot of the id is returned and the cursor moved just past it, whatever happened to the window meanwhile |
| `DataStreams.DataStream.GetLatestFrame` | catkit_core/DataStream.cpp:383-389 | Succeeds exactly when the stream has a frame and the newest one is in the window |
| `Readers.Choose` | catkit_core/DataStream.cpp:350-375 | The first id from the cursor on that is not older than the newest frame, or in oldest-first mode than the oldest |
| `Readers.ReadersGoForward` | catkit_core/DataStream.cpp:350-381 | Across all interleavings of writer and reader steps, mode switches and reconfigurations: returned ids strictly increase, were published, and carry the published record whenever the id was still in the window at the read |
| `Readers.OldestFirstSkipsOnlyEvicted` | catkit_core/DataStream.cpp:367-374 | In oldest-first mode every id since Open that the reader passed was returned or had been evicted |
| `Readers.EveryFrameInOrder` | catkit_core/DataStream.cpp:130-145 | If the writer stays within N of the cursor whenever the window is sampled, an oldest-first reader gets every id from Open on, once and in order, even when overtaken between wait and read; a frame still in the window at its read has the submitted contents |
| `Readers.EveryFrameAsPublished` | catkit_core/DataStream.cpp:130-145 | If moreover no frame is read after its slot was handed out again, all frames have the submitted bytes and time stamps |
| `Readers.UndisturbedCallIsARun` | catkit_core/DataStream.cpp:350-381 | One GetNextFrame call with no writer step in between: returns the chosen frame and moves past it if it is available, waits exactly if it is yet to come and waiting is allowed, and otherwise leaves the reader as it was |
| `Readers.NewestOnlyAimsFor` | catkit_core/DataStream.cpp:350-366 | A newest-only call aims for the last frame published unless the reader is past it, and on a stream without frames for the reader's own cursor |
| `Readers.FirstFrameOfNewStream` | catkit_core/DataStream.cpp:350-423 | A newest-only reader waiting on a new stream gets the first frame published, with its contents |
| `Readers.OvertakenWaiterGetsNewerFrame` | catkit_core/DataStream.cpp:333-347 | A reader overtaken between its wait and its read gets the next frame under the old id |
| `Publication.RaisesToMaximum` | catkit_core/DataStream.cpp:180-189 | Any interleaving of read and compare-and-exchange steps: LastId never goes down, a submitter fails at most id + 1 − LastId times, and when all are finished LastId is the largest of its old value and every submitted id plus one |
| `Publication.StepKeepsInv` | catkit_core/DataStream.cpp:183-189 | Each read or exchange step keeps the invariant behind that |
| `Wakeups.NoLostWakeup` | catkit_core/Synchronization.cpp:157-187 | With any number of readers and submitters, whenever the mutex is free no reader is parked whose frame has been published; a wait that returned normally had LastId > id |
| `Wakeups.PublishedReaderCanReturn` | catkit_core/Synchronization.cpp:157-208 | With the mutex free, a waiting reader whose frame is published is awake and returns within three steps of its own |
| `Wakeups.StepKeepsInv` | catkit_core/DataStream.cpp:176-191 | Each lock, park, refused or ended wait, read, exchange, broadcast and unlock step keeps the invariant behind that |
| `Wakeups.SubmitterNeverRetries` | catkit_core/DataStream.cpp:176-189 | With the mutex held, in every reachable state the compare and exchange succeeds at the first attempt and raises LastId |
| `Waiting.Wait` | catkit_core/Synchronization.cpp:157-187 | The loop ends as specified: it returns normally exactly at the first test that finds LastId > id with no expiry and no thrown error before it; the other endings are characterised too |
| `Waiting.FrameAtDeadlineIsMissed` | catkit_core/Synchronization.cpp:180-186 | When a wait wakes up with its frame published, at whatever test it is, it returns the frame if and only if time has not run out in that slice and the error callback does not throw; in the first case it fails as expired |
| `Waiting.ExpiresExactly` | catkit_core/Synchronization.cpp:180-183 | A wait fails as expired if and only if, at a test that found no frame, the timed wait had run out with more than the timeout passed: never earlier |
| `Waiting.FrameMissedByOneSlice` | catkit_core/Synchronization.cpp:180-183 | A concrete case: the frame is there and the wait still fails |
| `Exposures.TakeRawExposures` | catkit2/testbed/proxies/camera.py:7-38 | Yields strictly increasing ids, ends exactly when the requested number has been yielded or the caller closes it, and in both cases stops the acquisition if and only if it started it |
| `Exposures.TakenAreObtained` | catkit2/testbed/proxies/camera.py:21-35 | Taken from a ring that is being written, the yielded ids are those of the calls that the window and the waits let return |
| `Exposures.YieldedAfterTheCall` | catkit2/testbed/proxies/camera.py:13-19 | When the camera was acquiring, no yielded frame had been requested when the newest id was sampled, whatever the writer does; and exactly how many later ones are skipped: one, none if one was in flight, one more on a stream that never had a frame |
| `Exposures.OneLessIsTooFew` | catkit2/testbed/proxies/camera.py:15-19 | Skipping one frame instead of two would reach a requested id exactly when a frame is in flight |
| `Exposures.OldFrameIsTakenWhen` | catkit2/testbed/proxies/camera.py:10-35 | When the camera was not acquiring, for any writer steps between the call, the sampling and the looks: an old frame is yielded if and only if one is wanted, none was published between call and sampling, and at the first look the stream was not reconfigured and fewer than N newer ids were claimed; then it comes first, is the only one, and carries the last record of the earlier acquisition |
| `Exposures.FirstFrameIsOldWhen` | catkit2/testbed/proxies/camera.py:10-19 | For a look right after the sampling: the id asked for is old and available if and only if nothing was published since the call, the stream had a frame since its last reconfiguration, and no request is under way on a single slot |
| `Exposures.OldFrameIsTaken` | catkit2/testbed/proxies/camera.py:10-34 | Reached from a new stream: one earlier frame, and the exposure taken next is that frame |
| `Exposures.ObtainedIsIncreasing` | catkit2/testbed/proxies/camera.py:21-35 | The yielded ids increase strictly |
| `Exposures.ObtainedWereAskedFor` | catkit2/testbed/proxies/camera.py:21-35 | Only ids asked for and obtained are yielded, at most as many as wanted |
| `Exposures.NothingObtainedIsDropped` | catkit2/testbed/proxies/camera.py:21-35 | A frame that was returned is not yielded only if all that were wanted had been yielded before it |
| `Testbeds.IsFreeOfCycles` | catkit2/testbed/testbed.py:257-275 | The layer-peeling loop terminates, accepts exactly the graphs with a topological rank and rejects exactly those with a cycle |
| `Testbeds.DependentsOf` | catkit2/testbed/testbed.py:244-254 | The inverted graph has exactly the declared edges and the safety edges; it fails exactly when some service or the safety service cannot be resolved, and the error names it |
| `Testbeds.Testbed.Create` | catkit2/testbed/testbed.py:233-275 | A testbed is set up with an acyclic graph; a circularity error means every form of the graph has a cycle |
| `Testbeds.NextLayer` | catkit2/testbed/testbed.py:259-268 | A layer holds exactly the remaining services no remaining service depends on |
| `Dependencies.StuckHasCycle` | catkit2/testbed/testbed.py:270-272 | A nonempty set in which every service has a dependent contains a real cycle |
| `Dependencies.CycleHasNoRank` | catkit2/testbed/testbed.py:270-272 | A graph with a cycle has no topological rank |
| `Dependencies.SomeServiceIsFree` | catkit2/testbed/testbed.py:765-794 | In an acyclic graph some remaining service has no remaining dependent |
| `Testbeds.Testbed.OnStartService` | catkit2/testbed/testbed.py:578-709 | With running services closed under dependencies: success exactly when the testbed is not shutting down, the service is known and every dead service reachable from it can be launched; then exactly those were launched, each once, the service itself if and only if it was closed, crashed or failed safe, and the running services are closed again |
| `Testbeds.Testbed.StartService` | catkit2/testbed/testbed.py:595-709 | For any state: only dead reachable services are launched, each once, nothing else changes, and an error has a named reason |
| `Launching.ExactSearch` | catkit2/testbed/testbed.py:603-709 | What start_service launches is exactly the set of dead services reachable along dependencies |
| `Launching.DeadStatesAreLaunched` | catkit2/testbed/testbed.py:603-605 | By name: reachable services that are closed, crashed or failed safe are launched and become initializing; a service in any other state stays in it |
| `Launching.LaunchesAddUp` | catkit2/testbed/testbed.py:707-709 | Launching for a dependency extends, and never repeats, what was launched before |
| `Testbeds.Testbed.ShutDownAllServices` | catkit2/testbed/testbed.py:758-817 | The table and the events equal the specified run; a signal to a service comes after every service that declares it, or that requires safety if it is the safety service, was seen gone; signals come in order; without a second Ctrl+C successive signals to a service are more than 60 seconds apart, and forced ones answer a second Ctrl+C; a cooperative environment empties the table within four passes per service and per layer |
| `ShuttingDown.ShutdownOrder` | catkit2/testbed/testbed.py:768-844 | Over every run, with any process deaths, clocks and Ctrl+C: a signal goes to a service only after each direct dependent was seen without a process, and each service gets stop, interrupt, terminate at most once and in that order |
| `ShuttingDown.ShutdownEnds` | catkit2/testbed/testbed.py:768-794 | On an acyclic graph the remaining passes are bounded by the remaining escalation steps |
| `ShuttingDown.ShutdownWithinFourPassesEach` | catkit2/testbed/testbed.py:768-844 | Hence the loop empties the table within four passes per service |
| `ShuttingDown.ShutdownWithinFourPassesPerLayer` | catkit2/testbed/testbed.py:768-844 | The stronger bound: four passes per layer of the graph, however many services share a layer |
| `ShutdownTiming.PatientShutdown` | catkit2/testbed/testbed.py:819-844 | Over every run in which Ctrl+C is never pressed twice, any two successive signals to a service are more than 60 seconds apart |
| `ShutdownTiming.SignalsAreTimely` | catkit2/testbed/testbed.py:787-844 | Over every run each unforced signal follows the previous one to that service by more than 60 seconds, each forced one by some time |
| `ShutdownTiming.RunForcesOnlyAsAsked` | catkit2/testbed/testbed.py:795-817 | Every forced signal answers a second Ctrl+C in a round in which the service was seen alive |
| `ShutdownTiming.LeftAloneWithinAMinute` | catkit2/testbed/testbed.py:826-844 | A service seen alive within 60 seconds of its last signal keeps its entry and is sent nothing |
| `ShutdownTiming.SignalledAfterAMinute` | catkit2/testbed/testbed.py:819-844 | One seen alive later, with no dependent left, gets its next signal in that very pass |
| `ShutdownTiming.ForcedAtOnce` | catkit2/testbed/testbed.py:813-817 | A second Ctrl+C gives each service being waited for its next signal at once |
| `ShutdownTiming.OthersAreNotForced` | catkit2/testbed/testbed.py:797-811 | Forcing leaves services that are gone or still have a dependent as they are |
| `ShuttingDown.ForceEntry` | catkit2/testbed/testbed.py:813-817 | Forcing escalates exactly the services that are being waited for |
| `ShuttingDown.PassEntry` | catkit2/testbed/testbed.py:772-791 | No pass sets a service back, and one without remaining dependents makes progress |
| `Testbeds.Testbed.ForceShutdown` | catkit2/testbed/testbed.py:795-817 | The two loops of the forced path equal the specified forcing |
| `Testbeds.Testbed.SweepServices` | catkit2/testbed/testbed.py:770-791 | One pass over all services and the removal of those seen to be gone equals the specified pass, whose waiting is fixed by `ShutdownTiming.LeftAloneWithinAMinute` and `ShutdownTiming.SignalledAfterAMinute` |
| `CachedModels.OpticalModel.GetWavefronts` | catkit2/simulator/optical_model.py:187-212 | The memoised evaluator returns exactly the uncached evaluation from the current pins, a KeyError exactly where that meets an unregistered plane, and keeps what was cached |
| `CachedModels.OpticalModel.SetWavefronts` | catkit2/simulator/optical_model.py:180-185 | Clears exactly the plane and its descendants, pins the plane, and keeps the cache coherent |
| `CachedModels.OpticalModel.PurgePlane` | catkit2/simulator/optical_model.py:132-136 | Clears exactly the plane and everything downstream of it |
| `CachedModels.OpticalModel.Purge` | catkit2/simulator/optical_model.py:132-136 | ... and keeps the cache coherent |
| `CachedModels.OpticalModel.PurgeAll` | catkit2/simulator/optical_model.py:129-130 | Leaves a coherent, empty cache |
| `CachedModels.OpticalModel.ChangePropagator` | catkit2/simulator/optical_model.py:93-101 | A changed propagator followed by purging its plane keeps the cache coherent |
| `CachedModels.OpticalModel.Propagate` | catkit2/simulator/optical_model.py:169-178 | Computes the uncached evaluation with only the given input pinned, hands a single wavefront over by itself and several as they are, and leaves the cache as it was, also on failure |
| `CachedModels.OpticalModel.RegisterPlane` | catkit2/simulator/optical_model.py:151-167 | Adds exactly the new edges and leaves the cache alone, wherever the plane comes in the order of planes; a coherent cache stays coherent if and only if the plane is not cached, is pinned, or now computes to what is cached for it |
| `OpticalModels.StaleAfterRegistering` | catkit2/simulator/optical_model.py:151-167 | That condition, for all cached planes at once |
| `OpticalModels.ReregisteredPlaneIsStale` | catkit2/simulator/optical_model.py:151-167 | A concrete case: a cached plane registered again with another propagator is stale |
| `CachedModels.OpticalModel.Compute` | catkit2/simulator/optical_model.py:205-208 | The k-th output is the propagator applied to the k-th entry of every input, in order, for as many k as the shortest input has |
| `OpticalModels.DownstreamIsReachable` | catkit2/simulator/optical_model.py:132-136 | What a purge clears is exactly what is reachable through dependents |
| `OpticalModels.EvalIgnoresDownstream` | catkit2/simulator/optical_model.py:132-136 | Evaluation of a plane is unaffected by any change in a region nothing outside depends on |
| `OpticalModels.EvalIsUnique` | catkit2/simulator/optical_model.py:187-212 | Uncached evaluation does not depend on how the graph is ranked |
| `OpticalModels.EvalOfPlane` | catkit2/simulator/optical_model.py:198-208 | The k-th wavefront of a plane is its propagator applied to the k-th wavefronts of its dependencies, in their order |
| `OpticalModels.EvalIsPointwise` | catkit2/simulator/optical_model.py:187-212 | Evaluation works on each wavefront separately: with n wavefronts at every pinned plane, a plane has n or none, and its k-th is what the k-th pinned wavefronts alone give |
| `OpticalModels.ZipLengthIsShortest` | catkit2/simulator/optical_model.py:207 | Propagation yields as many wavefronts as the shortest input list |
| `Simulators.RunKeepsExact` | catkit2/simulator/simulator.py:162-336 | Over every run, for any settings and also when time goes back: each camera has at most one pending reset or readout, and every frame was read out after light had been credited for exactly its integration time |
| `SimulatedTime.RunKeepsInv` | catkit2/simulator/simulator.py:96-133 | Over every run without a late step, callbacks run in strictly increasing (time, id) order and simulated time never goes back |
| `SimulatedTime.SoundRunIsNeverLate` | catkit2/simulator/simulator.py:210-318 | No step is late if every start command has an exposure of at least zero and a frame interval of at least the exposure, and no callback is added for an earlier time |
| `SimulatedTime.InOrderMeansIncreasing` | catkit2/simulator/simulator.py:111-133 | The executed callbacks are strictly increasing in (time, id), for any two of them |
| `Simulators.RunKeepsPace` | catkit2/simulator/simulator.py:114-130 | Simulated time passed never exceeds the factor times wall-clock time passed |
| `Simulators.ConstantPowerReadout` | catkit2/simulator/simulator.py:122-126 | Under constant incident power P every frame of every run reads out P times its integration time, for any settings |
| `CameraChains.FrameHoldsTheLight` | catkit2/simulator/simulator.py:122-130 | For any light: a frame's power is exactly the light that fell on the camera over the iterations since its reset |
| `CameraChains.ExposuresKeepCadence` | catkit2/simulator/simulator.py:229-318 | Over every run that neither restarts nor ends the camera, its k-th exposure begins exactly k frame intervals after its first |
| `CameraChains.StartKeepsChainUnlessIntegrating` | catkit2/simulator/simulator.py:229-247 | A start command notes its setting and leaves the camera with a pending reset, due at once, if and only if it was not already integrating |
| `CameraChains.StallsExactlyWhenRestarted` | catkit2/simulator/simulator.py:229-318 | Over every run that does not end the camera, a cycling camera is left without a pending callback if and only if a start command for it was executed on the way; otherwise it still has one |
| `CameraChains.StalledCameraStaysStalled` | catkit2/simulator/simulator.py:232-245 | A camera so restarted reads out no further frame until an end command for it is executed |
| `CameraChains.StalledAfterTwoStarts` | catkit2/simulator/simulator.py:232-245 | Reached from a new simulator: two start commands in a row stall the camera before its first exposure |
| `CameraChains.EndThenMaybeStart` | catkit2/simulator/simulator.py:320-336 | After an end command and until a start command for the camera: it does not integrate, reads out at most one more frame and only if an exposure was under way, and has nothing pending once its chain is spent; a start command then has it cycle again with the new setting |
| `CameraChains.EndedCameraFinishes` | catkit2/simulator/simulator.py:297-318 | Over every such run, frames read out plus exposure under way stay constant: the exposure under way is the last and is read out once |
| `CameraChains.EndStopsOnlyItsCamera` | catkit2/simulator/simulator.py:331-334 | An end command leaves the setting and the pending callback of every other camera |
| `SimulatedTime.StepLeavesNothingPast` | catkit2/simulator/simulator.py:135-160 | With nothing pending in the past, a step leaves something in the past if and only if it runs a reset of an integrating camera with a negative exposure, runs a readout of an integrating camera with an interval shorter than the exposure, or adds a callback for an earlier time |
| `SimulatedTime.IterationGoesBackWhen` | catkit2/simulator/simulator.py:111-130 | An iteration sets simulated time back if and only if something pending lies in the past |
| `SimulatedTime.TimeGoesBackExactly` | catkit2/simulator/simulator.py:96-160 | Over every run up to an iteration, simulated time goes back somewhere if and only if some step before that iteration was such a late one |
| `SimulatedTime.ShortIntervalGoesBack` | catkit2/simulator/simulator.py:309-316 | Reached from a new simulator: an exposure of 2 s every second takes simulated time from 2 s to 1 s |
| `SimulatedTime.NegativeExposureGoesBack` | catkit2/simulator/simulator.py:268-276 | Reached from a new simulator: an exposure of −1 s takes simulated time from 0 to −1 s |
| `Simulators.CancelRemovesOnlyOwn` | catkit2/simulator/simulator.py:162-181 | Cancelling removes the camera's own pending callback and nothing else |
| `Simulators.NextExists` | catkit2/simulator/simulator.py:111-112 | While callbacks are pending there is exactly one to pop next |
| `Simulators.OnePendingPerCamera` | catkit2/simulator/simulator.py:229-318 | Two pending resets or readouts of one camera are the same callback |
| `SimulatorServices.Simulator.MainLoop` | catkit2/simulator/simulator.py:96-133 | The main loop keeps exposures exact and its pace for whatever commands arrive between iterations, and order and monotone time when their settings are sound |
| `SimulatorServices.Simulator.Iteration` | catkit2/simulator/simulator.py:99-133 | One iteration runs the next callback exactly when there is one and it is at most the factor times the passed wall time ahead, hands over exactly the frame the history notes, and otherwise changes nothing |
| `SimulatorServices.Simulator.Receive` | catkit2/simulator/simulator.py:135-160 | Each command is pending for the current simulated time |
| `SimulatorServices.Simulator.PopNext` | catkit2/simulator/simulator.py:111-112 | Pops the smallest callback by time, then id |
| `SimulatorServices.Simulator.AddCallback` | catkit2/simulator/simulator.py:135-160 | The new list, the counter and the returned callback |
| `SimulatorServices.Simulator.RemoveCallback` | catkit2/simulator/simulator.py:162-181 | The new list, unchanged when the callback is not in it |
| `SimulatorServices.Simulator.StartCallback` | catkit2/simulator/simulator.py:229-245 | The state after a start command is executed |
| `SimulatorServices.Simulator.ResetCallback` | catkit2/simulator/simulator.py:260-278 | The state after a reset |
| `SimulatorServices.Simulator.ReadoutCallback` | catkit2/simulator/simulator.py:297-316 | The state after a readout and the power handed over |
| `SimulatorServices.Simulator.EndCallback` | catkit2/simulator/simulator.py:331-334 | The camera is no longer integrating; every other camera, the callbacks and the collected light are untouched |
| `Safety.SafeMeansRecentReadings` | catkit_core/Service.cpp:223-267 | If a service requiring safety is deemed safe, every configured safety had a reading at or above its minimum and at or below its maximum, where configured, no older than 180 s plus its interval plus the monitor's delay |
| `Safety.ChainIsExact` | catkit_core/Service.cpp:223-267 | Both ways: deemed safe if and only if the frame is at most 180 s old, there are at most 255 safeties, and each had a recent reading between its bounds |
| `Safety.FlagIsSetWhen` | catkit2/services/safety_monitor/safety_monitor.py:18-61 | A flag is set if and only if the reading is recent and between the configured bounds |
| `Safety.DeemedSafeWhen` | catkit_core/Service.cpp:223-267 | The verdict on a frame of flags, both ways, with its age from unsigned time stamps and its error path |
| `Safety.RunningMeansRecentReadings` | catkit_core/Service.cpp:206-221 | The same for a service still running up to one safety interval after its last poll |
| `Safety.SumTestExactly` | catkit_core/Service.cpp:246-248 | The wrapping byte sum equals the number of flags if and only if all flags are set and there are at most 255 |
| `Safety.TooManySafetiesAreNeverSafe` | catkit_core/Service.cpp:246-248 | With 256 safeties or more the testbed is never deemed safe |
| `Safety.CheckSafety` | catkit2/services/safety_monitor/safety_monitor.py:18-61 | Each flag is set exactly when its stream was readable, its reading recent, at or above a configured minimum and at or below a configured maximum |
| `Safety.IsSafe` | catkit_core/Service.cpp:223-267 | The verdict, including the error path and the unsigned time difference |
| `Safety.Service.MonitorSafety` | catkit_core/Service.cpp:206-221 | Fails safe exactly when a poll is unsafe before a stop was requested; while running, every poll was safe |
| `Codec.RoundTrip` | catkit_core/Types.cpp:3-134 | Decoding undoes encoding, nested to any depth, if and only if every tensor stores ones beyond its rank |
| `Codec.TensorRoundTrip` | catkit_core/Tensor.cpp:245-267 | The same for one tensor |
| `Codec.TypeNamesRoundTrip` | catkit_core/Tensor.cpp:7-105 | Both names of every element type are read back as that type |
| `Codec.SpellingsRead` | catkit_core/Tensor.cpp:78-105 | Exactly which strings are read as each element type, the PEP 3118 and C long spellings included |
| `Codec.SizeIsInTheName` | catkit_core/Tensor.cpp:107-130 | Eight times an element's size is the number of bits in its type's name; the unknown type has size zero |
| `Codec.ReencodingKeepsMeaning` | catkit_core/Types.cpp:66-134 | Re-encoding what a message decodes to keeps its meaning, whatever spelling it used |
| `Codec.EncodingIsInjective` | catkit_core/Types.cpp:3-64 | Different padded values never share an encoding |
| `Codec.ReadsExactly` | catkit_core/Types.cpp:66-134 | Reading fails if and only if something in the message, at any depth, is unset or a tensor with more than four dimensions or too few bytes |
| `Codec.MessageOf` | catkit_core/Types.cpp:3-64 | Scalars travel as they are, lists element by element in order, dictionaries key by key |
| `Codec.ValueOf` | catkit_core/Types.cpp:66-134 | The same for reading |
| `Codec.TensorMessage` | catkit_core/Tensor.cpp:245-253 | A tensor message holds a code of the type, the dimensions up to the rank in order, and the bytes as they are |
| `Codec.TensorRead` | catkit_core/Tensor.cpp:255-267 | What is read from a tensor message: type, dimensions and then ones, and the bytes it begins with |
| `Codec.ToProto` | catkit_core/Types.cpp:3-41 | The builder of one value produces the specified encoding, at any depth |
| `Codec.ListToProto` | catkit_core/Types.cpp:43-52 | The loop over a list, each element encoded in place |
| `Codec.DictToProto` | catkit_core/Types.cpp:54-64 | The loop over a dictionary, in any order of its keys |
| `Codec.FromProto` | catkit_core/Types.cpp:66-110 | The reader of one value produces the specified decoding, including the unknown-kind error |
| `Codec.ListFromProto` | catkit_core/Types.cpp:112-122 | The loop over a list, failing with its first unknown element |
| `Codec.DictFromProto` | catkit_core/Types.cpp:124-134 | The loop over a dictionary, in any order of its keys |
| `Codec.TensorToProto` | catkit_core/Tensor.cpp:245-253 | The tensor message |
| `Codec.TensorFromProto` | catkit_core/Tensor.cpp:255-267 | The tensor read back, dimensions padded with ones |
| `Tensors.PaddingKeepsProduct` | catkit_core/Tensor.cpp:235-238 | The product over four padded dimensions is the product of the given ones |
| `Mirrors.DeformableMirror.SendSurface` | catkit2/base_services/bmc_deformable_mirror.py:42-57 | The published voltages are fractions of the maximum, and sending the published surface again would publish the same voltages and surface |
| `Mirrors.DeformableMirror.DiscretizedVoltages` | catkit2/base_services/bmc_deformable_mirror.py:88-96 | Whatever is cached, the result is what would be computed afresh |
| `Mirrors.DeformableMirror.DiscretizedSurfaces` | catkit2/base_services/bmc_deformable_mirror.py:98-106 | Whatever is cached, the result is what would be computed afresh |
| `Mirrors.DeformableMirror.Voltages` | catkit2/base_services/bmc_deformable_mirror.py:78-86 | Whatever is cached, the result is what would be computed afresh |
| `Mirrors.DeformableMirror.SetSurface` | catkit2/base_services/bmc_deformable_mirror.py:70-76 | A new surface leaves no stale cache |
| `Mirrors.ResendingChangesNothing` | catkit2/base_services/bmc_deformable_mirror.py:78-106 | Sending the discretized surface again reproduces voltages and surface for every actuator, usable or not, clipped or not |
| `Mirrors.SurfaceError` | catkit2/base_services/bmc_deformable_mirror.py:78-106 | For an unclipped actuator of usable gain the surface falls short by a fraction of its stroke that is not negative and below one converter step |
| `Mirrors.SurfaceErrorBound` | catkit2/base_services/bmc_deformable_mirror.py:78-106 | Hence the error times 2^depth stays below max_volts·|gain| |
| `Mirrors.LargestGridValueBelow` | catkit2/base_services/bmc_deformable_mirror.py:93-94 | The converter picks the largest grid value not above the voltage |
| `Mirrors.VoltageIsNearest` | catkit2/base_services/bmc_deformable_mirror.py:80-84 | The voltage is the fraction nearest to what the surface calls for |
| `Mirrors.TinyGainStaysFlat` | catkit2/base_services/bmc_deformable_mirror.py:29-31 | An actuator of gain below 1e-10 stays at its flat-map voltage |
| `Mirrors.UsableGainMakesSurface` | catkit2/base_services/bmc_deformable_mirror.py:80-84 | For any other gain the wanted voltage is the one that makes the surface |
| `Mirrors.StepsAreAPower` | catkit2/base_services/bmc_deformable_mirror.py:94 | The converter has two to the depth steps |
| `Mirrors.WithoutConverter` | catkit2/base_services/bmc_deformable_mirror.py:88-106 | Without a configured depth voltages and surface are those asked for |
| `Mirrors.WithinOneStep` | catkit2/base_services/bmc_deformable_mirror.py:93-94 | The converter value lies on the grid, less than one step below the voltage |
| `Mirrors.DiscretizedIsFraction` | catkit2/base_services/bmc_deformable_mirror.py:84-94 | Discretized voltages lie between zero and one |
| `Mirrors.DiscretizingTwice` | catkit2/base_services/bmc_deformable_mirror.py:93-94 | Discretizing a discretized voltage changes nothing |

## Left out

- Ring runs assume one writer that publishes each frame before its next request or reconfiguration, and at
  least one frame in the buffer when a frame is requested; what happens otherwise is stated separately. A
  reconfiguration is one step: a reader that samples the header in the middle of it is not modelled.
- Identifiers, sizes and products are unbounded: size_t overflow is not modelled, except for the dimensions
  in tensor messages and the subtraction of time stamps.
- Shared-memory creation and opening, the version check, stream names, tracing and the frame-rate estimate.
- The Windows semaphore and the relative timed wait of macOS. In `Wakeups` every submitter raises LastId under
  the mutex, as all of them do on POSIX; `Publication` has the same loop without it.
- DataStreams.DataStream.GetFrame: stops where the source starts waiting; ReadFrame is the part after the
  wait, the wait is in `Waiting` and `Wakeups`, and what may happen during it in `Readers`.
- DataStreams.DataStream.GetNextFrame: is split at the same wait, FinishNextFrame being the part after it.
- Exposures.TakeRawExposures: starts when the generator is first advanced, and get_frame throws nothing but
  the RuntimeError that is caught.
- Service states are changed only by the testbed itself while a service is being started; the monitoring
  thread, registration and the services' own state changes are left out, as are process launch, ports,
  CPU affinity, priorities and the transport of requests.
- Testbeds.Testbed.StartService: launching itself does not fail once a script or executable is found.
- ShuttingDown.ShutdownOrder: Ctrl+C arrives during the sleeps only, a process that was seen to be gone
  stays gone, and sending a signal does not raise. Ordering is for direct dependents: a dead service leaves
  the table whatever its own dependents do.
- CachedModels.OpticalModel.RegisterPlane: registering must keep the dependents lists free of cycles; on a
  cycle the source recurses without end. What later calls return is stated for caches that stayed coherent
  and keep the inputs of what they hold. Propagators are deterministic, and a propagator that raises is not
  modelled. Plotting of the graph is left out.
- Simulators.RunKeepsExact: an iteration of the main loop from pop to the time update is one step. The heap is
  a set with pop-minimum; its array layout is left out. Floating-point rounding is left out.
- Safety.CheckSafety: readings are real numbers, so a reading that is not a number, which passes every
  comparison in the source, is not modelled.
- Codec: strings are sequences of characters and floating-point numbers are 64-bit patterns; tensors own
  their bytes, so moving, borrowing and freeing of buffers is left out.
- Codec.TensorFromProto: a message whose tensor has more than four dimensions or too few bytes decodes to
  nothing here; the source does not look, and what it reads is then undefined.
- Mirrors: exact reals instead of floating point, arrays as values, and a positive maximum voltage. Reading
  and writing of flat and gain maps and the device itself are left out.
- Hardware services, clients and servers, log forwarding, bindings, configuration merging and experiments.
