# A model of the recording and labelling tools

The repository records teleoperated takes of two robot arms, labels them, and turns them into
training data. This project models the parts of it where state, branching or arithmetic decide
whether the data is right, and proves what they promise. Reals stand for time and position,
sequences for stamps and lists. Code that updates things step by step is written as methods and
classes and proved against a specification function; the promises are then proved about that
function, over every input, every run or every interleaving.

| files | component |
|---|---|
| `Grid`, `Windows`, `WindowsFile`, `KeepList`, `EpisodePlan`, `CameraExport`, `Export` | the grasp-window exporter, from the planned windows to the written rows |
| `Segmenter` | the home-to-home segmenter that produces the exporter's windows file |
| `EditDistance`, `PartIds`, `Detections`, `Tracker`, `Recalc` | the live packet detector: repair of OCR reads, de-duplication, tracker and vote, and the recalculation handshake between threads |
| `Mjpeg` | the incremental parser of the cockpit's camera stream |
| `Corrections`, `Verdicts` | operator verdicts: keys, merging, and the locked write path with its readers |
| `Leader`, `Watcher` | the leader calibration inverse and the camera drop watcher |
| `Common`, `Sorting` | rounding rules of the interpreter, and its stable sort |

The main results, one per component:

- **Export, end to end** (`EpisodePlan.PlannedExportIsRight`). For any take, in any window mode, with any
  grasps, keep-list or windows file: exporting the plan never seeks a reader backward and never
  reopens one; every row shows, for each camera, the decoded frame nearest to its grid instant and
  no staler than the cap, with each arm's nearest samples and the task of its window, at an
  instant every joint stream covers; no instant is written twice, and of each planned window every
  instant it reaches is written (`Export.WindowIsWrittenWhole`). Which windows are planned is given exactly
  for each mode (`EpisodePlan.GraspPlanReaches`, `EpisodePlan.PosePlanReaches`,
  `EpisodePlan.WholeTakePlanReaches`). The stateful readers are proved to refine a stateless lookup (`Export.ReadersRefineLookup`).
- **Segmenter to exporter** (`Segmenter.ExportedExactly`, `Segmenter.AcceptedExactlyWhen`,
  `EpisodePlan.SegmentedWindowIsDelivered`). What is exported is characterised stretch by stretch.
  The rules under which every session that leaves a window leaves a file the loader accepts are given
  exactly, with a refused session for every other rule; and a window that passed the segmenter's yield
  gate is followed through the file, the loader and the plan to the rows the gate promised.
- **Recalculation handshake** (`Recalc.RequestsAreServedFresh`, `Recalc.DangerBreaksFreshness`). With a
  request's two writes as one step, whoever waited for a request finds held, and on screen once a frame
  got through a cycle that saw the request, only what was read from frames fetched after it was made.
  Without that, the snapshots that break the promise are characterised, and a run that breaks it is given.
- **Tracker** (`Tracker.SessionPublishesEveryPacket`, `Tracker.SessionPublishesCatalog`,
  `Tracker.WindowIsTailOfHistory` and the lemmas before them). Every packet held is on screen.
  One entry per packet, windows of exactly the last fifteen reads, majority vote, and only catalogue
  names published, for exactly the catalogues that allow it.
- **Stream parser** (`Mjpeg.ChunkingIrrelevant`, `Mjpeg.CockpitFramesComeBack`). What is parsed does not
  depend on the chunks, and what the cockpit prints is parsed back exactly, whatever the frames contain.
- **Verdicts** (`Verdicts.NoLostVerdict`, `Verdicts.PageShowsLastVerdict`). No interleaving loses a verdict.
- **Watcher** (`Watcher.FrozenMatchesStretches`, `Watcher.DropsAreTheGaps`, `Watcher.StallsAreTheSilences`,
  `Watcher.RunAccounted`). Over any run the events are exactly the frozen stretches, the gaps and the
  silences, and each is printed or pending once.
- **Leader** (`Leader.CalibrationInverts`, `Leader.RoundingResidual`).

Where the code and its own documentation or comments disagree, the model follows the code:

- `tools/calibrate_gello_leader.py:25-27` says offsets are wrapped into (-4096, 4096]; line 147 wraps
  them into [-2048, 2048), which `Leader.SolveInverts` states.
- `tools/act_horizon_report.py:22-25` claims `close_idx <= pre_s * fps`. It holds exactly when the product
  does not round up (`Windows.DocumentedCeiling`); a lead of 3.06 s at 30 frames a second breaks it
  (`Windows.CeilingBroken`).
- `tools/export_lerobot.py:1174-1177` expects that rounding can step a reader back at a shared window
  boundary. With sorted stamps it cannot: the reopen branch is never taken.
- `robots_realtime/labeling/detector.py:75` says that snapping invents no id. The last clean-up repairs prefixes
  once more after the snap (573), so a catalogue that lists another prefix has its packets published under names
  it does not list (`Tracker.MisreadCatalog`, `Tracker.CatalogKeptExactlyWhen`).
- `robots_realtime/labeling/detector.py:515-517` promises that a request is not credited to a cycle that did
  not serve it. Because `recalibrate_now` bumps the counter (604) before it sets the flag (606), it can
  be (`Recalc.SnapshotBetweenTheTwoWrites`). A cycle without a frame credits a request too, and leaves
  the old boxes on screen (`Recalc.CreditWithoutFrameKeepsOldBoxes`).

## Model

| member | source | states |
|---|---|---|
| Grid.NearestIsNearest | tools/export_lerobot.py:680-685 | on sorted stamps the chosen index is at least as near as every stamp, for instants before the first and after the last stamp too, and of two as near it is the earlier |
| Grid.NearestMonotone | tools/export_lerobot.py:680-685 | a later instant never asks for an earlier frame |
| Grid.NegativeOnlyForSingleStamp | tools/export_lerobot.py:680-685 | the index is -1 exactly for a single stamp and an instant not after it |
| Grid.InstantInWindow | tools/export_lerobot.py:1158-1161 | every grid instant of a window lies in [lo, hi) |
| Grid.GridIsEveryPeriod | tools/export_lerobot.py:1158-1161 | the grid of [lo, hi) is exactly the instants lo + k / fps, k = 0, 1, ..., with lo + (k + 1) / fps <= hi |
| Grid.YieldIsShare | tools/segment_home_episodes.py:90-96 | the yield is the share of the whole thirtieths of a second of the window that begin within 2/30 s of a stamp, zero when none fits |
| Grid.YieldAgrees | tools/segment_home_episodes.py:90-96 | the segmenter's yield test and the exporter's staleness test agree on every instant |
| Grid.HonestCountBound | tools/export_lerobot.py:1182-1188 | c cameras that each lose at most L of n instants leave at least n - c*L instants honest for all of them |
| Grid.YieldBoundsRows | tools/segment_home_episodes.py:172-173 | c cameras at yield y let at least (1 - c(1 - y))n instants through the exporter's filter |
| Windows.GraspWindowsIndexed | tools/export_lerobot.py:524-547 | the loop returns exactly the plan of the sorted close times with the fixed lead |
| Windows.FixedWindowsReach | tools/export_lerobot.py:536-547 | the window of a close is exactly the instants of the take from pre before to post after it that are not past halfway to another close; there is one for each timed grasp for which that has length |
| Windows.NearestIsNoNearerElsewhere | tools/export_lerobot.py:539-544 | for closes that do not coincide, not past halfway means no nearer to any other close |
| Windows.PlanShape | tools/export_lerobot.py:539-546 | a grasp is in the plan exactly when its clipped window has positive length, once, in time order |
| Windows.PlanDisjoint | tools/export_lerobot.py:539-547 | windows of any sorted grasp list are in order and share no time, also after some have clipped away |
| Windows.NoInstantTwice | tools/export_lerobot.py:1157-1161 | two grid instants of disjoint windows coincide only when they are the same instant of the same window |
| Windows.FixedContainsClose | tools/export_lerobot.py:538-546 | a fixed window contains its own close exactly when the close lies in the recorded span |
| Windows.StartBounds | tools/export_lerobot.py:550-586 | a pose start lies between the floor and the close, and its mode is "pose" exactly when it is after the floor |
| Windows.PoseIsLastCrossing | tools/export_lerobot.py:573-586 | in "pose" mode the start is one margin before a sample not below the plane, and every later sample up to the close is below it |
| Windows.PregraspStartIs | tools/export_lerobot.py:550-586 | the start and its mode in every case: one margin before the last sample of the approach not below the plane over the last one, the floor when that is earlier or there is no such sample |
| Windows.StartMonotone | tools/export_lerobot.py:550-586 | raising the plane or the margin never moves a start later |
| Windows.GraspWindowsPoseIndexed | tools/export_lerobot.py:589-623 | the loop returns exactly the plan of the ordered grasps with the pose starts |
| Windows.PoseWindowsReach | tools/export_lerobot.py:602-623 | the pose window of a grasp is exactly the instants around its close from that start on, with the same bounds otherwise |
| Windows.PoseInsideFixed | tools/export_lerobot.py:589-623 | each pose window lies inside the fixed window of the same grasp and ends with it |
| Windows.BothKeepEveryGrasp | tools/export_lerobot.py:524-623 | with distinct closes inside the recorded span both planners keep every grasp in the same order |
| Windows.SameCountSameGrasps | tools/act_horizon_report.py:116-122 | for any timed grasps, as many pose windows as fixed ones means the same grasps, in order, with the same ends |
| Windows.CloseIndexCeiling | tools/export_lerobot.py:626-632 | no window closes later than round(pre*fps), and an unclipped one closes exactly there |
| Windows.CloseFrameIsNearest | tools/export_lerobot.py:626-632 | the close index is within half a frame of (t_close - lo) * fps |
| Windows.DocumentedCeiling | tools/act_horizon_report.py:22-25 | the documented ceiling holds for every take exactly when pre*fps does not round up, so whenever it is whole |
| Windows.CeilingBroken | tools/act_horizon_report.py:22-25 | with a lead of 3.06 s, 91.8 frames, the window of one unclipped grasp closes at frame 92 |
| Windows.GateIsShare | tools/export_lerobot.py:635-637 | the gate passes exactly the close indices within frac * chunk_frames, except when that product is negative and not whole |
| Windows.GatedDisjoint | tools/export_lerobot.py:1000-1014 | the close-index gate keeps exactly the windows closing in time, in order and disjoint |
| WindowsFile.LoadWindows | tools/export_lerobot.py:434-476 | a file is accepted exactly when it is not empty, every window has two ascending bounds, tasks match one to one and no two windows of an episode overlap; what is loaded is sorted and disjoint |
| WindowsFile.AcceptableMeans | tools/export_lerobot.py:434-476 | the condition on the numbers of the file: two ascending bounds a window, one task each if tasks are given, no two windows of an episode sharing time |
| WindowsFile.NeighboursSuffice | tools/export_lerobot.py:469-474 | on a sorted list, comparing neighbours finds every overlap |
| WindowsFile.PairwiseSort | tools/export_lerobot.py:466-474 | sorting neither creates nor hides an overlap |
| WindowsFile.TasksStayWithWindows | tools/export_lerobot.py:461-468 | after sorting each window still has the task listed for it |
| WindowsFile.ClipWindows | tools/export_lerobot.py:974-987 | the loop returns the spans and tasks of the windows that were mostly recorded |
| WindowsFile.ClipKeepsOrder | tools/export_lerobot.py:974-987 | clipping keeps exactly the mostly recorded windows, in order, disjoint, each clipped and with its own task |
| WindowsFile.PlannedFromListed | tools/export_lerobot.py:974-987 | every planned window is one listed window of the episode, clipped, with the task listed for it |
| KeepList.FilterByKeepList | tools/export_lerobot.py:502-521 | the loops return the grasps of the greedy matching and the wanted times it leaves over |
| KeepList.MatchSound | tools/export_lerobot.py:511-520 | matched pairs are within tolerance, no wanted time is used twice, and a grasp takes the first close time no earlier grasp took, none only if there is none |
| KeepList.KeptInOrder | tools/export_lerobot.py:511-520 | the kept grasps are a subsequence in order |
| KeepList.KeptPlusMissing | tools/export_lerobot.py:511-521 | kept plus missing is always the number wanted |
| KeepList.MissingWereNotFound | tools/export_lerobot.py:511-521 | the times reported missing are exactly those no grasp was matched to |
| KeepList.UniqueMatching | tools/export_lerobot.py:511-521 | with times more than twice the tolerance apart, grasp and time are matched exactly when close, and a time is missing exactly when no grasp is close |
| EpisodePlan.SpanStart | tools/export_lerobot.py:957-958 | the common span starts at some stream's first stamp and not before any |
| EpisodePlan.SpanEnd | tools/export_lerobot.py:959-960 | the common span ends at some stream's last stamp and not after any |
| EpisodePlan.PlanEpisode | tools/export_lerobot.py:906-1021 | the plan, or the reason there is none, for all three modes, keep-list, flag and missing inputs |
| EpisodePlan.PlansNeedClearance | tools/export_lerobot.py:906-953 | a plan is made only of a take whose grasps, keep-list, flag, streams and cameras leave nothing to refuse |
| EpisodePlan.GraspPlanReaches | tools/export_lerobot.py:1016-1020 | of such a take the fixed mode plans exactly the windows of the kept grasps that have length, and there is a plan if there is one |
| EpisodePlan.PosePlanReaches | tools/export_lerobot.py:988-1014 | the pose mode plans exactly the windows of the kept grasps whose close index passes the gate |
| EpisodePlan.WholeTakePlanReaches | tools/export_lerobot.py:962-987 | the full mode plans the common span, or exactly the recorded parts, with their tasks, of the listed windows of which at least nine tenths were recorded |
| EpisodePlan.OnlyWantedIsPlanned | tools/export_lerobot.py:919-920 | with a keep-list every planned span lies in [t - pre, t + post] of a pool grasp within 0.001 s of a wanted time, and there are no more spans than wanted times |
| EpisodePlan.KeepListIsHonoured | tools/export_lerobot.py:919-932 | planning goes on exactly when the keep-list names something and every time on it was matched, and then with as many grasps as times |
| EpisodePlan.KeptAreWanted | tools/export_lerobot.py:919-932 | the grasps that go on are pool grasps within 0.001 s of a wanted time, as many as wanted times and at least one for each; without a list they are the pool |
| EpisodePlan.KeepListHonouredExactlyWhen | tools/export_lerobot.py:919-932 | with times more than twice the tolerance apart, a list is honoured exactly when it names something and each of its times has a close grasp |
| EpisodePlan.PoolIsEveryGrasp | tools/export_lerobot.py:906-913 | an arm without grasps stops the plan exactly in the grasp modes; otherwise the pool is all the grasps there are |
| EpisodePlan.ReportPairsCloses | tools/act_horizon_report.py:116-122 | the same after the close-index gate, so that equal lengths are enough to pair the k-th close with the k-th fixed window |
| EpisodePlan.GatedFit | tools/export_lerobot.py:988-1014 | gated pose windows are disjoint and recorded, and a planned window is left out exactly for closing late |
| EpisodePlan.PlansAreFit | tools/export_lerobot.py:867-1021 | every plan has a window, and its windows are in order, share no time and lie in the span every stream recorded |
| EpisodePlan.SegmentedWindowsAreLoaded | tools/export_lerobot.py:434-476 | the file a segmented session leaves is loaded as exactly the windows that were cut |
| EpisodePlan.SegmentedWindowIsDelivered | tools/segment_home_episodes.py:172-185 | a train window, loaded from the session's file and exported with the cameras it was cut with, is written with the rows its yield gate promised, when the take recorded it in full, it decodes and is not vetoed |
| EpisodePlan.PlannedExportIsRight | tools/export_lerobot.py:1119-1204 | plan and export together: no backward seek, no reopening, rows with the nearest decoded images, nearest joint samples and their window's task, joint samples never extrapolated, no instant twice, and of every planned window every instant it reaches |
| CameraExport.CameraStream.FrameAt | tools/export_lerobot.py:706-720 | the reader answers and moves as the forward-only specification says: an error for a step back, nothing past the end, else the frame asked for |
| CameraExport.WriteWindow | tools/export_lerobot.py:1184-1204 | the row loop with staleness filter, early stop and moving readers leaves the specified rows and positions |
| CameraExport.ExportEpisode | tools/export_lerobot.py:1155-1211 | the window loop with length check, veto, reopen branch and minimum rows leaves the specified episodes and counts |
| Export.ServeFromBehind | tools/export_lerobot.py:706-720 | readers not past their frames serve exactly the looked-up images and stay not past them |
| Export.ReadersRefineLookup | tools/export_lerobot.py:1155-1211 | over disjoint windows the readers never raise, are never reopened, and export what looking every frame up would |
| Export.EveryRowIsRight | tools/export_lerobot.py:1179-1204 | each row of each saved episode shows the nearest decoded frame of every camera within the staleness cap, at a grid instant of one window, with that window's task and the joint samples of that instant |
| Export.NoInstantExportedTwice | tools/export_lerobot.py:1155-1211 | over all a take exports the instants strictly increase and the reported frames are the rows |
| Export.WindowIsWrittenWhole | tools/export_lerobot.py:1155-1211 | of each window that is not vetoed the instants lo + k / fps of whole periods at which every camera has a stamp within 2/30 s, up to the first that does not decode, are exactly the instants of one episode if they are at least ten; otherwise nothing of it is written |
| Export.DecodedWindowCount | tools/export_lerobot.py:1184-1204 | a window whose frames decode has exactly as many rows as honest instants |
| Export.YieldIsDelivered | tools/export_lerobot.py:1155-1211 | a planned window that is not vetoed, decodes and has yield y from every camera is written as an episode of at least (1 - c(1 - y))n rows, whenever that bound is over nine |
| Segmenter.Dwells | tools/segment_home_episodes.py:75-87 | the scanning loop returns the dwells of the specification |
| Segmenter.DwellsAreLongRuns | tools/segment_home_episodes.py:75-87 | the dwells are exactly the maximal stays at home that last long enough |
| Segmenter.DwellsInOrder | tools/segment_home_episodes.py:75-87 | dwells are in order, do not overlap, lie in the take and last long enough |
| Segmenter.CutDisjoint | tools/segment_home_episodes.py:152-173 | pads that stop at dwell midpoints keep exported windows apart, each passing the yield gate |
| Segmenter.ExportedExactly | tools/segment_home_episodes.py:147-186 | exported are exactly the stretches between consecutive dwells that are wanted, last at least min_s and have the yield from every camera, each reaching min(pad_s, half the dwell) into both dwells |
| Segmenter.SplitIsClean | tools/segment_home_episodes.py:182-186 | train and holdout share no time, together hold every exported window, each in exactly one |
| Segmenter.HeldOutShare | tools/segment_home_episodes.py:182-185 | exactly every Nth exported window of the session is held out, none with N = 0 |
| Segmenter.SessionSplit | tools/segment_home_episodes.py:182-186 | numbering the exported windows through the session, number m is held out exactly when m is a multiple of N, else trained on |
| Segmenter.SessionHeldOutShare | tools/segment_home_episodes.py:182-186 | a session of m exported windows holds out m / N, rounded down |
| Segmenter.Segment | tools/segment_home_episodes.py:134-186 | the loop over takes leaves, per take, the train and held-out parts of its windows, counting across the session |
| Segmenter.SegmentedFileIsAccepted | tools/segment_home_episodes.py:168-186 | under an accepting rule the file passes every check of the loader unless it lists no window, and loads as the windows cut |
| Segmenter.UnsafeRuleCutsEmptyWindow | tools/segment_home_episodes.py:168-186 | under a rule that is not safe but finds dwells, a take is cut into a window of no length |
| Segmenter.RefusedSession | tools/segment_home_episodes.py:152-186 | for every rule that is not accepting, a session whose file lists a window and is refused |
| Segmenter.AcceptedExactlyWhen | tools/segment_home_episodes.py:152-186 | every session that leaves a train window leaves a file the loader accepts, exactly when the rule is safe, has no positive threshold, or holds every window out |
| EditDistance.EditDist | robots_realtime/labeling/detector.py:51-57 | the one-row table overwritten in place computes the recursive distance |
| EditDistance.NoCheaperScript | robots_realtime/labeling/detector.py:51-57 | no edit script is cheaper than the distance |
| EditDistance.CheapestScript | robots_realtime/labeling/detector.py:51-57 | some edit script has exactly that price |
| EditDistance.Metric | robots_realtime/labeling/detector.py:51-57 | zero only on equal strings, symmetric, triangle inequality |
| PartIds.ParsePrint | robots_realtime/labeling/detector.py:39-41 | printing a part id and parsing it gives its fields back |
| PartIds.ParseWellFormed | robots_realtime/labeling/detector.py:39-41 | whatever is recognised has two to four letters, five digits and three digits |
| PartIds.ParsedExactlyWhen | robots_realtime/labeling/detector.py:34-41 | a text is recognised exactly when a part id is spelled in it, with a hyphen, white space or nothing between fields, and then as the first one with as long a prefix as can be |
| PartIds.SpacesAndCaseIgnored | robots_realtime/labeling/detector.py:39-41 | a space anywhere and the case of a letter make no difference |
| PartIds.NormalizeRepairsPrefix | robots_realtime/labeling/detector.py:60-66 | the prefix becomes a nearest known one, the other fields stay |
| PartIds.NearestIsFirst | robots_realtime/labeling/detector.py:65 | of entries as near the first is chosen |
| PartIds.NormalizeIdempotent | robots_realtime/labeling/detector.py:60-66 | repairing twice is repairing once, for every string |
| PartIds.SnapInCatalog | robots_realtime/labeling/detector.py:69-85 | a snapped id is in the catalogue, keeps its middle when an entry has it, and is a nearest of those entries |
| PartIds.TheRestIsLeft | robots_realtime/labeling/detector.py:60-81 | what is no part id is left as read, and without a catalogue every read is |
| PartIds.SnapIdempotent | robots_realtime/labeling/detector.py:69-85 | snapping twice is snapping once, for every read and catalogue |
| Sorting.SortIsStable | robots_realtime/labeling/detector.py:189 | elements with equal keys keep their order, as the interpreter's sort promises |
| Detections.CleanDets | robots_realtime/labeling/detector.py:183-197 | the loop returns the greedy de-duplication of the reads over the threshold, strongest first |
| Detections.NearInHalfPixels | robots_realtime/labeling/detector.py:191-194 | two boxes are one packet exactly when their centres, in half-pixels, are closer than the limit on both axes |
| Detections.CleanedShape | robots_realtime/labeling/detector.py:183-197 | the result is pairwise apart on some axis, made of repaired reads, and every read over the threshold has a kept one near it of no lower confidence |
| Detections.CleanedIdempotent | robots_realtime/labeling/detector.py:183-197 | cleaning twice is cleaning once |
| Detections.KitFromDetections | robots_realtime/labeling/detector.py:752-778 | the loop returns the specified pick list |
| Detections.KitCoversPublished | robots_realtime/labeling/detector.py:764-777 | on published detections the guard is the identity: one entry per detection, in rows of 120 pixels from the top and left to right in each, in the compartment the calibration names |
| Detections.FirstSeenCompartments | robots_realtime/labeling/detector.py:766-777 | two entries share a compartment exactly when they have one name or both names are the one that took the last compartment or a later one |
| Detections.CompartmentsCountNames | robots_realtime/labeling/detector.py:772-775 | without a calibration a name met first gets the number of names met so far, capped |
| Tracker.Vote | robots_realtime/labeling/detector.py:485-504 | the tallying loop returns the weighted vote, its ties going to the first name read |
| Tracker.MajorityWins | robots_realtime/labeling/detector.py:495-502 | a name with more than half the weight wins |
| Tracker.VoteConfidence | robots_realtime/labeling/detector.py:499-504 | the confidence is a share between 0 and 1, and the vote abstains exactly when nothing was read |
| Tracker.VoteAgreement | robots_realtime/labeling/detector.py:501-504 | no name outweighs the winner, and the confidence is its share of the weight to the nearest hundredth |
| Tracker.OneMoreRead | robots_realtime/labeling/detector.py:495-501 | one more named read adds max(conf, 0.05) to its name and to the whole, an unnamed one nothing |
| Tracker.TiesGoToFirstRead | robots_realtime/labeling/detector.py:501 | of the heaviest names the one read first wins |
| Tracker.Track | robots_realtime/labeling/detector.py:538-568 | the two loops over held entries and fresh detections compute the next held list |
| Tracker.MatchSound | robots_realtime/labeling/detector.py:540-555 | an entry is fed by the first detection near it (75 pixels) that no earlier entry took, by none only if there is none, and no detection feeds two |
| Tracker.EveryDetectionFeedsOne | robots_realtime/labeling/detector.py:552-567 | every fresh detection feeds exactly one entry |
| Tracker.EveryEntrySurvivesOnceOrAgesOut | robots_realtime/labeling/detector.py:552-562 | an entry goes on in one entry, in order, exactly when it is fed or last seen less than the hold time ago |
| Tracker.NewcomersAreNotMissedMatches | robots_realtime/labeling/detector.py:563-567 | a new entry appears only where no entry left without a detection is near |
| Tracker.LatestIsKept | robots_realtime/labeling/detector.py:556-567 | every fresh detection becomes the box, the latest read and the last sighting of some entry |
| Tracker.HeldIsRecent | robots_realtime/labeling/detector.py:561-562 | nothing last seen the hold time ago or longer is held, and what was not seen now is unchanged |
| Tracker.GainsAtMostOneRead | robots_realtime/labeling/detector.py:552-567 | in one cycle an entry that goes on keeps its window or gains the one read of a fresh detection, and a new entry has one read |
| Tracker.WindowIsTailOfHistory | robots_realtime/labeling/detector.py:538-568 | after any session each held window is exactly the last fifteen of all the reads its entry ever gained |
| Tracker.AdvanceBounded | robots_realtime/labeling/detector.py:552-567 | every window keeps between one and fifteen reads |
| Tracker.DetectOnceReadable | robots_realtime/labeling/detector.py:357-371 | every name one frame yields is a part id with a known prefix |
| Tracker.DetectOnceFindsAll | robots_realtime/labeling/detector.py:357-367 | one frame yields every hit over the threshold or a stronger read near it, no name but of a hit, and every packet seen but not read |
| Tracker.PublishedInCatalog | robots_realtime/labeling/detector.py:569-573 | with a catalogue that prefix repair does not lead out of, as one of ids with known prefixes, every published name is in it |
| Tracker.EveryPacketIsPublished | robots_realtime/labeling/detector.py:569-573 | every held entry voted with enough confidence is answered for by a box near it of no lower confidence, every box is the repaired vote of a held entry, and no two are of one packet |
| Tracker.CatalogKeptExactlyWhen | robots_realtime/labeling/detector.py:69-85 | whatever is held, only catalogue names are published exactly when every single read, snapped and repaired, is in the catalogue |
| Tracker.MisreadCatalog | robots_realtime/labeling/detector.py:569-573 | with the catalogue "DNN-10126-151" a packet is published under a name the catalogue does not have |
| Tracker.SweepAnswersForEveryRead | robots_realtime/labeling/detector.py:530-537 | the extra exposures are used only when fewer packets were seen than before, and then every read over the threshold is answered for |
| Tracker.ExpectedIsHighWater | robots_realtime/labeling/detector.py:519-537 | after any session no scan since the last reset had more detections than expected, and one had exactly as many, unless nothing is expected |
| Tracker.SessionReadable | robots_realtime/labeling/detector.py:506-573 | over any session the windows stay bounded and hold only part ids with known prefixes or nothing |
| Tracker.SessionPublishesCatalog | robots_realtime/labeling/detector.py:506-573 | after any session the last published names are all in that cycle's catalogue, if prefix repair does not lead out of it |
| Tracker.SessionPublishesEveryPacket | robots_realtime/labeling/detector.py:506-573 | the same after any session that ends with a frame |
| Tracker.StartingOverForgets | robots_realtime/labeling/detector.py:519-525 | after any session every read held is of a frame scanned since the last start over |
| Tracker.PacketDetector.ProcessFrame | robots_realtime/labeling/detector.py:526-573 | one cycle leaves exactly the specified held entries, expectation and published boxes |
| Recalc.CountersSafe | robots_realtime/labeling/detector.py:514-581 | in every interleaving the served counter never goes back and never passes the requests |
| Recalc.CycleIsSessionStep | robots_realtime/labeling/detector.py:514-581 | a cycle nothing interrupts does to the tracker what one cycle of a session does, after starting over if the flag was up, lowers the flag and credits every request made |
| Recalc.WaiterSeesFreshReads | robots_realtime/labeling/detector.py:595-617 | if no snapshot is dangerous, a wait that ends with True finds only reads of frames fetched after the request; the boxes published are the vote over such reads too, if a frame got through a cycle that saw it |
| Recalc.DangerBreaksFreshness | robots_realtime/labeling/detector.py:518-523 | from every dangerous state the loop can credit a request it has not served |
| Recalc.PairedIsGuarded | robots_realtime/labeling/detector.py:603-606 | with the two writes as one step no snapshot is dangerous |
| Recalc.RequestsAreServedFresh | robots_realtime/labeling/detector.py:595-617 | the same promise, of held reads and published boxes, for every interleaving with requests as one step |
| Recalc.SnapshotBetweenTheTwoWrites | robots_realtime/labeling/detector.py:604-606 | a run in which the wait succeeds over stale reads |
| Recalc.CreditWithoutFrameKeepsOldBoxes | robots_realtime/labeling/detector.py:579-581 | a run in which a cycle without a frame credits the request while the box of a packet read before it stays on screen |
| Recalc.SampleIsRead | robots_realtime/labeling/detector.py:357-371 | the packet of that run is what one frame with one part number yields, and is shown, at every threshold up to its confidence |
| Mjpeg.SampleCockpit | tools/check_streams.py:141-161 | the nested loops over arriving chunks leave what draining the whole stream gives |
| Mjpeg.DrainBuffer | tools/check_streams.py:146-161 | the inner loop ends and leaves the parts and the rest of the buffer |
| Mjpeg.DrainResumes | tools/check_streams.py:143-161 | draining, receiving more and draining again is draining all at once |
| Mjpeg.ChunkingIrrelevant | tools/check_streams.py:143-161 | two ways to cut the same stream give the same pictures and rest |
| Mjpeg.PartsComeBack | tools/check_streams.py:147-161 | a stream of parts gives back exactly the bodies, also when they contain blank lines, and leaves what follows |
| Mjpeg.JunkIsDropped | tools/check_streams.py:153-155 | a header that announces no length is dropped and what follows is read as if it had not been there |
| Mjpeg.LengthFoundExactlyWhen | tools/check_streams.py:152-156 | the length found is the first one announced in the header: the field name in any case, white space, digits; none exactly when none is |
| Mjpeg.CockpitHeaderAnnounces | robots_realtime/labeling/live_server.py:613-616 | every header the cockpit prints is found to announce its body's length |
| Mjpeg.CockpitFramesComeBack | robots_realtime/labeling/live_server.py:613-616 | the frames the cockpit sends are what is received chunk by chunk, however the bytes are cut into chunks |
| Mjpeg.CutStreamGivesFirstFrames | tools/check_streams.py:141-161 | a stream cut anywhere gives the first frames sent, among them every frame that arrived in full |
| Corrections.PrintedKeyIsFiled | review_corpus.py:337-349 | the key printed for an event is split back into its section and item |
| Corrections.FiledExactlyWhen | review_server.py:89-95 | a request is filed exactly when its key is a known section, a slash and a name, and the verdict a known word |
| Corrections.KeyIdentifies | review_corpus.py:79-82 | two events have one key exactly when they are of one bag, and for grasps of one attempt, if attempts have no colon |
| Corrections.ColonsCollide | review_corpus.py:79-82 | with a colon in an attempt two grasps of different bags have one key |
| Corrections.ApplyCorrections | review_corpus.py:79-84 | overrides land on the last event with their key, in whatever order they are taken |
| Corrections.OverridesLand | review_corpus.py:79-84 | every field of every event: the one filed for its item if there is one and the event is the last of it, else its own |
| Corrections.MergedField | review_server.py:114 | after any posts a field holds the last verdict for its item, all else unchanged |
| Corrections.VerdictsLand | review_corpus.py:74-84 | after any posts an event shows exactly the last verdict under its key if it is the last with that key |
| Corrections.VerdictLandsOnce | review_corpus.py:74-84 | with unique keys a verdict lands on its event and on no other |
| Corrections.SharedKeyHidesEarlier | review_corpus.py:79-84 | of two events with one key the earlier never shows a verdict |
| Verdicts.RunKeepsInv | review_server.py:100-127 | in every interleaving each file is the fold of its committed posts, the lock holder works on that content, the log has no repeats |
| Verdicts.NoLostVerdict | review_server.py:107-127 | every post answered 200 is committed once, none answered 500 is, and files are always whole |
| Verdicts.LonePostIsFiled | review_server.py:100-127 | a post that finds the lock free and meets no error is answered 200, merged into its episode, and changes no other file |
| Verdicts.FailedPostIsAnswered | review_server.py:120-127 | an error before the replace is answered 500, gives the lock back and changes no file |
| Verdicts.CorruptBranchUnreachable | review_server.py:108-113 | a thread that loads finds a whole document holding the current content |
| Verdicts.ReadersSeeWholeSteps | review_server.py:116-119 | only a replace changes a file, from one whole document to the next |
| Verdicts.OneWriter | review_server.py:107 | two threads are never inside the lock |
| Verdicts.PageShowsLastVerdict | review_corpus.py:74-90 | after any run the page shows at an event the last verdict committed for it |
| Leader.SolveInverts | tools/calibrate_gello_leader.py:131-147 | with the solved offset a joint reports the reference exactly when its free value is in range; the offset is in [-2048, 2048) |
| Leader.CalibrationInverts | tools/calibrate_gello_leader.py:131-147 | the arm reports the reference pose exactly when every joint is in range |
| Leader.RoundingResidual | tools/calibrate_gello_leader.py:225-228 | whole ticks move the angle by at most half a tick exactly when the shifted value does not cross the wrap, which half a tick of room rules out |
| Watcher.Watcher.OnFrame | tools/watch_camera_drops.py:149-181 | a frame leaves exactly the specified fields and events |
| Watcher.Watcher.OnTick | tools/watch_camera_drops.py:197-205 | a poll leaves exactly the specified fields and events |
| Watcher.Watcher.Watch | tools/watch_camera_drops.py:94-120 | any run of inputs leaves what folding the steps gives |
| Watcher.RaiseAccounted | tools/watch_camera_drops.py:208-234 | after an event only drops are pending and every event is printed or pending once |
| Watcher.RunAccounted | tools/watch_camera_drops.py:208-234 | over any run printed bursts plus what is pending are exactly the events |
| Watcher.FrozenMatchesStretches | tools/watch_camera_drops.py:167-178 | over any run FROZEN and UNFROZE are exactly those of the identical stretches over the threshold, each closed with its exact length, the last perhaps open |
| Watcher.FrozenAlternates | tools/watch_camera_drops.py:167-178 | they strictly alternate |
| Watcher.StallsAlternate | tools/watch_camera_drops.py:157-159 | STALL and RESUME strictly alternate and the flag says whether one is open |
| Watcher.StallsAreTheSilences | tools/watch_camera_drops.py:157-203 | over any run a STALL comes exactly at the first poll over the limit after a frame and a RESUME at the next frame, each with the length of the silence |
| Watcher.DropsAreTheGaps | tools/watch_camera_drops.py:160-165 | over any run the drops reported are exactly the gaps over the threshold, each at its frame |
| Watcher.LostFramesCounted | tools/watch_camera_drops.py:163 | the number of missing frames is right while the next frame is less than half a period off |
| Watcher.PrintingIsThrottled | tools/watch_camera_drops.py:221-228 | over any run, two consecutive lines with only drops between them are at least the minimum apart |
| Watcher.PrintedAtOnceExactlyWhen | tools/watch_camera_drops.py:221-224 | an event is printed at once, with all that waited, exactly when it is no drop or the last line is at least the minimum ago |
| Watcher.PendingIsPrinted | tools/watch_camera_drops.py:197-228 | after a run that ends with a poll nothing waits, unless the last line is less than the minimum ago |
| Watcher.HealthChangesAreReported | tools/watch_camera_drops.py:183-195 | over any run a HEALTH event is raised for each message that differs, and for nothing else |

## Left out

- Video decoding, OCR, blob detection, segmentation models and forward kinematics: a video is the sequence of frames that decode, OCR a list of hits, the height track a parameter.
- Floating point: times, positions and confidences are reals; a comparison that only rounding decides is not captured.
- Reading of MCAP files, gripper normalisation and per-arm annotation filters (`usable_grasps`): their results are inputs of the plan.
- The idle-arm veto, the probing of camera shapes, report texts and statistics: the veto is a parameter, the rest is not part of the model.
- Empty or unsorted stamp lists: the exporter fails on the former, and the results about images need the latter sorted as recorded.
- The case split into categories, live cycle marks, exclude list and home drift check of the segmenter: one parameter says which stretches are wanted.
- A segmented session with no camera: the source fails on it.
- Upper-casing and digits beyond ASCII in part ids, and integers too long for the interpreter in a Content-Length header.
- The detector's box lookup by part, its exposure tuning and its mode and margin switches: easy members, or drivers of OCR.
- A grasp without a time in pose mode, on which the source fails.
- The wake-up, period and time budget of the handshake: a step may come at any time, so only what a wait that ends with True finds is stated.
- Aliasing of the tracker's entries: the source updates the held dictionaries in place and the model rebuilds the list; an exception half way is modelled as any mixture of held and current reads.
- Path checks, body size and JSON syntax of a verdict request: refused before anything modelled happens.
- Documents on disk that are malformed before the server starts, and overrides of anything but verdict fields and event fields.
- Reuse of a thread identifier by a later request, and other processes writing the same file.
- The rounding of reported silences to hundredths and the unit of reported gaps: the model keeps the exact length in seconds.
- Watcher pictures, joint poses, report and summary: output only. A health message is given as whether it differs in a way that counts.
- Robot control, streaming, training and user interface: drivers of libraries that are not part of this model.
