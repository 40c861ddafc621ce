# Algorithms and protocols of the tree, modelled and proved

This project models the parts of the repository whose correctness is hard to see from the code, and proves
what they are for. Each model follows the code's branches, constants and error paths; code that updates
objects and buffers in place is a class or a method over arrays, proved against a specification, and the
properties are lemmas about the specification or invariants the methods keep.

- **Animated images** (`Geometry`, `Animation`, `Replay`, `Compositor`, `RefreshArea`, `AnimationClock`,
  `AnimationState`, `FrameAnimator`, `Decoder`, `RasterImage`). The specification is a replay of frames 0 to k
  with disposal and blending as section 23 of GIF89a and the `dispose_op` and `blend_op` of APNG mean them. The
  compositor's two buffers, its cache of the last composited frame and all its shortcuts show exactly the replay:
  from a new image on, after any list of starts, refreshes, resets, frames decoded and the end of decoding, the
  picture handed out is the replay of the frame at which the clock alone arrives, and an image with loop count n
  has gone back to its first frame at most n times (`RasterImage.Play`) and, if that frame could always be
  supplied, exactly n times when it reports its end (`RasterImage.AnimatedImage.RequestRefresh`). The clock's
  whole-loop jump ends where single stepping ends, and the reported dirty rectangle covers every pixel that
  changes, across a wrap to the first frame as well.
- **Include cycles** (`Graph`, `Tarjan`, `Outlines`, `FindCycles`). The recursive Tarjan over dictionaries and an
  explicit stack yields the strongly connected components in reverse topological order; the report fails exactly
  when some cycle passes through two headers, and draws each component as an outline in which every include
  inside it has its line.
- **Downscalers** (`Filters`, `DownscalingFilter`, `Downscaler`). A sliding window of row pointers, rotated by
  swaps, writes exactly the rows a whole-image convolution would, as soon as their input is there.
- **Overwritable zip archive** (`ZipLayout`, `MozZipFile`). After any writes and a close the file is one record
  per name with the bytes last written, packed from the start; overwriting in place, cutting off the last entry
  and squeezing out removed ones never touch another entry. Layout as in section 4.3 of the PKWARE APPNOTE.
- **Principals** (`UrlParams`, `OriginAttributes`, `PrincipalClone`, `Principals`, `ExpandedOrigin`). Suffix and
  structured-clone round trips over nested expanded principals, subsumption as a preorder whose equalities are
  equivalences that identify exactly what agrees in attributes and origin, and origins of expanded principals that
  do not depend on the order of their parts.
- **Protocols** (`HalWakeLock`, `CopyOnWrite`, `DecodePool`). Running totals against a recount and what listeners
  are told; readers nested in writers nested in readers against a meaning without locks, in which every reader
  sees one value throughout; a monitor with workers as a state machine over all runs.
- **Build helpers** (`ExpandLibs`, `PathSub`). Expansion of possibly cyclic library descriptors, and relative
  paths by pointer walks.

Where the code does not meet the property its comments suggest, the code is kept as it is, a concrete case is
given, and the property is proved to hold exactly under a condition:

- A frame that stores colours and asks for the previous picture back, right after one that clears everything,
  saves nothing; a later restore shows a stale picture (`Compositor.StalePictureIsShown`,
  `Compositor.RestoreAfterClearAll`, `Compositor.BlendRightIff`).
- A first frame that asks for the previous picture back is right in the first loop; in later ones, and after a
  reset, it restores whatever is left saved (`Compositor.StaleFirstIsShown`, `Compositor.RestoreFirst`,
  `Compositor.WrapIsRightIff`).
- The area reported on a reset covers the change once decoding is done; before that it is empty, and so covers
  it only if there is none (`RasterImage.ResetIsMissed`, `RasterImage.AnimatedImage.ResetAnimation`).
- A counted animation that is refreshed more than a whole loop late jumps over whole loops without counting them,
  and so is played again as often as before (`AnimationClock.LateRefreshPlaysOn`,
  `AnimationClock.RefreshIsOnTimeIff`); one whose first frame cannot be supplied when a pass should begin counts
  the pass without playing it (`AnimationClock.PassIsLost`, `AnimationClock.PassesAreCountedIff`).
- The name of a dynamic library is looked for with the prefix replaced in the directory when that has it too
  (`ExpandLibs.DirectoryMisleads`, `ExpandLibs.DllNameIsRightIff`).
- The frame downscaler never commits the last input row when a frame ends above the bottom of the image
  (`Downscaler.LastRowIsMissing`, `Downscaler.FrameScaler.AllWrittenIff`).
- The structured-clone writer drops the attributes of an expanded principal and the stored origin of a content
  principal (`PrincipalClone.RoundTripIff`, `PrincipalClone.SomethingIsLost`).
- An origin with a caret splits wrongly when no suffix follows it (`OriginAttributes.CaretMisleads`,
  `OriginAttributes.OriginSplitsIff`).
- Writing the last listed entry of an opened archive again destroys entries that lie behind it
  (`MozZipFile.CutOffByWriting`, `MozZipFile.FirstWriteIsSafeIff`).
- A process that gives up its last wake lock but not its hidden count leaves the adjusted totals different from
  the recount, and one that hides a lock it does not hold can cause a notification about nothing; the tables and
  what listeners know stay right (`HalWakeLock.HiddenLockLingers`, `HalWakeLock.NothingHidden`,
  `HalWakeLock.WakeLocks.AdjustCounts`, `HalWakeLock.WakeLocks.ModifyWakeLock`).
- A relative path leads elsewhere when what is left of the first path after the two part has dot names, or they
  part inside repeated slashes, unless the second path climbs back to the root by itself
  (`PathSub.RelativeIsRightIff`, `PathSub.DotsMislead`, `PathSub.RepeatedSlashMisleads`). The test for a trailing
  slash there looks at the string's terminator and so always appends one.

`dafny verify dfyconfig.toml` checks the whole project.

## Model

| member | source | states |
|---|---|---|
| Graph.ClosedSetTraps | config/check_spidermonkey_style.py:436-448 | a path never leaves a set that no edge leaves, the reason a drawing stays inside its component |
| Graph.OnCycleIffMutual | config/check_spidermonkey_style.py:450-455 | a closed path passes through a header and another one exactly when the two reach each other |
| Tarjan.Run | config/check_spidermonkey_style.py:462-499 | terminates; the parts list every vertex exactly once, each part is mutually reachable, no edge leads to a later part, and nothing is left on the stack |
| Tarjan.Search.StrongConnect | config/check_spidermonkey_style.py:469-493 | keeps the invariant tying dictionaries, stack and finished parts; the stack below the call is untouched; the lowlink is reached by the vertex and bounds every edge to the stack below |
| Tarjan.Search.Consider | config/check_spidermonkey_style.py:476-484 | one successor: recursing, lowering to an index or ignoring a finished vertex all keep the lowlink a reached bound |
| Tarjan.Push | config/check_spidermonkey_style.py:470-474 | starting a call keeps that running vertices reach everything above them and everything on the stack reaches a running vertex below |
| Tarjan.Keep | config/check_spidermonkey_style.py:486-493 | a call that ends without being a root leaves a stack whose every entry still reaches a running vertex |
| Tarjan.PopRoot | config/check_spidermonkey_style.py:486-491 | popping from a root closes a part that is mutually reachable and has no edge to anything later |
| Tarjan.NothingLeft | config/check_spidermonkey_style.py:495-499 | with no call running the stack is empty and the parts cover all vertices |
| Tarjan.SamePartIffMutual | config/check_spidermonkey_style.py:462-499 | two vertices share a part exactly when each reaches the other |
| Tarjan.ReverseTopological | config/check_spidermonkey_style.py:462-499 | paths lead only to the same or an earlier part |
| FindCycles.Find | config/check_spidermonkey_style.py:429-457 | the report is empty unless some closed path of includes passes through two or more headers; else it is one error line and then drawings, each of them one whole component of such headers as an outline of its own in which every include inside the component has its line, no component twice and every one of them, so that exactly the headers on such paths are named |
| FindCycles.Report.Draw | config/check_spidermonkey_style.py:439-446 | terminates on cycles; prints an outline in which each line hangs under a header that includes it; nothing outside the component; each header drawn for the first time is expanded in exactly one line, under which hangs each thing it includes inside the component once, those drawn before included, and nothing hangs anywhere else |
| FindCycles.Report.DrawScc | config/check_spidermonkey_style.py:436-448 | prints, from one member, every member of the component and nothing else, as one outline with one expanded line for every member, and a blank line |
| FindCycles.DrawnIsWholePart | config/check_spidermonkey_style.py:436-447 | paths between members stay inside, so what a complete drawing reaches from one member is the whole component |
| FindCycles.OnCycleIffLargePart | config/check_spidermonkey_style.py:450-455 | a header lies on a cycle through two headers exactly when its component does not have one member |
| FindCycles.PrintedIsOnCycle | config/check_spidermonkey_style.py:450-457 | the members of the components that are drawn are exactly the headers on cycles |
| Outlines.OutlineGrows | config/check_spidermonkey_style.py:444-446 | drawing an included header one step further in keeps the outline well formed |
| Outlines.EveryEdgeDrawn | config/check_spidermonkey_style.py:439-446 | in the drawing of a component every include inside it has its line, also the one that closes a cycle: some line of the included header hangs under a line of the including one, and all that hang there hang under the same line, each header once |
| Outlines.ExpandsMore | config/check_spidermonkey_style.py:444-446 | drawing one more included header keeps every header below in one expanded line |
| Outlines.TopExpanded | config/check_spidermonkey_style.py:440-446 | once all it includes hangs under it the header at the top is expanded, and only there |
| Geometry.IntRect.Union | image/FrameAnimator.h:163 | covers both rectangles |
| Geometry.IntRect.Intersect | image/FrameAnimator.cpp:425-427 | a position is in the result exactly when it is in both |
| Animation.Timeout.FromRaw | image/imgFrame.h:69-94 | a normalised timeout is positive; it is endless exactly for negative raw values, 100 ms for 0 to 10, and otherwise the raw value |
| Compositor.BlendRightIff | image/FrameAnimator.cpp:410-690 | advancing from frame n-1 to n, by whichever shortcut, keeps the buffers equal to the replay at every position, except exactly when a frame shown raw forgets to save and what is left saved is not the picture to restore |
| Compositor.BlendKeepsRight | image/FrameAnimator.cpp:410-690 | so on playable images, whatever the first frame's disposal, every advance keeps them equal |
| Compositor.RawIsRight | image/FrameAnimator.cpp:450-466 | a frame shown as it is stored, after a clear or covering everything opaquely, is the replayed picture |
| Compositor.DisposeIsRight | image/FrameAnimator.cpp:508-642 | after disposing, or skipping it, drawing the next frame gives the replayed picture; when not skipped the buffer is the replay's picture under that frame |
| Compositor.SkippedDisposalIsHidden | image/FrameAnimator.cpp:530-554 | all that a skipped disposal would change is hidden by the next frame |
| Compositor.DrawFrameIsDrawn | image/FrameAnimator.cpp:748-884 | blending over and recopying the blend rectangle is plain drawing inside it |
| Compositor.ShownIsReplay | image/FrameAnimator.cpp:295-325 | the composited or raw frame handed out is the replay's picture |
| Compositor.Start | image/FrameAnimator.h:180-186 | empty buffers are right for the first frame |
| Compositor.Rewind | image/FrameAnimator.cpp:217-218 | going back to the first frame needs no compositing, and what the buffers hold stays right; only a first frame that restores asks that nothing wrong is left saved |
| Compositor.BlendDirtyIsSound | image/FrameAnimator.cpp:468-496 | outside the reported rectangle the two pictures are the same |
| Compositor.RestoreAfterClearAll | image/FrameAnimator.cpp:450-456 | restoring after a frame shown raw behind a clear is right exactly when nothing, or a blank, is left from an earlier save |
| Compositor.StalePictureIsShown | image/FrameAnimator.cpp:450-456 | five one-pixel frames on which the code shows a pixel where the replay shows none |
| Compositor.FirstLoopIsRight | image/FrameAnimator.cpp:410-690 | the whole first loop shows the replay, also of an image whose first frame restores, whatever new buffers held |
| Compositor.RestoreFirst | image/FrameAnimator.cpp:578-594 | disposing of a first frame that restores is right exactly when nothing, or a blank, is left from an earlier save |
| Compositor.BlendKeepsTidy | image/FrameAnimator.cpp:591-594 | every loop saves and frees the previous picture at the same frames as the first one |
| Compositor.WrapIsRightIff | image/FrameAnimator.cpp:419-423 | after a wrap, disposing of a first frame that restores is right exactly when the loop ends with nothing saved, or a blank |
| Compositor.StaleFirstIsShown | image/FrameAnimator.cpp:578-594 | four one-pixel frames, the first of which restores: the first loop is right, and the second shows a pixel where the replay shows none |
| Geometry.UnionIsLeast | image/FrameAnimator.h:163 | no smaller rectangle covers both |
| RefreshArea.LeastGrows | image/Decoder.cpp:348-369 | with one frame more the area takes in what a wrap must redraw and is the smallest rectangle that does |
| RefreshArea.TakesInCovers | image/Decoder.cpp:348-369 | an area taking in the first frame's disposal and all later rectangles covers everything a loop can change |
| RefreshArea.Untouched | image/Decoder.cpp:348-369 | outside the area every frame is drawn on, and leaves, the first picture |
| AnimationClock.AdvanceMakesProgress | image/FrameAnimator.cpp:274-290 | every turn of the refresh loop that is not the last brings the frame time nearer to the refresh time, so a refresh ends |
| AnimationClock.AdvanceSettles | image/FrameAnimator.cpp:236-253 | one advance with its whole-loop jump leads single stepping to the same frame and time |
| AnimationClock.SettleLoops | image/FrameAnimator.cpp:238-253 | starting later by whole loops that are due anyway leads to the same frame at the same time |
| AnimationClock.RefreshSettles | image/FrameAnimator.cpp:264-293 | a refresh with its jumps ends at the frame and time where stepping one frame at a time ends |
| AnimationClock.RefreshPlays | image/FrameAnimator.cpp:149-178 | for a fully decoded animation whose frames all end, with a limit: a refresh plays one frame after another through the current pass and as many more as are left, from as much later as its whole-loop jump skips, and reports the end exactly when the last frame of the last pass has ended; in the mode that plays once no pass is left |
| AnimationClock.RefreshIsOnTimeIff | image/FrameAnimator.cpp:236-253 | frame, time, passes left and end are those of playing from the frame's own start exactly when the refresh comes no later than a whole loop after the frame's end, or plays once, or is in the last frame of the last pass |
| AnimationClock.LateRefreshPlaysOn | image/FrameAnimator.cpp:236-253 | two frames of 100 ms shown twice are over after 400 ms; refreshed for the first time after 1000 ms they are not |
| AnimationClock.OverIff | image/FrameAnimator.cpp:149-178 | playing stops in a frame that lasts past the refresh time, or is over, and then with the last frame and no pass left |
| AnimationClock.PlayTakes | image/FrameAnimator.cpp:149-178 | the time that playing takes is that of the frames and whole passes it goes through |
| AnimationClock.PassesAreCountedIff | image/FrameAnimator.cpp:149-212 | a pass counted down is one that begins, exactly unless the first frame cannot be supplied when the pass should begin |
| AnimationClock.PassIsLost | image/FrameAnimator.cpp:173-212 | at the end of the first of two passes, with no frame at hand, the second is counted and not begun |
| AnimationClock.WaitsForFrame | image/FrameAnimator.cpp:180-193 | while the next frame is unknown the current one is held and starts anew at every refresh after its end |
| AnimationClock.WaitsForSupply | image/FrameAnimator.cpp:205-212 | a known frame that cannot be supplied yet is waited for without touching the clock |
| AnimationClock.EndlessFrameStays | image/FrameAnimator.cpp:214-216 | an endless frame is never left, and reaching one ends the animation |
| AnimationState.State.constructor | image/FrameAnimator.h:27-35 | starts at frame 0, looping forever, with no loop length |
| AnimationState.State.TakeTurn | image/FrameAnimator.cpp:149-178 | the next frame, the loops left and whether the animation stops, as the clock whose counted playback is proved; a wrap is only taken while loops remain, and the count goes down with it |
| AnimationState.State.Arrive | image/FrameAnimator.cpp:236-256 | the index stays below the known count, the time moves by whole loops that fit, and once loops are counted wraps plus remaining loops never exceed the count |
| AnimationState.State.UpdateKnownFrameCount | image/FrameAnimator.cpp:45-59 | the known count never falls |
| AnimationState.State.ResetAnimation | image/FrameAnimator.cpp:33-37 | back to frame 0 with loops already counted still counted |
| AnimationState.State.SetLoopCount | image/FrameAnimator.h:93 | any count, at any time, keeps the invariant; given before the first wrap, or again unchanged, it is the count that bounds the wraps |
| AnimationState.State.WrapsAreBounded | image/FrameAnimator.cpp:149-178 | an animation given loop count n before it wrapped goes back to its first frame at most n times; every run of commands keeps what this asks |
| AnimationState.State.SetLoopLength | image/FrameAnimator.h:97 | keeps the loop length positive |
| FrameAnimator.Animator.DoBlend | image/FrameAnimator.cpp:409-690 | at every position the two buffers and the cached index make the compositing step the run theorems are about, whatever a new buffer held; the dirty rectangle is the one proved sound |
| FrameAnimator.Animator.Recomposite | image/FrameAnimator.cpp:508-689 | creating, disposing, saving and drawing make that step at every position |
| FrameAnimator.Animator.Dispose | image/FrameAnimator.cpp:556-642 | the buffers after disposal, at every position, for every disposal method and for a fresh buffer |
| FrameAnimator.Animator.Save | image/FrameAnimator.cpp:644-673 | the saved buffer equals the compositing buffer, which is untouched |
| FrameAnimator.Animator.DrawFrameTo | image/FrameAnimator.cpp:747-884 | every position gets the frame's pixel as the per-pixel meaning says |
| FrameAnimator.Animator.DrawPaletted | image/FrameAnimator.cpp:766-809 | row by row, clipped, with colour zero see-through under alpha |
| FrameAnimator.Animator.ClearFrame | image/FrameAnimator.cpp:694-702 | every position is blank |
| FrameAnimator.Animator.ClearRect | image/FrameAnimator.cpp:705-724 | exactly the positions of the rectangle inside the buffer are blank |
| FrameAnimator.Animator.CopyFrameImage | image/FrameAnimator.cpp:729-745 | the destination equals the source |
| FrameAnimator.Animator.BlendShown | image/FrameAnimator.cpp:219-234 | from the replayed picture of one frame to that of the next, the same outside the dirty rectangle |
| FrameAnimator.Animator.ShowFrame | image/FrameAnimator.cpp:217-234 | the next frame is on show, and outside the reported area nothing changed, also when wrapping to the first frame |
| FrameAnimator.Animator.AdvanceFrame | image/FrameAnimator.cpp:140-262 | moves as the clock says, keeps the replayed picture on show and the index below the known count, and reports all that changed |
| FrameAnimator.Animator.MoveOn | image/FrameAnimator.cpp:213-261 | the next frame, or the first one at the end of a loop, is on show at the time the current one ends |
| FrameAnimator.Animator.RequestRefresh | image/FrameAnimator.cpp:264-293 | ends; shows the replayed picture of the new frame; for an endless animation lands where single stepping lands; reports the end exactly as the clock does, and an advance exactly when the current frame has ended, is not the last to be shown, and the next is known and at hand; with a limit, wraps and passes left keep their sum; the accumulated rectangle covers every change |
| FrameAnimator.Animator.GetCompositedFrame | image/FrameAnimator.cpp:295-325 | what is handed out for the current frame is, at every position, the replay of frames 0 to k |
| FrameAnimator.Animator.Reset | image/FrameAnimator.cpp:33-37 | a reset keeps the picture right without touching a buffer, unless the first frame restores and something is saved |
| FrameAnimator.Animator.FrameDecoded | image/FrameAnimator.cpp:45-59 | hearing of another decoded frame changes no picture |
| Decoder.FrameDecoder.AllocateFrame | image/Decoder.cpp:280-374 | accepts exactly the next frame with a drawable area; the refresh area is the smallest rectangle taking in what a wrap must redraw |
| Decoder.FrameDecoder.PostFrameStop | image/Decoder.cpp:434-465 | the frame in progress gets its parameters and its timeout is added to the loop length |
| Decoder.FrameDecoder.PostError | image/Decoder.cpp:506-518 | the frame in progress no longer counts; complete frames and the loop length are kept |
| Decoder.FrameDecoder.PostDecodeDone | image/Decoder.cpp:484-504 | loop length and refresh area are reported as added up; a decode of the first frame only leaves both as they were |
| Decoder.FrameDecoder.CompleteDecode | image/Decoder.cpp:178-223 | decoding counts as done exactly when it was or some frame is complete; an unfinished frame becomes an endless one that is kept and drawn over, unless the format's clean-up failed, which drops it |
| Decoder.TotalIsLoopLength | image/Decoder.cpp:457 | the decoder's total is the sum of frame timeouts the clock counts with |
| Decoder.EndlessFrameEndlessLoop | image/Decoder.cpp:457 | the loop is endless exactly when some frame is |
| Decoder.ReportedAreaCoversLoop | image/Decoder.cpp:498-501 | the reported refresh area covers everything a loop changes, and the reported loop length is the total of the frames |
| RasterImage.Play | image/RasterImage.cpp:166-199 | from a new image, after any permitted list of starts, refreshes, resets, frames decoded and the end of decoding, the picture handed out is at every position the replay of the frame where the clock alone arrives; with loop count n there were at most n wraps, and none before decoding ended; while the first frame can be supplied, wraps made and passes left always add up to n |
| RasterImage.AnimatedImage.constructor | image/RasterImage.cpp:706-710 | a new compositor and a new state have the first frame's picture on show |
| RasterImage.AnimatedImage.SetMetadata | image/RasterImage.cpp:725-735 | what the decoder reports is a positive loop length, the total of the frames, and an area covering all that a loop changes |
| RasterImage.AnimatedImage.NotifyDecodeComplete | image/RasterImage.cpp:1570-1615 | the end of decoding lets the animation wrap and jump, with the replayed picture still on show |
| RasterImage.AnimatedImage.NotifyProgress | image/RasterImage.cpp:1552-1556 | hearing of one more frame, or of one known already, changes no picture |
| RasterImage.AnimatedImage.RequestRefresh | image/RasterImage.cpp:166-199 | playback moves as the clock alone does, the picture is the replay, and outside the reported area it has not changed; a fully decoded image that loops forever lands where single stepping lands; one with loop count n reports its end exactly when it has made n wraps, none in the mode that plays once, and its last frame has ended; with no advance reported neither frame nor wraps have changed |
| RasterImage.DecodedIsComplete | image/Decoder.cpp:457 | once all frames are decoded and end, the reported loop length is what single stepping and counted playback take for a loop |
| RasterImage.WhereRefreshEnds | image/FrameAnimator.cpp:149-178 | after a refresh of a fully decoded image with a limit the animation has ended exactly when the frame on show has, and then that is the last frame with no pass left; an endless one never ends |
| RasterImage.AnimatedImage.ResetAnimation | image/RasterImage.cpp:814-844 | the first frame's picture is on show again; the area reported covers the change exactly if decoding is done or nothing changed |
| RasterImage.ResetIsMissed | image/RasterImage.cpp:834-836 | a run of two one-pixel frames in which a reset before decoding ends changes the pixel and reports no area |
| Filters.KeepLast | image/DownscalingFilter.h:338-342 | the swaps bring the last rows to the front in order and lose no buffer |
| Filters.Slide | image/DownscalingFilter.h:329-342 | with filters that never step back at either end, the rows both filters need stay, in order |
| DownscalingFilter.Stream.AdvanceRow | image/DownscalingFilter.h:229-273 | one input row: every row written so far is the whole-image convolution of the rows fed; the capacity assertion holds; another row is wanted until the input ends |
| DownscalingFilter.Stream.TakeRow | image/DownscalingFilter.h:241-253 | the row goes into the window exactly when the next output row needs it, and the window has room |
| DownscalingFilter.Stream.WriteRow | image/DownscalingFilter.h:304-318 | the row written is the convolution of exactly the input rows of its filter |
| DownscalingFilter.Stream.DownscaleInputRow | image/DownscalingFilter.h:297-343 | one more row is written and the window is moved on to the next filter |
| DownscalingFilter.Stream.ResetToFirstRow | image/DownscalingFilter.h:218-227 | starts over with nothing fed |
| DownscalingFilter.Stream.WrittenWhenComplete | image/DownscalingFilter.h:258-267 | an output row is written as soon as its last input row has been fed, and not before |
| DownscalingFilter.Stream.AllWritten | image/DownscalingFilter.h:236-239 | once all input rows are fed all output rows are out |
| DownscalingFilter.Downscale | image/DownscalingFilter.h:229-273 | feeding an image row by row writes each output row once, in order, equal to the whole-image downscale |
| Downscaler.FrameScaler.CommitRow | image/Downscaler.cpp:219-262 | the row, and after the frame's last row the blank rows that follow, are committed; what is written stays the whole-image convolution |
| Downscaler.FrameScaler.PutRow | image/Downscaler.cpp:225-255 | one row is taken and every output row it completes is written |
| Downscaler.FrameScaler.TakeLine | image/Downscaler.cpp:226-238 | the row goes into the window exactly when needed, and the window has room |
| Downscaler.FrameScaler.WriteLine | image/Downscaler.cpp:310-327 | the output line, counted from the top of a plain image and from the bottom of a flipped one, is the convolution of the rows of its filter |
| Downscaler.FrameScaler.DownscaleInputLine | image/Downscaler.cpp:301-353 | one more line is written and the window is moved on |
| Downscaler.FrameScaler.SkipToRow | image/Downscaler.cpp:169-178 | commits blank rows up to the row asked for, or to the last but one row when the frame's end is passed |
| Downscaler.FrameScaler.ResetForNextProgressivePass | image/Downscaler.cpp:180-195 | a pass starts with exactly the blank rows above the frame |
| Downscaler.FrameScaler.TakeInvalidRect | image/Downscaler.cpp:264-299 | the rows of the rectangle are those written since the last call: from the first of them on in a plain image, and in a flipped one ending where they begin from the bottom; the rows of the original image are the least whole range around the scaled ones |
| Downscaler.FrameScaler.WrittenWhenCommitted | image/Downscaler.cpp:240-252 | an output row has been written exactly when its last input row has been committed |
| Downscaler.FrameScaler.AllWrittenIff | image/Downscaler.cpp:257-261 | all output rows are written exactly when the frame reaches the bottom or no output row needs the last input row |
| Downscaler.LastRowIsMissing | image/Downscaler.cpp:257-261 | a run over a frame of one row in an image of two leaves the only output row unwritten |
| Downscaler.FrameScaler.WrittenIsBatch | image/Downscaler.cpp:219-262 | row o of the buffer, in a flipped image the row o places above the bottom, is row o of the whole-image downscale of the frame padded with blank rows |
| Downscaler.DownscaleFrame | image/Downscaler.cpp:169-262 | a whole frame commits the padded image but possibly its last row, and each row written lies in the right order: top down in a plain image, bottom up in a flipped one |
| ZipLayout.MovedKeepsRecords | config/MozZipFile.py:112-135 | squeezing keeps every wanted record byte for byte, in order and without overlap |
| ZipLayout.SqueezedTight | config/MozZipFile.py:118-135 | squeezing a gap-free file leaves the wanted records packed from the start |
| ZipLayout.SortFinds | config/MozZipFile.py:91 | sorting finds the one list in which offsets rise |
| MozZipFile.Append | config/MozZipFile.py:90-94 | a record added at the end leaves the others as they were |
| MozZipFile.Replace | config/MozZipFile.py:70-82 | writing a record of the same length over an entry leaves every other entry as it was |
| MozZipFile.CutLast | config/MozZipFile.py:77-79 | cutting the file at its last entry spares everything before it |
| MozZipFile.ReplacedIsListed | config/MozZipFile.py:60-94 | whichever of the three ways an entry is written again, its name has the new bytes and every other entry is kept, and no gap appears |
| MozZipFile.FirstWriteIsSafeIff | config/MozZipFile.py:60-94 | the first write after opening an archive, whatever its bytes, spares the other entries exactly when the entry is not the last listed or lies behind all others |
| MozZipFile.FirstWritten | config/MozZipFile.py:60-94 | such a write leaves the directory in file order, the name with its new bytes and every other entry as it was |
| MozZipFile.Update | config/MozZipFile.py:26-137 | an archive listed in any order, opened, written to once where that is safe, and closed, holds the new bytes and every other entry |
| MozZipFile.CutOffByWriting | config/MozZipFile.py:72-79 | an archive listing two entries against their order is opened and the one listed last written again: the other is still listed but beyond the end of the file |
| MozZipFile.AllIsLayout | config/MozZipFile.py:112-114 | kept and removed entries sorted by offset are the entries of the file in order |
| MozZipFile.ClosedInPlace | config/MozZipFile.py:102-106 | with nothing removed, writing the directory finishes the archive |
| MozZipFile.ClosedCompact | config/MozZipFile.py:112-136 | after squeezing, each kept name has its record, and the file is records followed by directory |
| MozZipFile.ZipFile.Create | config/MozZipFile.py:18-35 | an empty archive |
| MozZipFile.ZipFile.Open | config/MozZipFile.py:26-35 | an archive with any directory is continued where its records stop; if the directory is in file order, with what it holds |
| MozZipFile.ZipFile.FindLast | config/MozZipFile.py:62-68 | the last listed entry with a name |
| MozZipFile.ZipFile.WriteStr | config/MozZipFile.py:37-94 | on any opened archive the last entry of the name is replaced, or a new one appended; on one in order, or on the first write where that is safe, the name now has these bytes and every other name what it had |
| MozZipFile.ZipFile.Rewrite | config/MozZipFile.py:60-94 | file, directory, removed entries and position after one write, for each of the three ways |
| MozZipFile.ZipFile.Unhook | config/MozZipFile.py:61-88 | the last entry of a name leaves the directory; it is cut off, gone back to, or kept for removal |
| MozZipFile.ZipFile.Compact | config/MozZipFile.py:118-135 | the loop copying records down inside the one file leaves exactly the squeezed file and the moved directory |
| MozZipFile.ZipFile.Close | config/MozZipFile.py:96-137 | the closed archive holds each name once with its last-written bytes, kept entries in order; the directory lies where the records stopped, or right behind the squeezed records at the end of the file; it is packed if it was built without gaps |
| MozZipFile.ZipFile.CloseSqueezing | config/MozZipFile.py:108-137 | the same, through the squeezing path |
| MozZipFile.Build | config/MozZipFile.py:37-137 | any run of writes and a close gives exactly one record per name with the bytes last written, then the directory |
| UrlParams.DecodeEncode | dom/url/URLSearchParams.cpp:143-276 | decoding what was encoded gives the bytes back |
| UrlParams.EncodeHasNoSeparator | dom/url/URLSearchParams.cpp:255-276 | no separator and no caret survives encoding |
| UrlParams.ParseEncodedParam | dom/url/URLSearchParams.cpp:226-249 | a serialized name and value parse back |
| UrlParams.ParseSerialize | dom/url/URLSearchParams.cpp:200-297 | parsing a serialized list gives the list back, and the text has no caret |
| UrlParams.EncodeIsPlain | dom/url/URLSearchParams.cpp:255-276 | encoded text has nothing but plain characters, plus and percent signs, and text is its own encoding exactly when all of it is plain |
| UrlParams.EncodeSpells | dom/url/URLSearchParams.cpp:255-276 | a space is encoded as a plus, and any other byte that is not plain as a percent sign and two upper-case digits with its value |
| UrlParams.DecodeIsIdentityIff | dom/url/URLSearchParams.cpp:143-198 | decoding leaves text alone exactly when it has no plus and no percent sign with two digits behind it |
| UrlParams.ParseJoin | dom/url/URLSearchParams.cpp:200-249 | parsing two lists joined by a separator gives the one and then the other |
| UrlParams.ParsePiece | dom/url/URLSearchParams.cpp:200-249 | a piece without a separator is one pair, cut at its first equals sign if it has one, and empty text is none |
| OriginAttributes.SuffixRoundTrip | caps/BasePrincipal.cpp:125-186 | filling defaults in from a suffix gives back the attributes |
| OriginAttributes.SuffixFills | caps/BasePrincipal.cpp:194-296 | filling any attributes in from the suffix of any others: what that leaves out stays as it was, except the private browsing id, and the program stops exactly where a text is there already |
| OriginAttributes.SuffixSpelled | caps/BasePrincipal.cpp:125-186 | the suffix is a caret and, in their order and joined by ampersands, each attribute that is not default with its name, an equals sign and its encoded value |
| OriginAttributes.TakenIff | caps/BasePrincipal.cpp:216-272 | which entries are taken, which stop the program, and the one attribute each changes; a negative number wraps for two of them and is refused for the third |
| OriginAttributes.SuffixInjective | caps/BasePrincipal.cpp:125-186 | different attributes have different suffixes |
| OriginAttributes.SuffixShape | caps/BasePrincipal.cpp:172-178 | a suffix is empty for default attributes only, and otherwise has one caret, in front |
| OriginAttributes.OriginSplitsIff | caps/BasePrincipal.cpp:298-313 | origin and suffix split back exactly when the bare origin has no caret or some attribute is not default |
| OriginAttributes.CaretMisleads | caps/BasePrincipal.cpp:298-313 | an origin with a caret and default attributes that is cut at the caret and refused |
| OriginAttributes.Store.CreateSuffix | caps/BasePrincipal.cpp:125-186 | writes the suffix, or stops at a string with a forbidden character |
| OriginAttributes.Store.Take | caps/BasePrincipal.cpp:216-272 | one name and value, with each failure and each release assertion |
| OriginAttributes.Store.PopulateFromSuffix | caps/BasePrincipal.cpp:280-296 | the iteration fills attributes in up to the first entry that is refused; those before it stay filled in |
| OriginAttributes.Store.PopulateFromOrigin | caps/BasePrincipal.cpp:298-313 | splits at the last caret and fills attributes in from what follows, as far as it goes |
| PrincipalClone.RoundTripIff | caps/nsJSPrincipals.cpp:106-287 | reading what was written leaves the rest of the stream alone and gives the same principal back exactly when there is nothing to lose, for any nesting |
| PrincipalClone.ReadWritten | caps/nsJSPrincipals.cpp:161-287 | reading what was written gives what survives and the rest of the stream |
| PrincipalClone.SurvivesIff | caps/nsJSPrincipals.cpp:196-204 | a principal survives unchanged exactly when no expanded part has attributes and no origin is stored |
| PrincipalClone.SomethingIsLost | caps/nsJSPrincipals.cpp:268-286 | two concrete principals that can be written and come back changed |
| PrincipalClone.ReadWrittenSuffixAndSpec | caps/nsJSPrincipals.cpp:127-159 | attributes and spec are read back from what was written |
| PrincipalClone.CutShortIsRejected | caps/nsJSPrincipals.cpp:106-194 | however little is missing at its end, an encoding that was cut short is refused, for any nesting |
| PrincipalClone.WriteSuffixAndSpec | caps/nsJSPrincipals.cpp:244-255 | the writer's stream grows by the two lengths and the two strings |
| PrincipalClone.WritePrincipalInfo | caps/nsJSPrincipals.cpp:257-287 | the recursive writer's stream grows by exactly the encoding the round trip is about |
| PrincipalClone.ReadSuffixAndSpecFrom | caps/nsJSPrincipals.cpp:127-159 | result and position agree with the specification on every stream, malformed ones included |
| PrincipalClone.ReadWhitelist | caps/nsJSPrincipals.cpp:183-194 | the loop over the whitelist agrees with the specification on every stream |
| PrincipalClone.ReadPrincipalInfo | caps/nsJSPrincipals.cpp:161-210 | the recursive reader agrees with the specification on every stream and tag |
| Principals.SubsumesIffCovers | caps/nsPrincipal.cpp:728-758 | subsumption is leaf by leaf at any nesting; an expanded principal is subsumed only by expanded ones and the system principal |
| Principals.SubsumesReflexive | caps/BasePrincipal.cpp:371-387 | every principal subsumes itself |
| Principals.SubsumesTransitive | caps/BasePrincipal.cpp:371-387 | subsumption is transitive over all kinds of principal, with and without document.domain |
| Principals.LeafTransitive | caps/nsPrincipal.cpp:198-233 | transitivity for principals that are not expanded |
| Principals.EqualsIsEquivalence | caps/BasePrincipal.cpp:388-404 | both equalities are equivalences; what they identify is said without subsumption in the four rows below |
| Principals.CodebaseEqualIff | caps/nsPrincipal.cpp:198-233 | two codebase principals are equal exactly when they are the same, or their attributes agree and their URIs compare the same; considering domains, the domains decide once either has one |
| Principals.NullAndSystemEqualIff | caps/BasePrincipal.cpp:371-404 | a null principal equals nothing but itself; the system principal equals exactly what has the system principal among its parts |
| Principals.SubsumesIffAdmits | caps/BasePrincipal.cpp:371-387 | one principal that is not expanded subsumes another exactly when it is the same, or the system principal, or a codebase principal with the same attributes whose URI, or domain where that counts, compares the same |
| Principals.EqualIffPartsAdmit | caps/nsPrincipal.cpp:728-758 | principals of any nesting are equal exactly when each part of either is admitted, by that rule, by some part of the other |
| Principals.DomainNeedsDomain | caps/nsPrincipal.cpp:209-226 | setting document.domain counts only when both sides do it, also inside expanded principals |
| ExpandedOrigin.OriginIsCanonical | caps/nsPrincipal.cpp:681-726 | the origin, or its failure, depends only on what the whitelist holds and not on its order |
| ExpandedOrigin.NewExpandedPrincipal | caps/nsPrincipal.cpp:681-691 | the principals kept are those given, sorted by origin when all have one |
| ExpandedOrigin.InsertElementSorted | xpcom/ds/nsTArray.h:1483-1489 | the item is added and a sorted list stays sorted |
| ExpandedOrigin.IndexOfFirstElementGt | mfbt/BinarySearch.h:66-96 | the binary search finds a place between smaller and larger origins, although equality compares objects |
| ExpandedOrigin.SortedIsUnique | caps/nsPrincipal.cpp:684-690 | two sorted lists of the same strings are the same list |
| ExpandedOrigin.LessIsTotal | xpcom/string/nsTStringComparator.cpp:7-39 | the order of byte strings is total and antisymmetric |
| ExpandedOrigin.LessIff | xpcom/string/nsTStringComparator.cpp:7-39 | one string of bytes comes before another exactly when it is a proper prefix or has the smaller byte where they first differ |
| ExpandedOrigin.GetOriginInternal | caps/nsPrincipal.cpp:709-726 | the loop joins the origins of the parts, or fails as soon as one has none |
| ExpandedOrigin.GetOrigin | caps/BasePrincipal.cpp:353-363 | the internal origin with the suffix of the attributes |
| ExpandedOrigin.OriginOfExpanded | caps/nsPrincipal.cpp:709-726 | the origin of an expanded principal is the joined origins of its parts in their brackets, and its own suffix |
| ExpandedOrigin.JoinOfTwo | caps/nsPrincipal.cpp:713-722 | lists of origins joined one after the other have one comma and space between them |
| ExpandedOrigin.NoOriginIff | caps/nsPrincipal.cpp:709-726 | a principal has no origin exactly when one of the principals it is made of, at any depth, has none |
| HalWakeLock.WakeLocks.ModifyWakeLock | hal/HalWakeLock.cpp:196-257 | for every call the assertions let through exactly one count changes, and is dropped with its last lock; a listener is told when the lock state or the holders of the topic changed, otherwise only in one exactly described case, and stays up to date |
| HalWakeLock.WakeLocks.AdjustCounts | hal/HalWakeLock.cpp:212-246 | the assertions hold and exactly one count changes; the adjusted lock total is the recount, the hidden one exactly unless a process without locks is left with hidden ones; the code's test is passed exactly when what a listener knows changes, or a lock nobody holds is hidden where that changes the state |
| HalWakeLock.WakeLocks.ObserveContentShutdown | hal/HalWakeLock.cpp:105-147 | the process is gone from every topic, nothing else changes, and listeners are told once about each topic that lost it and about no other |
| HalWakeLock.WakeLocks.ForgetAt | hal/HalWakeLock.cpp:127-141 | one topic forgets one process; an emptied topic goes |
| HalWakeLock.WakeLocks.GetWakeLockInfo | hal/HalWakeLock.cpp:259-279 | counts and holders are those a recount finds; nothing is known after shutdown |
| HalWakeLock.WakeLocks.EnableWakeLockNotifications | hal/HalWakeLock.cpp:184-188 | a listener that joins knows the current state |
| HalWakeLock.WakeLocks.DisableWakeLockNotifications | hal/HalWakeLock.cpp:190-194 | keeps the invariant |
| HalWakeLock.WakeLocks.ClearOnShutdown | hal/HalWakeLock.cpp:85-94 | forgets every lock |
| HalWakeLock.CountWakeLocks | hal/HalWakeLock.cpp:59-74 | in any iteration order the totals are the sums and each process is listed once |
| HalWakeLock.CountFrom | hal/HalWakeLock.cpp:59-74 | a recount may start with any process |
| HalWakeLock.CountAfterChange | hal/HalWakeLock.cpp:233-243 | storing or removing one process shifts the totals by what changed |
| HalWakeLock.KnownChanges | hal/HalWakeLock.cpp:248-251 | what a listener should know changes exactly when the recounted state does or a process comes or goes |
| HalWakeLock.TestIsRight | hal/HalWakeLock.cpp:248-251 | the test on the adjusted totals never misses such a change, and when exactly it is passed without one |
| HalWakeLock.HiddenLockLingers | hal/HalWakeLock.cpp:223-246 | a permitted call after which the adjusted totals hide a lock and the recount none |
| HalWakeLock.NothingHidden | hal/HalWakeLock.cpp:223-256 | a permitted call that changes nothing and is notified |
| HalWakeLock.CountsDetermineTables | hal/HalWakeLock.cpp:239-246 | nothing is stored that does not count |
| HalWakeLock.LaterListener | hal/HalWakeLock.cpp:248-256 | a listener that joined later is up to date exactly when the first one is |
| HalWakeLock.ComputeWakeLockState | hal/HalWakeLock.cpp:168-178 | unlocked exactly without locks, hidden exactly when there are some and all are hidden, visible otherwise |
| CopyOnWrite.NestingIsSerial | image/CopyOnWrite.h:144-238 | however reads and writes nest, the value ends as if the successful writers had run one after the other |
| CopyOnWrite.RunIsIsolated | image/CopyOnWrite.h:144-211 | in every script each look of a reader shows the value that the writers before that reader began have left, at any nesting, and a write in between changes nothing of it |
| CopyOnWrite.WriterIsIsolated | image/CopyOnWrite.h:195-211 | each look of a writer shows the value it started from with its own changes so far, and what is tried inside it is refused |
| CopyOnWrite.CopyOnWrite.ReadWith | image/CopyOnWrite.h:144-155 | the reader is shown its snapshot by every look of its own, whatever was written meanwhile, and nested readers theirs; what is left is what the writers, one after the other, make of it; every lock is as before; what others read has not changed |
| CopyOnWrite.CopyOnWrite.TryRead | image/CopyOnWrite.h:166-177 | the same, or refused with nothing changed exactly while a writer runs |
| CopyOnWrite.CopyOnWrite.WriteWith | image/CopyOnWrite.h:195-211 | the writer starts from the latest value, is shown its own changes so far, and what these come to is the next value; a copy is made exactly when somebody reads; no reader's value changes |
| CopyOnWrite.CopyOnWrite.TryWrite | image/CopyOnWrite.h:227-238 | the same, or refused with nothing changed exactly while a writer runs |
| CopyOnWrite.CopyOnWrite.RunSteps | image/CopyOnWrite.h:99-111 | a callback's whole script, with nested reads and writes, means what the model without locks and copies says, the one whose readers are proved isolated |
| CopyOnWrite.CopyOnWrite.RunWriterSteps | image/CopyOnWrite.h:207-210 | inside a writer nothing succeeds, and only the value being written changes |
| DecodePool.InvAlways | image/DecodePool.cpp:83-187 | every state of every run satisfies the invariant; while a worker sleeps there is an awake one for every queued task |
| DecodePool.NeverAllAsleep | image/DecodePool.cpp:83-135 | no lost wakeup: with work queued some worker is on its way to the monitor, and after a shutdown request nobody sleeps |
| DecodePool.NothingLost | image/DecodePool.cpp:91-148 | accepted tasks are those queued and those handed out, each once; when no worker can move all were handed out |
| DecodePool.HighFirst | image/DecodePool.cpp:118-124 | no low-priority task is handed out while a high-priority one waits |
| DecodePool.AcceptedIff | image/DecodePool.cpp:91-110 | in every run a pushed task is accepted, and stays so, exactly when shutdown was not requested before; otherwise the push changes nothing |
| DecodePool.LastInFirstOut | image/DecodePool.cpp:140-148 | the task pushed last is the next one handed out, unless it has low priority and one of high priority waits |
| DecodePool.EmptyAfterExit | image/DecodePool.cpp:126-130 | once a worker has gone it stays gone and the queues stay empty |
| DecodePool.EffortFalls | image/DecodePool.cpp:83-88 | after a shutdown request every change of state is a worker's and brings the end nearer |
| DecodePool.ShutdownFinishes | image/DecodePool.cpp:164-187 | until all workers are gone some worker can go on, and at the end every accepted task was handed out |
| DecodePool.PushKeeps | image/DecodePool.cpp:91-110 | pushing, with one sleeper woken, keeps the invariant |
| DecodePool.PopKeeps | image/DecodePool.cpp:113-135 | a turn of the popping loop, ending in work, shutdown or sleep, keeps the invariant |
| DecodePool.ShutdownKeeps | image/DecodePool.cpp:83-88 | waking everybody keeps the invariant |
| DecodePool.DecodePoolImpl.PushWork | image/DecodePool.cpp:91-110 | is a push step of the state machine, or nothing once shutting down |
| DecodePool.DecodePoolImpl.PopWork | image/DecodePool.cpp:113-135 | is a pop step of the state machine, and the work returned is what the worker then does |
| DecodePool.DecodePoolImpl.PopWorkFromQueue | image/DecodePool.cpp:140-148 | takes the last task off |
| DecodePool.DecodePoolImpl.RequestShutdown | image/DecodePool.cpp:83-88 | is a shutdown step of the state machine |
| ExpandLibs.EachReachedOnce | config/expandlibs.py:102-140 | whatever the cycles, each descriptor reachable without passing a dynamic library contributes its objects and its other entries exactly once, and nothing else does |
| ExpandLibs.WalkIsRight | config/expandlibs.py:123-140 | the walk from any visited set sees only reachable descriptors, closes under references and contributes each new one once |
| ExpandLibs.ExploredInto | config/expandlibs.py:127-139 | following one reference explores exactly what is reachable through it |
| ExpandLibs.WalkIsInOrder | config/expandlibs.py:127-140 | the objects of a descriptor come before the entries of the libraries it lists, and entries stay in the order in which they are listed |
| ExpandLibs.ResolveIs | config/expandlibs.py:111-131 | a static library stands for the dynamic one of the same name in its directory, or its import library, when that exists, else for what its descriptor says, else for itself |
| ExpandLibs.OthersPass | config/expandlibs.py:113-115 | whatever is not the path of a static library is taken as it is |
| ExpandLibs.DllNameIsRightIff | config/expandlibs.py:116-117 | the name looked for is that of the dynamic library in the same directory exactly when the prefixes are the same or the directory does not have the prefix in its own name |
| ExpandLibs.DirectoryMisleads | config/expandlibs.py:116-117 | in a directory called lib, the name of the directory is changed and not that of the library |
| ExpandLibs.ReplaceFirstIs | config/expandlibs.py:117 | the first occurrence is replaced, and text without one stays as it is |
| ExpandLibs.ExpandArgs.constructor | config/expandlibs.py:103-109 | the list is the text of the walk over the arguments, in order |
| ExpandLibs.ExpandArgs.Expand | config/expandlibs.py:111-125 | terminates, and yields the text of the walk from one argument |
| ExpandLibs.ExpandArgs.ExpandDesc | config/expandlibs.py:127-140 | a descriptor's objects first, then its libraries, each visited once |
| ExpandLibs.SplitExt | config/expandlibs.py:113 | the two parts make up the path, and the extension is a dot without further dots or slashes |
| ExpandLibs.ExtensionIff | config/expandlibs.py:113 | there is an extension exactly when some dot of the file name has something other than dots before it |
| PathSub.RelativeIsRightIff | config/pathsub.c:152-184 | followed from the directory `from` denotes, the result leads to the one `to` denotes exactly when `to` climbs back to the root after the paths part, or what is left of `from` has no dot names and they do not part inside repeated slashes; for all absolute paths, dot names included |
| PathSub.RelativeIsRight | config/pathsub.c:152-184 | in particular it is right for absolute paths without repeated slashes when `from` has no dot names |
| PathSub.FollowIs | config/pathsub.c:173-180 | following any names is going up some levels and then down, the reason the condition is exact |
| PathSub.RepeatedSlashMisleads | config/pathsub.c:152-184 | a concrete pair of paths for which a repeated slash leads elsewhere |
| PathSub.DotsMislead | config/pathsub.c:152-184 | a concrete pair of paths for which a dot name in `from` leads elsewhere |
| PathSub.RelatePaths | config/pathsub.c:152-184 | writes that relative path and returns the length of what it wrote |
| PathSub.FindParting | config/pathsub.c:160-164 | the two pointer walks stop just after the last slash of the common prefix |
| PathSub.Climb | config/pathsub.c:173-176 | one step up for every name left |
| PathSub.Descend | config/pathsub.c:177-180 | and every name on the way down |
| PathSub.GetComponent | config/pathsub.c:64-81 | the next name and the rest of the path, or nothing at the end |
| PathSub.NamesAreComponents | config/pathsub.c:64-81 | going through a path yields its names; only a slash at the very start shows up as a name of its own |

## Left out

- Compositor.BlendKeepsRight: asks that a frame storing colours which restores the previous picture does not follow a frame that clears everything (`Compositor.BlendRightIff` does without), that an explicit clear of the whole image is only asked for by full-size frames, and that allocation succeeds.
- Compositor.StalePictureIsShown: shows one run and not how often such images occur.
- AnimationClock.RefreshSettles: the loop length is an unbounded number, while the code's can wrap at 32 bits; times are whole milliseconds and the current time is fixed during one refresh.
- RasterImage.Play: where the first frame restores, decoding ends, and resets happen, only if that leaves nothing saved for it, as `Compositor.WrapIsRightIff` and `Compositor.RestoreFirst` ask; all frames of one image are decoded once, by a decoder for all frames.
- RasterImage.AnimatedImage.StartAnimation: which consumers, visibility and first-frame timeouts let an animation run is left out; a start is any setting of the current frame's time.
- AnimationState.State.UpdateKnownFrameCount: asks for what its two assertions ask for.
- FrameAnimator.Animator.DrawFrameTo: pixel arithmetic is uninterpreted; a transparent source leaves the destination alone, a source over nothing is itself, an opaque source replaces.
- FrameAnimator.Animator.DoBlend: buffers are rows by columns and not byte addresses, and a failed allocation is not modelled.
- FrameAnimator.Animator.GetCompositedFrame: the surface cache is the number of finished frames it can supply, which stays the same during a call.
- Decoder.FrameDecoder.CompleteDecode: decodes of metadata only, progress flags and telemetry are not modelled.
- FindCycles.Find: which of several orders `sorted` gives is left open, so the report may list components and includes in any order.
- DownscalingFilter.Stream.AdvanceRow: the filter table and both convolutions are uninterpreted; filters read at least one row and neither end steps back, without which the swaps keep the wrong rows.
- Downscaler.FrameScaler.TakeInvalidRect: scales rows with exact arithmetic, while the code multiplies by a rounded floating-point quotient; columns are left out.
- MozZipFile.ZipFile.Open: entries of a directory start before the place where it says the records stop.
- MozZipFile.ZipFile.WriteStr: listed entries start inside the file, so writing once more after entries were cut off is left out; the length of a record is a function of name and stored size, without extra fields or data descriptors; dates, permissions and locking are left out.
- OriginAttributes.SuffixRoundTrip: strings stand for their UTF-8 bytes, and printing and reading numbers is a pair of functions of which the second undoes the first.
- PrincipalClone.RoundTripIff: the stream is one of number pairs and bytes and not of 8-byte words, writing never runs out of room, and strings are shorter than 2^32.
- Principals.SubsumesTransitive: comparing URIs is an uninterpreted equivalence that is false on null, and always yields a URI that may be handed out.
- ExpandedOrigin.OriginIsCanonical: the origins of principals that are not expanded are uninterpreted.
- HalWakeLock.WakeLocks.ModifyWakeLock: keeps totals below 2^32 and leaves out observers that call back from a notification.
- DecodePool.ShutdownFinishes: says that some worker can always go on, not that the scheduler is fair.
- ExpandLibs.EachReachedOnce: which files exist and what descriptors say is fixed during a run; `relativize` and `abspath` are functions; parsing and printing descriptor files is left out.
- ExpandLibs.ResolveIs: asks that the static suffix is an extension, that prefix and name are not made of dots alone, and that the directory does not have the prefix in its name (`ExpandLibs.DllNameIsRightIff` does without the last).
- AnimationClock.RefreshPlays: speaks of animations whose frames are all decoded, at hand and end; those that wait or have an endless frame are described one refresh at a time.
- PathSub.RelativeIsRightIff: names are taken as they stand, so symbolic links are left out, and the parent of the root is the root.
- PathSub.RelatePaths: the fixed sizes of the output and name buffers are left out.
- Reference counting, interface maps, service lookups, telemetry, logging and error reporting in all modelled files.
- Content, chrome and load policies, the URI service, concrete image decoders, vibration, sensors and screens, subprocesses and the installation scripts.
