# p44utils in Dafny

A model of the parts of p44utils that carry state machines, exact arithmetic or stream invariants, with
proofs of what they promise. `dafny verify dfyconfig.toml` checks the whole project.

Where the source changes things step by step, the model is a class or a method with a loop. Each such
method is proved against a function or an invariant, and what the source promises is then proved about
that function for all inputs, or about whole runs.

| file | component |
|---|---|
| FrameScheduler | `LEDChainArrangement::step()`: view step, rendering and display update as a pipeline with three pending times, clock readings and view answers arbitrary, settings changed at any time, and views calling back into the arrangement |
| PowerLimiter, PowerFigures | the two-pass power limiter of `renderViewState()`, in 32-bit arithmetic, and what its figures mean for single pixels |
| ChainGeometry | chain specifications and the mapping of X/Y pixels to LED indices, in 16-bit arithmetic |
| LedChain | the LED frame buffer and any number of mappings onto one chain, 8- and 16-bit chips, 3 or 4 components |
| RenderedView | the passes of `renderViewState()` with their writes, down to the bytes for each LED |
| UartSynthesis | the WS28xx signal synthesised from UART characters |
| WindowEvaluator | sliding-window maximum, minimum, average and time-weighted average with coalescing |
| WindowAverages | how much each datapoint counts in an average, and what shares a datapoint |
| WindowRuns, WindowOrigins | its runs in which samples and evaluations per now follow each other, and which samples a result comes from |
| DcMotor | the DC motor driver: direction interlock, end switches, current limit, nested callbacks |
| MotorRamps, MotorStops | its ramps as functions, undisturbed and for every state of the end switches, and what becomes of a stop, whatever events follow |
| FdComm, JsonComm | delimited receiving, buffered sending, close after send |
| CommentSegments | cutting C comments out of JSON text on the fly |
| Debounce | debounced input change reporting |
| Crc32 | bit-serial CRC-32 |
| InternetChecksum | the Internet checksum and its use in IGMP datagrams |
| MatrixInverse | Gauss-Jordan inversion of 3x3 matrices |
| Arithmetic, BitVectors, LedPowers, Options, Sequences | helpers: products and quotients as repeated addition and subtraction, words as sequences of bits, powers of a LED, optional values, concatenation |

## What differs from the documentation

The model follows the code. Where the code does not do what its comments or documentation say, or what one would
expect, a result says for all inputs when it does, and another shows an input where it does not.

- Stopping a motor does not always turn it off. On overcurrent or at an end switch event on the way down to zero of a
  reversing ramp, the second ramp starts at once: the motor runs in the other direction, the stop cause is forgotten,
  and the client is not called (`DcMotor.OvercurrentWhileReversing`, a run of the driver). Between ramp steps a stop
  lasts, whatever ticks, end switch and overcurrent events follow, exactly if no second ramp to some power is pending
  (`MotorStops.StopLastsIff`). A ramp step that meets a closed end switch schedules its successor nevertheless; such a
  stop lasts exactly if the ramp was down to zero, one step before its last, and no free second ramp to some power
  was pending (`MotorStops.StepStopLastsIff`). A client's `stop()` leaves the pending callback in place; it lasts
  exactly if that is no second ramp to some power (`MotorStops.ClientStopLastsIff`), because otherwise the next end
  switch event starts that ramp (`DcMotor.StopWhileReversing`, a run of the driver). The note in
  `dcmotor.hpp:171-172`, that the done callback gets power 0 and direction 0 after a stop condition, holds for a ramp
  in one direction; a reversing ramp that is stopped on the way down calls back only at its end
  (`MotorStops.StopIsReported`).
- Evaluating per now adds the latest datapoint again as a sample. Repeated evaluations carry a value on beyond any
  reach: with a window of 10 and a collection time of 1 a maximum is reported that is 27 old
  (`WindowRuns.OldMaximumSurvives`). In every run no sample of the window is missed (`WindowRuns.RunCoversWindow`) and
  the result lies between the bounds of all samples (`WindowRuns.RunIsWithin`). The maximum or minimum is that of the
  samples that have been carried on, and it is a sample within reach for all values exactly if none of these has left
  the reach, which the times alone decide (`WindowOrigins.ResultIsExtremeOfCarried`,
  `WindowOrigins.AlwaysReachesBackIff`). It is enough that no evaluation per now lies within reach
  (`WindowRuns.RunReachesBack`, `WindowRuns.PerNowReachesBack`).
- A requested rendering is served exactly if every request is for a defined time; it is enough that no calculation is
  moved to time 0 or before by a negative buffer time (`FrameScheduler.RequestsAreServedIff`,
  `FrameScheduler.BuffersReachTimeSuffices`). A buffer time of -6 microseconds at clock reading 1 loses a request
  (`FrameScheduler.NegativeBufferLosesRequest`, a run of the scheduler).
- The row swap of the matrix inversion exchanges only the first elements of two rows. The result is an inverse
  exactly for matrices whose leading principal minors are all non-zero (`MatrixInverse.InvertsIffRegular`); for
  others the function may return true with a matrix that is no inverse (`MatrixInverse.SwappedRowsGiveWrongInverse`).
- A power limit not below the idle power dims exactly if it leaves 1/255 of the requested light power
  (`PowerLimiter.DimsIff`); a LED of 1 W with a limit of 1 mW stays on at full power (`PowerLimiter.TightLimitExample`).
  A limit below the idle power is always exceeded (`PowerLimiter.LimitBelowIdleIsExceeded`).
- The UART encoder sends its last character without having written it, unless the number of bytes is a multiple of 3.
  All data arrives exactly if that character happens to hold the bits that are left over
  (`UartSynthesis.LineDecodesToData`, `UartSynthesis.NothingLeftOverIff`).
- The layout for RBGW is called "RGBW", as another one is; it is the only one whose name is not the order it sends.
  Looked up by name, every layout that is found sends what it is called, and RBGW is not found
  (`UartSynthesis.SendsItsNameIff`, `UartSynthesis.FoundLayoutSendsItsName`, `UartSynthesis.RbgwIsNotFound`).
- A chain without a row length becomes one row up to its end; with inactive LEDs at the end these belong to the row
  (`ChainGeometry.SingleRow`).
- Two folds of the Internet checksum are enough for every buffer up to 131076 bytes and for no larger size
  (`InternetChecksum.ChecksumMeetsRfc`, `InternetChecksum.LargerBuffersFail`).
- An area that does not fit its chain is accepted. Every pixel has an active LED of its own exactly if the area fits
  (`ChainGeometry.ShowsAreaIffFits`).
- Clearing the transmit handler, or opening a descriptor without one, while data is buffered loses the notification
  that is needed to send the rest (`FdComm.StaysArmedIff`; `FdComm.ClearedHandlerStrandsData` is such a run). Sending
  more and waiting do not help then (`FdComm.StrandedDataStays`).

## Model

| member | source | states |
|---|---|---|
| FrameScheduler.AnyRun | ledchaincomm.cpp:1770-1962 | in every run of timer steps, forced rendering, update requests and setting changes the display is paced, as DisplayIsPaced says |
| FrameScheduler.LEDChainArrangement.Step | ledchaincomm.cpp:1770-1919 | whatever the clock, the views and their callbacks do, the run stays legal; at the time it is entered a due frame is applied, then what is requested is rendered as soon as the mode permits, and otherwise the views calculate or the frame that is in the way is waited for; it goes on for four iterations unless it waits, schedules nothing before the call and nothing too late for the views, and returns no schedule only with work left |
| FrameScheduler.LEDChainArrangement.Iterate | ledchaincomm.cpp:1788-1909 | the same for one iteration, which breaks off exactly for a frame that waits for its time and otherwise does something |
| FrameScheduler.LEDChainArrangement.UpdatePart | ledchaincomm.cpp:1793-1820 | a frame is applied exactly if it is due, and waited for exactly if it is not and rendering is early or requested |
| FrameScheduler.LEDChainArrangement.RenderPart | ledchaincomm.cpp:1823-1849 | a requested state is rendered exactly if rendering is early or it is time |
| FrameScheduler.LEDChainArrangement.RenderAndCalculate | ledchaincomm.cpp:1823-1908 | with no frame due, a rendering comes before a calculation |
| FrameScheduler.LEDChainArrangement.Calculate | ledchaincomm.cpp:1850-1908 | views calculate only where their last requested state is already captured or rendering is late |
| FrameScheduler.LEDChainArrangement.ApplyDisplayUpdate | ledchaincomm.cpp:1793-1810 | a due frame is applied once, and the next update is barred for the minimum interval in force |
| FrameScheduler.LEDChainArrangement.RenderPending | ledchaincomm.cpp:1823-1841 | the frame becomes due at its show time, but not before the earliest allowed update |
| FrameScheduler.LEDChainArrangement.AdvanceShowTime | ledchaincomm.cpp:1850-1864 | the show time is what the views asked for, or beyond the present by the buffer time when that is past |
| FrameScheduler.LEDChainArrangement.RunViews | ledchaincomm.cpp:1866-1889 | changed views, or views not shown for half a second, request a rendering not later than asked for; no show time is calculated twice except the earliest possible one |
| FrameScheduler.LEDChainArrangement.RequestRendering | ledchaincomm.cpp:1882-1888 | a rendering is wanted exactly for a change or half a second after the next possible update, and then requested for the show time or earlier |
| FrameScheduler.LEDChainArrangement.PlanCalculation | ledchaincomm.cpp:1890-1907 | the next calculation starts exactly two buffer times ahead, at once when close, half a second later when nothing is asked for, and a known schedule is only brought forward |
| FrameScheduler.LEDChainArrangement.ViewStep | ledchaincomm.cpp:1869-1869 | views may change settings and ask for steps while they calculate |
| FrameScheduler.LEDChainArrangement.AutoStep | ledchaincomm.cpp:1922-1927 | timer steps do at once what is due, keep the run legal and the timer armed |
| FrameScheduler.LEDChainArrangement.Render | ledchaincomm.cpp:1930-1937 | forced rendering does at once what is due, calculates for the current show time again and arms the timer |
| FrameScheduler.LEDChainArrangement.ExternalUpdateRequest | ledchaincomm.cpp:1940-1962 | requests from views keep the run legal, also from within a step; nothing happens when the next step is near, an armed timer is brought forward to the present, and otherwise what is due is done at once |
| FrameScheduler.LEDChainArrangement.SetMinUpdateInterval | ledchaincomm.cpp:1229-1234 | the buffer time follows; changing it mid-run keeps the run legal |
| FrameScheduler.LEDChainArrangement.constructor | ledchaincomm.cpp:1169-1187 | a new arrangement has an empty legal run |
| FrameScheduler.DisplayIsPaced | ledchaincomm.cpp:1788-1889 | in every legal run each rendered frame is applied exactly once before the next is rendered, not before its show time, and consecutive updates are the minimum interval of the earlier one apart |
| FrameScheduler.RenderedIsRequested | ledchaincomm.cpp:1823-1885 | a frame is rendered only for the show time of a request that has not been rendered yet |
| FrameScheduler.RequestsAreServedIff | ledchaincomm.cpp:1823-1885 | in a legal run every request is served by a frame not later than asked for, or still pending and not later, exactly if all requests are for defined times |
| FrameScheduler.RequestIsServed | ledchaincomm.cpp:1882-1885 | the same for a single request |
| FrameScheduler.BuffersReachTimeSuffices | ledchaincomm.cpp:1853-1885 | it is enough that clock reading plus buffer time is a defined time at every calculation |
| FrameScheduler.EarlyRenderingLosesNoState | ledchaincomm.cpp:1811-1888 | when rendering is not late, a requested state is in a frame before the views calculate again |
| FrameScheduler.DueFrameComesFirst | ledchaincomm.cpp:1793-1850 | in a legal run the views do not calculate while a frame is due |
| FrameScheduler.RequestComesFirst | ledchaincomm.cpp:1823-1850 | nor while a rendering is requested, unless rendering is late and its time has not come |
| FrameScheduler.OneCalculationAhead | ledchaincomm.cpp:1793-1850 | ahead of a waiting frame they calculate once, or more often if rendering is late |
| FrameScheduler.RequestsAfterUpdate | ledchaincomm.cpp:1882-1885 | a rendering is requested exactly for a change, or when the views calculate for more than half a second after the minimum interval of the last update |
| FrameScheduler.RequestsBeforeUpdates | ledchaincomm.cpp:1882-1885 | the same before any update |
| FrameScheduler.ShowTimesAreDefined | ledchaincomm.cpp:1853-1859 | where clock reading plus buffer time is defined, every show time is |
| FrameScheduler.FirstRequestIsLost | ledchaincomm.cpp:1853-1885 | a first request for an undefined time is never served, whatever follows |
| FrameScheduler.NegativeBufferLosesRequest | ledchaincomm.cpp:1770-1919 | a run of the scheduler with a buffer time of -6 microseconds in which this happens |
| PowerLimiter.ViewRenderer.RenderChain | ledchaincomm.cpp:1553-1599 | the nested loops send the powers of all pixels of a chain and accumulate idle, colour and white figures with 32-bit wrap-around |
| PowerLimiter.ViewRenderer.RenderPass | ledchaincomm.cpp:1543-1603 | one pass shows every chain at the given dim factor and yields its light and idle power |
| PowerLimiter.ViewRenderer.RenderViewState | ledchaincomm.cpp:1534-1631 | at most two passes; what is shown and reported is that of the final dim factor, the requested power stays the undimmed one; limiting is reported exactly if there is a limit, the requested total exceeds it, and there is light |
| PowerLimiter.LimitIsKept | ledchaincomm.cpp:1534-1631 | if more than the limit is requested and the limit leaves 1/255 of the light power, the total exceeds the limit by at most 1/256 of the cut power plus 2 mW per chain |
| PowerLimiter.DimIsLargestAllowed | ledchaincomm.cpp:1604-1628 | the dim factor is not 0 and is the largest within the allowed share |
| PowerLimiter.DimsIff | ledchaincomm.cpp:1604-1628 | a limit not below the idle power dims exactly if idle and light power together exceed it and it leaves 1/255 of the light power |
| PowerLimiter.WithinLimitIsUntouched | ledchaincomm.cpp:1604-1628 | without a limit, or within it, nothing is dimmed |
| PowerLimiter.TightLimitExample | ledchaincomm.cpp:1604-1628 | one red LED of 1 W with a limit of 1 mW is not dimmed |
| PowerLimiter.TightLimitIsIgnored | ledchaincomm.cpp:1604-1628 | a limit that leaves less does not dim at all |
| PowerLimiter.LimitBelowIdleIsExceeded | ledchaincomm.cpp:1604-1628 | a limit below the idle power is always exceeded |
| PowerLimiter.InstallationFits | ledchaincomm.cpp:1534-1604 | chains of at most 21845 LEDs and 16.8 kW rated power wrap nowhere |
| PowerLimiter.ExactPower | ledchaincomm.cpp:1543-1604 | without wrap-around, light, idle and total power are the exact sums at every dim factor |
| PowerLimiter.DimmedLight | ledchaincomm.cpp:126-145 | 256 times the dimmed light power is at most dim + 1 times the undimmed one, up to rounding per channel and chain |
| PowerFigures.ShownPower | ledchaincomm.cpp:126-145 | every channel of every pixel gets the table power of its own component, dimmed by (dim + 1) / 256 |
| PowerFigures.PixelNeeds | ledchaincomm.cpp:1583-1590 | LEDs with a common current need that of the brightest colour, others that of all three |
| PowerFigures.SumOfOtherPixel | ledchaincomm.cpp:1553-1599 | a pixel that gets another power changes the PWM sums of its chain by the difference |
| PowerFigures.DarkSum | ledchaincomm.cpp:1553-1599 | dark LEDs add up to 0 |
| PowerFigures.ChainNeeds | ledchaincomm.cpp:1600-1603 | the light power of a chain is the PWM sums times the power of a channel at full PWM, rounded down |
| PowerFigures.LightOfOtherChain | ledchaincomm.cpp:1543-1603 | a chain that is exchanged changes the light power by the difference |
| PowerFigures.IdleOfOtherChain | ledchaincomm.cpp:1543-1603 | and the idle power by that of its LEDs |
| PowerFigures.PassWraps | ledchaincomm.cpp:1543-1603 | for installations of any size a pass computes the sums modulo 2^32 |
| ChainGeometry.AreaIsRecovered | ledchaincomm.cpp:1397-1415 | a chain specification whose area fits is recovered exactly: width, height, number of LEDs and partition of the chain |
| ChainGeometry.PixelHasActiveLed | ledchaincomm.cpp:1054-1072 | for all combinations of reversal, swap and alternation every pixel has an active LED from which it can be read off |
| ChainGeometry.ActiveLedShowsPixel | ledchaincomm.cpp:1054-1072 | every active LED shows exactly one pixel of the area |
| ChainGeometry.PixelsDoNotCollide | ledchaincomm.cpp:1054-1072 | different pixels have different LEDs |
| ChainGeometry.ShowsAreaIffFits | ledchaincomm.cpp:1397-1415 | a chain shows every pixel of a non-empty area by an active LED of its own exactly if the area fits |
| ChainGeometry.OverfullAreaIsBroken | ledchaincomm.cpp:1397-1415 | otherwise some pixel has no active LED, or two have the same one |
| ChainGeometry.IndexByMultiplication | ledchaincomm.cpp:1054-1072 | the index of a pixel in terms of the four flags: x and y exchanged, lines counted from the other end, rows running backwards, every other one on an alternating chain; then start + row * (row and gap) + position |
| ChainGeometry.FirstLedIsInCorner | ledchaincomm.cpp:1054-1072 | the reversals say in which corner the chain starts |
| ChainGeometry.RowsAreConnected | ledchaincomm.cpp:1054-1072 | neighbours in a row are neighbours on the chain |
| ChainGeometry.AlternatingChainTurns | ledchaincomm.cpp:1054-1072 | an alternating chain goes on beside the end of the row, after the gap |
| ChainGeometry.OtherRowsAreParallel | ledchaincomm.cpp:1054-1072 | other chains repeat their rows at a constant distance |
| ChainGeometry.PixelByDivision | ledchaincomm.cpp:1054-1072 | the pixel of an active LED is read off by division and remainder |
| ChainGeometry.TruncateIsDivision | ledchaincomm.cpp:309-317 | the number of rows is computed by a division that truncates toward zero |
| ChainGeometry.SingleRow | ledchaincomm.cpp:309-317 | a chain without a row length has one row, correctly partitioned exactly if no LEDs at the end are inactive |
| LedChain.LedChainComm.Begin | ledchaincomm.cpp:671-704 | the buffer is the header followed by the image of a dark chain |
| LedChain.DriverHeader | ledchaincomm.cpp:683-694 | the header starts with its own length and carries the 16-bit passive time, high byte first |
| LedChain.DriverReadsHeader | ledchaincomm.cpp:683-694 | layout, chip, passive time, retries and the LED data behind can be read back from what is written |
| LedChain.LedChainComm.MapOnto | ledchaincomm.cpp:333-336 | a secondary mapping leads to the hardware of the chain it maps onto |
| LedChain.LedChainComm.SetPowerAtLedIndex | ledchaincomm.cpp:862-939 | through any chain of drivers exactly the addressed LED changes; indices beyond the end change nothing; header and other bytes stay |
| LedChain.LedChainComm.StoreLed | ledchaincomm.cpp:913-937 | the buffer stays the header plus the image of what the LEDs were told |
| LedChain.LedChainComm.SetPowerXY | ledchaincomm.cpp:1128-1132 | the LED of the pixel changes |
| LedChain.ImageUpdate | ledchaincomm.cpp:913-937 | a new power for one LED changes the bytes of this LED only |
| LedChain.BytesOfChannels | ledchaincomm.cpp:913-937 | red, green, blue and white in this order, the more significant byte first, or rounded to 8 bits |
| LedChain.LedChainComm.GetPowerAtLedIndex | ledchaincomm.cpp:942-1021 | reading back through any chain of drivers gives what the LED was last told, exactly for 16-bit chips, rounded for others |
| LedChain.PixelShowsLastPower | ledchaincomm.cpp:862-939 | after any interleaving of calls through mappings with disjoint active LEDs, every pixel has the power last set through its mapping |
| LedChain.SetPowers | ledchaincomm.cpp:862-939 | such calls on the mapping objects leave the hardware chain as the sequence of writes says |
| LedChain.InactiveLedsStay | ledchaincomm.cpp:1054-1072 | LEDs inactive in all mappings keep what they showed |
| LedChain.WideEncodingIsInjective | ledchaincomm.cpp:914-927 | 16-bit chips show different powers differently |
| LedChain.NarrowingRounds | ledchaincomm.cpp:853-857 | 8-bit rounding keeps 8-bit values and the order, and is off by at most 153 of 65536 |
| RenderedView.RenderOnto | ledchaincomm.cpp:1534-1631 | after the one or two passes over fixtures that share no active LEDs, the bytes for the LED of every pixel encode its power at the final dim factor |
| RenderedView.LastIsFinal | ledchaincomm.cpp:1534-1631 | after the writes of all passes every pixel of every fixture has its power of the final pass |
| UartSynthesis.LayoutsArePermutations | ledchaincomm.cpp:182-209 | every layout fetches each channel of an LED once |
| UartSynthesis.SendsItsNameIff | ledchaincomm.cpp:182-209 | a layout sends the channels in the order of its name exactly if it is neither the placeholder nor the one for RBGW |
| UartSynthesis.LayoutByName | ledchaincomm.cpp:282-285 | the first layout of that name, or the placeholder |
| UartSynthesis.FoundLayoutSendsItsName | ledchaincomm.cpp:182-285 | a layout found by its name sends this order |
| UartSynthesis.RbgwIsNotFound | ledchaincomm.cpp:182-285 | the layout for RBGW is not found by any name |
| UartSynthesis.PermutedAt | ledchaincomm.cpp:430-436 | which byte of which LED is sent when |
| UartSynthesis.SendByte | ledchaincomm.cpp:427-449 | the inner loop adds the bits of one LED byte, most significant first, to the signal |
| UartSynthesis.SendToUart | ledchaincomm.cpp:413-456 | the buffer has the computed size and its complete characters carry the permuted data |
| UartSynthesis.LineIsCode | ledchaincomm.cpp:427-449 | the inverted line with start and stop bits is a (1, d, 0) triple per data bit |
| UartSynthesis.LineLevels | ledchaincomm.cpp:413-449 | every bit of every byte, most significant first, is a high level, the bit, and a low level on the line |
| UartSynthesis.LineDecodesToData | ledchaincomm.cpp:413-456 | a receiver of the whole line gets all complete characters right, and the data exactly if the last character, where it was never written, happens to hold the bits left over |
| UartSynthesis.NothingLeftOverIff | ledchaincomm.cpp:425-449 | nothing is left over, and every character sent has been written, exactly if the number of bytes is a multiple of 3 |
| UartSynthesis.PermutedIsInjective | ledchaincomm.cpp:436-442 | the order sent determines the LED data |
| WindowEvaluator.WindowEvaluator.AddValue | extutils.cpp:109-176 | datapoints summarize the groups of samples that eviction and coalescing make, in every mode |
| WindowEvaluator.WindowEvaluator.Merge | extutils.cpp:134-163 | the collected datapoint is the extreme, the exact mean or the time-weighted value of its group |
| WindowEvaluator.WindowEvaluator.EvaluatePoints | extutils.cpp:204-236 | the loop computes the extreme, the mean, or the integral over the window divided by its length |
| WindowEvaluator.WindowEvaluator.Evaluate | extutils.cpp:192-237 | evaluating per now first adds the latest value again at the present time |
| WindowEvaluator.RunKeepsSamples | extutils.cpp:109-176 | after any samples in time order nothing is lost or reordered, kept datapoints end within the window, everything dropped lies before it |
| WindowEvaluator.ExtremeCoversWindow | extutils.cpp:109-236 | no sample of the last window time is beyond the maximum (or minimum) |
| WindowEvaluator.ExtremeIsReached | extutils.cpp:109-236 | in runs of addValue() alone the maximum (or minimum) is a sample of the last window time plus collection time |
| WindowEvaluator.WeightsCoverWindow | extutils.cpp:214-225 | the weights of the time-weighted average are not negative and add up to exactly the window time |
| WindowEvaluator.WeightedAverageIsConvex | extutils.cpp:141-236 | the time-weighted average lies between any bounds of the samples within reach |
| WindowEvaluator.ResultIsWithin | extutils.cpp:109-236 | so does the result in every mode |
| WindowEvaluator.PerNowIsWithin | extutils.cpp:192-202 | a first evaluation per now adds an aggregated value as if it were a sample, and still lies between any bounds of the samples within reach of the last one |
| WindowEvaluator.PerNowCoversWindow | extutils.cpp:192-202 | no sample of the last window time before now is beyond the maximum (or minimum) of a first evaluation per now |
| WindowEvaluator.WeightedIsMeanOfArea | extutils.cpp:141-154 | with increasing times a collected datapoint is the exact mean of the step function of its samples |
| WindowEvaluator.MeanOfOneMore | extutils.cpp:155-162 | the incremental average is the exact mean |
| WindowEvaluator.Effective | extutils.cpp:113-115 | values are taken as absolute values if asked for |
| WindowAverages.AverageOfRaised | extutils.cpp:226-236 | in the average every datapoint counts the same: raising one of n by d raises the result by d / n |
| WindowAverages.AverageOfEqual | extutils.cpp:226-236 | the average of equal values is that value |
| WindowAverages.WeightedOfRaised | extutils.cpp:214-225 | in the time-weighted average a datapoint counts for the time since the one before, the first since the begin of the window |
| WindowAverages.WeightedOfEqual | extutils.cpp:214-225 | the time-weighted average of equal values is that value |
| WindowAverages.NothingToEvaluate | extutils.cpp:192-236 | without data, or without a window to weigh, the result is 0 |
| WindowAverages.SameTimeIsHalfway | extutils.cpp:141-148 | a second sample, or one at the same time, moves the collected value halfway |
| WindowAverages.DatapointsAreFull | extutils.cpp:130-175 | samples share a datapoint as long as the collection time from its first one lasts |
| WindowRuns.RunCoversWindow | extutils.cpp:109-236 | in every run of samples and evaluations per now no sample of the last window time is beyond the maximum (or minimum) |
| WindowRuns.RunIsWithin | extutils.cpp:109-236 | in every such run and every mode the result lies between any bounds of all samples |
| WindowRuns.RunReachesBack | extutils.cpp:109-236 | the maximum (or minimum) is a sample of the last window time plus collection time if no evaluation per now lies within that time |
| WindowRuns.PerNowReachesBack | extutils.cpp:192-202 | of an evaluation per now it is one within reach of the last use before, if no other evaluation per now is |
| WindowRuns.OldMaximumSurvives | extutils.cpp:192-202 | otherwise it need not be: a run in which a sample that is 27 old is the maximum of a window of 10 |
| WindowOrigins.ResultIsExtremeOfCarried | extutils.cpp:109-236 | in every run the maximum (or minimum) is that of exactly the samples that earlier evaluations per now and coalescing have carried into the datapoints still kept |
| WindowOrigins.AlwaysReachesBackIff | extutils.cpp:109-236 | for given times it is a sample of the last window time plus collection time, whatever the values, exactly if no older sample is carried |
| WindowOrigins.RunSameLayout | extutils.cpp:109-176 | which samples are collected, kept and dropped depends on their times only |
| WindowRuns.UseEvaluator | extutils.cpp:109-237 | using the evaluator so leaves what the run of the samples and the repeated values says |
| DcMotor.DcMotorDriver.constructor | dcmotor.cpp:35-47 | starts without power and direction, safely from any safe state of the outputs |
| DcMotor.DcMotorDriver.SetDirection | dcmotor.cpp:175-187 | the lines show the direction; every single write is safe if there is no power or no change |
| DcMotor.DcMotorDriver.SetPower | dcmotor.cpp:191-237 | power and direction are set, in the same direction without an interruption, unless the end switch of that direction is closed; then there is no power, and the motor stops and the pending callback runs; all writes keep the interlock |
| DcMotor.DcMotorDriver.Drive | dcmotor.cpp:217-236 | scaled and offset power in the given direction; when power is first applied the hold-off time begins |
| DcMotor.DcMotorDriver.OnEndSwitch | dcmotor.cpp:97-107 | stops, reports power and direction from before the stop, and runs whatever callback is pending |
| DcMotor.DcMotorDriver.CheckCurrent | dcmotor.cpp:240-259 | exactly on overcurrent with power on, honouring the hold-off time, stops, reports and runs whatever callback is pending |
| DcMotor.DcMotorDriver.Overcurrent | dcmotor.cpp:240-250 | the normal limit counts after the hold-off time, the one for starting always, in either direction of the current |
| DcMotor.DcMotorDriver.AutoStopped | dcmotor.cpp:110-117 | the stop callback gets what it was promised, then the pending callback runs |
| DcMotor.DcMotorDriver.MotorStatusUpdate | dcmotor.cpp:120-134 | the cause is set, and the done callback is forgotten before it runs: a call of the client or a second ramp |
| DcMotor.DcMotorDriver.Stop | dcmotor.cpp:264-274 | no power, no direction, no scheduled step |
| DcMotor.DcMotorDriver.RampToPower | dcmotor.cpp:278-313 | in any state and with any nesting safe; if clients only listen it starts one ramp, or two through zero, for every state of the end switches |
| DcMotor.DcMotorDriver.RampStep | dcmotor.cpp:317-343 | follows the curve; stopped by an end switch it runs the pending callback and then schedules its successor nevertheless |
| DcMotor.DcMotorDriver.Tick | dcmotor.cpp:336-341 | the timer runs the next step |
| DcMotor.DcMotorDriver.ClientCode | dcmotor.cpp:110-134 | whatever commands callbacks issue, the interlock holds and no power means no PWM and no direction |
| DcMotor.AnyRun | dcmotor.cpp:97-343 | in every run of commands, ramp ticks, end switch and current events direction lines change only while the PWM is 0, both are never on, and no power means no PWM |
| DcMotor.OvercurrentWhileReversing | dcmotor.cpp:240-292 | a run in which overcurrent on the way down to zero starts the motor in the other direction, with no cause and no call of the client |
| DcMotor.StopWhileReversing | dcmotor.cpp:97-292 | a run in which the client stops a reversing ramp and the next end switch event starts the motor in the other direction |
| MotorStops.StopLastsIff | dcmotor.cpp:97-134 | after a stop between ramp steps the motor is and stays off, whatever ticks, end switch and overcurrent events follow, exactly if no second ramp to some power is pending |
| MotorStops.ClientStopLastsIff | dcmotor.cpp:264-274 | a stop by the client lasts, whatever such events follow, exactly if no second ramp to some power is pending |
| MotorStops.StepStopLastsIff | dcmotor.cpp:317-343 | after a stop by a ramp step it is and stays off, whatever such events follow, exactly if the ramp was down to zero, one step before its last, and no free second ramp to some power was pending |
| MotorStops.LastStepStopLastsIff | dcmotor.cpp:320-326 | after a stop by the last step as between steps |
| MotorStops.StalledStaysOffIff | dcmotor.cpp:336-341 | a motor stopped with a ramp scheduled stays off, whatever such events follow, exactly if the rest of that ramp has no power |
| MotorStops.StalledRampEnds | dcmotor.cpp:336-341 | otherwise the ramp goes on without a direction and ends with its target power |
| MotorStops.AfterStop | dcmotor.cpp:120-128 | what a stop leaves behind: a motor that is off, one that runs in the other direction, or one stalled on the way there |
| MotorStops.StopIsReported | dcmotor.cpp:120-128 | a waiting client is called with power 0, direction 0 and the cause; on the way to another free direction nobody is called and the cause is forgotten |
| MotorRamps.UndisturbedRampEnds | dcmotor.cpp:278-343 | an undisturbed ramp ends after exactly its number of steps at the clamped target in the requested direction (none at 0), with the client called back exactly once |
| MotorRamps.UndisturbedRampIsUnderway | dcmotor.cpp:278-343 | before that the power follows the curve of one of at most two single ramps, and the client has not been called |
| MotorRamps.UndisturbedPowerIsMonotone | dcmotor.cpp:328-334 | within a single ramp the power moves towards its target only and stays between start and target |
| MotorRamps.SecondRampStarts | dcmotor.cpp:285-292 | on the way through zero the second ramp starts with the tick that ends the first, in half of an absolute time each |
| MotorRamps.PowerIsMonotone | dcmotor.cpp:328-334 | the curve does not turn back |
| MotorRamps.StepsFollowTheCurve | dcmotor.cpp:328-334 | without exponent all steps are equal, with it they follow the curve |
| MotorRamps.StepsFillTheTime | dcmotor.cpp:296-309 | a ramp has as many steps of 20 milliseconds as fill the absolute or full-scale time |
| MotorRamps.DurationIsAsAsked | dcmotor.cpp:278-313 | so the whole way takes an absolute time, or a full-scale time for the part of the scale that is passed through, with at most one step more for each single ramp |
| FdComm.FdComm.DataMonitorHandler | fdcomm.cpp:98-149 | for every combination of poll flags: what is received is appended and checked before anything else, what can be sent is sent unless the other end has closed, which handlers are called, and an exception only once |
| FdComm.FdComm.CheckReceiveData | fdcomm.cpp:152-162 | the handler is called once per announced delimiter |
| FdComm.FdComm.ReceiveDelimitedString | fdcomm.cpp:184-198 | the string up to the delimiter is taken, a CR before LF dropped, and another check scheduled |
| FdComm.FdComm.SendBufferedData | fdcomm.cpp:165-181 | what the system takes leaves the buffer in order |
| FdComm.FdComm.SendString | fdcomm.cpp:201-212 | sends at once or queues behind what is buffered |
| FdComm.FdComm.SetTransmitHandler | fdcomm.cpp:235-248 | poll flags follow the handler |
| FdComm.DeliveredAreTheLines | fdcomm.cpp:96-198 | for any chunks, checks and takes the delivered strings are the first lines of the stream, all once nothing is announced or scheduled |
| FdComm.ChunkingIsIrrelevant | fdcomm.cpp:111-198 | two runs over one stream deliver the same strings, one perhaps further ahead |
| FdComm.RxKeepsInvariant | fdcomm.cpp:111-198 | consumed and buffered bytes are the stream, and no complete line is overlooked |
| FdComm.LinesConcat | fdcomm.cpp:184-198 | splitting at the end of a line splits the lines |
| FdComm.LineIs | fdcomm.cpp:184-198 | the text of a line ends before its delimiter, and before a CR if that is LF |
| FdComm.SendingKeepsOrder | fdcomm.cpp:165-248 | under partial and failing writes, bytes out and bytes buffered are the accepted strings in order |
| FdComm.BytesGoOut | fdcomm.cpp:165-212 | strings are accepted whole, and as much of what is waiting goes out as the system takes |
| FdComm.NothingToSendIsQuiet | fdcomm.cpp:165-181 | with nothing to send and no handler the notification is switched off |
| FdComm.StaysArmedIff | fdcomm.cpp:165-248 | buffered data stays scheduled for sending by every event except exactly two |
| FdComm.ClearedHandlerStrandsData | fdcomm.cpp:165-248 | a run in which the handler is cleared with data buffered, and nothing is going to send it |
| FdComm.StrandedDataStays | fdcomm.cpp:165-248 | from then on no further sends and notifications bring a byte out |
| FdComm.BufferDrains | fdcomm.cpp:165-181 | armed, the buffer drains with the notifications the system gives |
| JsonComm.JsonComm.SendRaw | jsoncomm.cpp:174-202 | sends, buffers the rest, or refuses the message without a trace |
| JsonComm.JsonComm.CloseAfterSend | jsoncomm.cpp:205-214 | closes at once or when all is sent |
| JsonComm.JsonComm.CanSendData | jsoncomm.cpp:219-243 | sends more, and closes with the last byte if asked for |
| JsonComm.EveryRunKeepsInvariant | jsoncomm.cpp:174-243 | bytes leave in order, a handler waits exactly while something is buffered, and no requested close cuts anything off |
| JsonComm.CloseFollowsLastByte | jsoncomm.cpp:219-243 | the close comes with the write that empties the buffer |
| JsonComm.BytesGoOut | jsoncomm.cpp:174-243 | a message is refused exactly if it could be written at once and the write fails; otherwise as much goes out as the system takes |
| JsonComm.NothingBufferedClosesAtOnce | jsoncomm.cpp:205-214 | with nothing buffered a close comes at once |
| JsonComm.BufferDrains | jsoncomm.cpp:219-243 | the buffer drains with the notifications the system gives, and then a requested close comes |
| CommentSegments.NextCommentDelimiter | jsonobject.cpp:90-101 | the first delimiter, or none |
| CommentSegments.NextParsableSegment | jsonobject.cpp:104-139 | the segment and what follows are the text without comments; progress is made |
| CommentSegments.FeedParser | jsonobject.cpp:171-187 | the segments concatenate to exactly what a character scanner leaves |
| CommentSegments.CommentVanishes | jsonobject.cpp:104-139 | a comment disappears and the scan goes on behind it as if it had not been there |
| CommentSegments.UnterminatedCommentDropsRest | jsonobject.cpp:122-129 | an unterminated comment drops the rest |
| CommentSegments.OpeningDoesNotClose | jsonobject.cpp:113-120 | the star of an opening delimiter does not close the comment |
| Debounce.IOPin.SetInputChangedHandler | iopin.cpp:56-79 | installs a handler or clears everything; refuses to poll never |
| Debounce.IOPin.InputHasChangedTo | iopin.cpp:82-103 | reports, or postpones and resamples |
| Debounce.IOPin.DebounceSample | iopin.cpp:106-116 | reports a change that has persisted |
| Debounce.IOPin.TimedPoll | iopin.cpp:119-124 | polls and stays scheduled |
| Debounce.EveryRunIsDebounced | iopin.cpp:82-124 | for any interleaving of edges, polls and timeouts reports alternate, are at least the debounce time apart, and a level that differs from the reported one is looked at again |
| Debounce.NextKeepsInvariant | iopin.cpp:82-116 | every event keeps this |
| Debounce.InstallationStartsInvariant | iopin.cpp:56-79 | it holds from the installation of a handler |
| Debounce.PersistentChangeIsReported | iopin.cpp:106-116 | a level that still differs when the timer fires is reported then |
| Debounce.ChangeIsReportedOrPostponed | iopin.cpp:82-103 | a changed level is reported at once, unless there has been a report within the debounce time; then the input is looked at again after another debounce time |
| Debounce.SameLevelIsIgnored | iopin.cpp:82-103 | an unchanged level changes nothing |
| Crc.Crc32.AddByte | crc32.cpp:53-61 | the loop over the bits is the bit-serial step from the least significant bit on |
| Crc.Crc32.AddBytes | crc32.cpp:64-69 | bytes are appended to the message |
| Crc.Crc32.GetCRC | crc32.cpp:79-82 | the checksum of the message so far |
| Crc.Crc32.Reset | crc32.cpp:47-50 | an empty message |
| Crc.BurstsAreDetected | crc32.cpp:53-82 | different messages of equal length whose differing bits lie within 32 consecutive bits have different checksums |
| Crc.FourByteErrorsAreDetected | crc32.cpp:53-82 | replacing up to four adjacent bytes is always noticed |
| Crc.GeneratorIsNotDetected | crc32.cpp:53-61 | the bound is sharp: one pattern over 33 bits goes unnoticed |
| Crc.ChecksumMatchesTable | crc32.cpp:53-82 | the checksum is that of the table-driven code in section 8 of RFC 1952 |
| InternetChecksum.Csum | igmp.cpp:56-78 | the loop and the two folds |
| InternetChecksum.ChecksumMeetsRfcIff | igmp.cpp:56-78 | the result is the one's complement checksum of section 1 of RFC 1071 exactly when the second fold does not overflow |
| InternetChecksum.ChecksumMeetsRfc | igmp.cpp:56-78 | so it is for every buffer of at most 131076 bytes |
| InternetChecksum.LargerBuffersFail | igmp.cpp:56-78 | and for no larger size: each has a buffer whose checksum is wrong |
| InternetChecksum.SealedBufferChecksToZero | igmp.cpp:132-141 | a stored checksum makes the checksum of the whole buffer 0 |
| InternetChecksum.ByteOrderIsIrrelevant | igmp.cpp:56-78 | machines of either byte order store the same bytes |
| InternetChecksum.Seal | igmp.cpp:114-132 | a header of any size is sealed in place without other changes |
| InternetChecksum.SealIgmp | igmp.cpp:114-141 | both headers of the datagram check to 0 |
| MatrixInverse.SwapRows | colorutils.cpp:334-342 | three swaps of the first elements come to one |
| MatrixInverse.MatrixCopy | colorutils.cpp:345-352 | copies all elements |
| MatrixInverse.SearchPivot | colorutils.cpp:370-380 | finds a non-zero element as described, or none |
| MatrixInverse.UsePivot | colorutils.cpp:386-399 | normalizes the pivot row and clears the column in both matrices |
| MatrixInverse.ReduceStep | colorutils.cpp:367-401 | one step of the reduction, or the reason it stops |
| MatrixInverse.InverseInto | colorutils.cpp:355-404 | the loops compute the reduction, also of a matrix into itself |
| MatrixInverse.StepKeepsProduct | colorutils.cpp:355-404 | a step keeps em * original == matrix |
| MatrixInverse.RegularIsInverted | colorutils.cpp:355-404 | with non-zero leading principal minors the result is the inverse |
| MatrixInverse.InvertsIffRegular | colorutils.cpp:355-404 | and only then |
| MatrixInverse.SrgbCalibrationIsInverted | colorutils.cpp:355-404 | the sRGB calibration is such a matrix |
| MatrixInverse.SwappedRowsGiveWrongInverse | colorutils.cpp:334-404 | an invertible matrix with a wrong result reported as success |

## Left out

- Hardware and operating system access: GPIO, I2C, SPI, sockets, files, threads, the RPi and ESP LED drivers. Bytes
  taken by a write, levels of inputs and sensor samples are parameters or arbitrary.
- Scripting, user interface, DNS-SD, HTTP, the JSON tokener, logging, error objects, FNV, statistics: libraries or
  thin members without invariants.
- The text syntax of chain specifications; a specification is given by its numbers.
- FrameScheduler: liveness, because `step()` may run out of its four iterations and may plan beyond a waiting frame;
  the time an update takes (an update counts at the clock reading it was decided on); `applyDisplayUpdate()` does
  nothing before `begin()`; the layout of views; callbacks nest up to an arbitrary but finite depth.
- PowerLimiter: a missing root view, and views that show different pixels in the two passes; main dimming and the
  extraction of white, which happen before the pixels get here; the exponential tables, one arbitrary table standing
  for all four channels as the code uses it.
- `recalculateCover()` and `clear()` of a secondary mapping, which do not do what they are meant to: the cover is not
  widened when its origin moves, and logical indices are mixed with raw ones.
- LedChain.LedChainComm.GetPowerAtLedIndex: takes the conversion of 8 to 16 bits as a parameter, because `pwmFrom8Bits()` is not part of this model.
- UartSynthesis.LayoutByName: does not ignore case.
- UartSynthesis.SendToUart: does not model data that is no whole number of LEDs or a layout without channels, where the source reads beyond its data or never ends.
- WindowEvaluator: rounding of doubles; settings that are changed while there is data, which the public fields permit.
- DcMotor: sequences of ramps, whose empty list makes the code run on with a missing element; rounding of doubles; the
  exponential curves are abstract, any strictly increasing curves from 0 to 1; sensor and switch hardware.
- DcMotor.DcMotorDriver.SetPower: does not model a negative power or a direction taken off a running motor, because none of the callers of this private method passes one.
- DcMotor.DcMotorDriver.RampToPower: does not take a second ramp as callback from outside; clients that want one start it when they are called.
- DcMotor.DcMotorDriver.MotorStatusUpdate: does not call back at depth 0, because nesting is finite; every nesting depth is covered by a larger one.
- FdComm: replacing the receive handler in the middle of a stream, which forgets an announced delimiter; receiving
  without a handler or without a delimiter; what the handlers called on errors do.
- RenderedView: several hardware chains, each with fixtures of its own; fixtures that share active LEDs or show pixels
  outside their chain.
- CommentSegments: reading from a file in chunks, where a comment delimiter across two chunks is missed; text shorter
  than its string.
- JsonComm: the receiving side, which discards raw data of incomplete lines.
- InternetChecksum.Csum: does not model a 32-bit `long`; the sum is assumed not to wrap, which holds for 64 bits.
- InternetChecksum.Seal: does not model other fields of the datagram, which are filled in before.
- MatrixInverse.InverseInto: does not model values that are not finite; the model stops at the division by zero and says so.
- MatrixInverse: rounding of doubles.
