# The print service's native pipeline, verified

This project models the integer-heavy, stateful heart of the Android print service and proves what it is
for. Everything between a decoded picture and the bytes a printer receives is here:

- **Scaling** (`FixedPoint`, `ScalerWindow`, `ScalerConfig`, `AreaWeights`, `RowBuffer`, `ScaleDown`,
  `ScaleUp`, `ScalerPlane`, `UpSamples`, `ScaledPage`, `ScaledImage`). 32.32 reciprocals come out of a
  bitwise long division that rounds every inexact ratio up. Positions are accumulated, so the error grows line by
  line. The project bounds this drift and says exactly when it moves a sample out of the window of source rows
  that the scaler fetched: going down never, going up never below 2^14 rows, and beyond that by an exact
  condition. Row loops run on arrays and put, byte by byte, the samples of one area-weighted (or bilinear) reference
  there, and every sample lies near the exact mean or the exact bilinear value. Around the scaler, the caller's buffer of source
  rows is modelled with the loop that sizes it, the stripes that are asked for, and the rows kept from stripe to
  stripe.
- **Page geometry and stripes** (`PageRows`, `OutputGeometry`, `StripeDecoder`). A page is produced stripe by
  stripe, with clipping, padding and a swath cache for sideways pictures; put together, the stripes are the
  rotated, cropped picture in white padding, however the page is cut.
- **The PCLm writer** (`PdfText`, `PdfReader`, `PclmTexts`, `PclmTrailer`, `PclmReader`, `PclmStreams`,
  `PclmLayout`, `PclmWriter`, `PclmJob`). A PDF file emitted through a buffer that every call resets. Against it
  stands a reader that is given nothing but the text of the file: following sections 7.5.4 and 7.5.5 of ISO
  32000-1, it reads `startxref`, the cross-reference entries, the trailer, the page tree and the pages, what their
  contents draw and where, and the strips themselves, and for every job with any number of strips a page it finds
  everything that was written.
- **Run-length coding** (`RunLength`): exactly when decoding by section 7.4.5 of ISO 32000-1 gives the input
  back.
- **Job delivery** (`SendPool`, `MsgQueue`, `MsgQueueThreads`, `CopyReplay`, `JobTable`): the eight-buffer
  protocol of the raster plugin, the bounded queue under any number of threads, the two queues that replay
  copies, and generation-tagged job handles.
- **Capability queries** (`CapabilitiesCache.dfy`, `CapabilitiesRuns`, `CapabilitiesCancel`): bounded
  concurrency, two passes, priorities and callbacks that call back.
- **Blank PWG pages** (`BlankPage`), against a reader of the encoding of PWG 5102.4.

Code that changes state in the source is a class or works on an array here, and each such method is proved
against functions on values; threads are modelled as steps of a state machine, and the theorems hold for
every schedule. C's 32-bit arithmetic is written out where it can wrap; `float` expressions are exact
rationals. The source's `uint32` is an `unsigned long` (jni/include/wtypes.h:63): the results about weighted sums
that wrap are for builds in which that has 32 bits, and `AreaWeights.WideConstantIff` is for the others. `Common`
holds what several components share.

Where the code does not do what its comments or a reader expect, the project says exactly when it does:

- Rounding up adds one unit to every inexact fraction, even an exactly representable one
  (`FixedPoint.FractionPart`).
- The nine-row kernel stores red, green and blue at the same index: a row comes out right over every previous
  content of the buffer exactly when it does not span nine rows (`ScaleDown.KernelIsRightIff`,
  `ScaleDown.NineRowKernelFails`).
- Scaling up divides by zero exactly if the picture has a single line in either direction or is enlarged more
  than 256-fold, counted in steps (`ScalerPlane.UpJobDividesIff`), as from 10 pixels to 3300
  (`ScalerPlane.SmallPicturesFail`).
- Scale-up reads past the last column with a non-zero weight for some widths above 16384
  (`ScalerWindow.UpEdgeIff`, `ScalerWindow.WideRowFails`), and past its row window for some stripes of 2^14 rows
  and more (`ScalerWindow.UpWindowIff`, `ScalerWindow.UpWindowNeedsItsLimit`); whole ratios never do
  (`ScalerWindow.WholeRatiosNeverDrift`).
- The source buffer of a job that scales up is sized by stripes counted from the top of the picture, but a cropped
  or padded page is asked for in others. In strips of up to 253 rows it holds what is read exactly if the picture
  is higher than wide or no stripe asked for reaches more lines than one of those measured
  (`ScaledPage.JobFitsIff`); a picture of 400 by 200 pixels scaled to 424 by 212 and cropped to 106 rows is read
  three bytes behind it (`ScaledPage.CroppedJobFails`). Pages that are not cropped, under padding of whole strips,
  always fit (`ScaledPage.AlignedPagesFit`), and so does scaling down (`ScaledPage.DownFits`).
- The white rows below a cropped, scaled picture show rows that were to be cropped, exactly if a strip crosses the
  picture's lower edge (`ScaledPage.AnswersRightIff`, `ScaledPage.StripsRightIff`, `ScaledPage.SpillFails`).
- Very large reductions do not keep a constant picture constant: from a total weight of 2^32 / v on a 32-bit sum
  wraps, and below that the reciprocal may be too coarse (`AreaWeights.ConstantPreservedIff`,
  `AreaWeights.LargeReductionFails`).
- The run-length encoder loses the last byte of a final literal (`RunLength.RLEEncodeImage`,
  `RunLength.LiteralTailFails`).
- A PCLm page names its strips by their right numbers exactly when it brings enough of them and, if it is in
  AdobeRGB, is the first page or comes after one that wrote the colour profile (`PclmJob.PrintJob`). A job in
  AdobeRGB whose first page could not be decoded fails this (`PclmJob.UndecodedFirstPageFails`), and so does an
  AdobeRGB page after an RGB page (`PclmJob.LateProfileFails`); the plugin fixes the colour space of a job
  (jni/plugins/lib_pclm.c:145-153), so only the generator's own interface receives the latter.
- The white line of a blank page is written to a PCLm file but named by no page (`PclmJob.BlankPagePrints`).
- A PCLm file whose cross-reference section starts at 2^31 or later names a wrong start for it
  (`PclmWriter.PclmGenerator.EndJob`, `PclmTrailer.LateStartFails`).
- The last strip of a JPEG page is squeezed unless the strips divide the picture evenly
  (`PclmLayout.PlacedAsEncodedIff`), as a hundred lines in strips of 16 do not (`PclmLayout.LastStripIsSqueezed`).
- The message queue of a print job can turn a message down exactly when seventeen messages in a row hold at most
  eight stripes (`SendPool.CanLoseIff`), as when pages without strips follow one another
  (`SendPool.BlankPagesOverflow`).
- After 2^32 job allocations (on 32-bit systems) a free slot can be missed
  (`JobTable.EverySlotIsProbedIff`, `JobTable.LastNumberMissesSlot`).
- Cancelling a capability callback leaves a second registration of it with the same printer waiting, and does
  not reach a delivery in progress (`CapabilitiesCancel.CancelEndsAllIff`,
  `CapabilitiesCancel.CancelledDuringDelivery`).
- Cancelling may leave requests waiting although slots are free (`CapabilitiesCancel.CancelStallsIff`), until new
  requests come (`CapabilitiesCancel.DeficitLasts`).

## Model

| member | source | states |
|---|---|---|
| `FixedPoint.LongDivision` | jni/plugins/wprint_scaler.c:385-426 | 24 doublings give the floor of rem * 2^24 / den; the remainder never becomes zero, because the exact case leaves it at the denominator |
| `FixedPoint.FractionPart` | jni/plugins/wprint_scaler.c:385-426 | truncating gives the floor of the fraction in 24 bits; rounding up gives floor + 1 for every non-zero remainder, with a carry out of an all-ones fraction |
| `FixedPoint.RoundUp24Error` | jni/plugins/wprint_scaler.c:385-426 | a rounded ratio exceeds the exact one by at most one unit of 2^-24, and equals it only for whole ratios |
| `FixedPoint.RoundedRatio` | jni/plugins/wprint_scaler.c:338-369 | whole part, fraction and carry together are the rounded-up ratio |
| `FixedPoint.TruncatedRatio` | jni/plugins/wprint_scaler.c:338-369 | whole part and fraction together are the truncated ratio |
| `ScalerWindow.PositionDrift` | jni/plugins/wprint_scaler.c:997-1069 | the position of line a + r, accumulated from line a, lies at or above the exact one by at most one unit for every rounding made |
| `ScalerWindow.PositionCeiling` | jni/plugins/wprint_scaler.c:997-1069 | drift carries a position past the last line that the exact ratio needs by no more than the roundings made |
| `ScalerWindow.DownWindow` | jni/plugins/wprint_scaler.c:843-872 | scaling down, no sample gives weight to a line behind the last one that the exact ratio needs, for all 16-bit dimensions and stripes of any height |
| `ScalerWindow.UpWindow` | jni/plugins/wprint_scaler.c:956-995 | scaling up, the next line has non-zero weight only inside the window, for stripes of fewer than 2^14 lines |
| `ScalerWindow.UpWindowIff` | jni/plugins/wprint_scaler.c:997-1069 | for stripes of any height: every line takes its data from the window if and only if the position of the last one stays less than one weight unit above the last line needed |
| `ScalerWindow.WholeRatiosNeverDrift` | jni/plugins/wprint_scaler.c:997-1069 | whole ratios meet the condition, whatever the height |
| `ScalerWindow.UpWindowNeedsItsLimit` | jni/plugins/wprint_scaler.c:956-995 | at 2^14 steps of one half the drift reaches a full weight unit and a line outside gets weight |
| `ScalerWindow.UpEdgeIff` | jni/plugins/wprint_scaler.c:338-354 | all columns of a scaled-up row interpolate inside the row if and only if the drift of the last column stays below one weight unit |
| `ScalerWindow.WideRowFails` | jni/plugins/wprint_scaler.c:338-354 | a reachable width that fails: the last of 20001 columns out of 101 takes a weight unit from behind the row |
| `ScalerWindow.UpEdgeSafeTo16384` | jni/plugins/wprint_scaler.c:338-354 | the condition holds for every output width up to 16384 |
| `ScalerWindow.FineStepIff` | jni/plugins/wprint_scaler.c:1043-1044 | the step of an enlarged axis, in the units that the scaler divides by, is not zero if and only if the axis is enlarged at most 256-fold |
| `ScalerConfiguration.ScalerConfig.constructor` | jni/plugins/wprint_scaler.c:39-77 | for pictures of any size that is not empty: the set-up comes to its end, without dividing by zero, if and only if something is to be output and no axis of a single line is scaled up; an axis that grows is scaled up and one that shrinks scaled down, and both reciprocals are the rounded-up exact ratios of the extents |
| `ScalerConfiguration.ScalerConfig.CalculateFactors` | jni/plugins/wprint_scaler.c:324-383 | the dimensions of up-scaled axes are decremented for the divisions and restored; whether a divisor is zero |
| `ScalerConfiguration.ScalerConfig.ChooseRows` | jni/plugins/wprint_scaler.c:90-110 | the rows chosen cover those asked for as far as the page has them, and are no others, except that a request for one row takes the row before it along, or at the top the row behind it, if the page has two; the offset of the wanted row is reported |
| `ScalerConfiguration.ScalerConfig.PlaceWindow` | jni/plugins/wprint_scaler.c:112-170 | the source rows of a stripe are the exact ones for its first and last output row, inside the picture |
| `ScalerConfiguration.ScalerConfig.CalculateScalingRows` | jni/plugins/wprint_scaler.c:79-189 | the window for the requested rows, the offset of the first of them, and how many rows to provide for |
| `ScalerConfiguration.StartPosition` | jni/plugins/wprint_scaler.c:119-130 | the start position is the rounded-up position of the first output row |
| `ScalerConfiguration.LastSourceRowUp` | jni/plugins/wprint_scaler.c:132-150 | scaling up, the last source row is the exact ceiling; a partial step generates one row more |
| `ScalerConfiguration.LastSourceRowDown` | jni/plugins/wprint_scaler.c:151-165 | scaling down, the last source row is the one before the exact ceiling of the next output row |
| `AreaWeights.OverlapSumIsLength` | jni/plugins/wprint_scaler.c:843-872 | the weights of all lines of a sample add up to its extent |
| `AreaWeights.AreaSumBounds` | jni/plugins/wprint_scaler.c:915-952 | a sum over pixels in m..M lies in m*W..M*W for the total weight W |
| `AreaWeights.NormaliseNearMean` | jni/plugins/wprint_scaler.c:914-952 | multiplying by the truncated reciprocal of W gives a value within one of the exact mean, for W up to 2^23 |
| `AreaWeights.NormaliseInRange` | jni/plugins/wprint_scaler.c:914-952 | and never leaves the range of the pixels covered |
| `AreaWeights.ConstantPreservedIff` | jni/plugins/wprint_scaler.c:1043-1044 | for any total weight W and accumulators of 32 bits, a constant region keeps its value v exactly when v * W does not wrap and v * (2^32 mod W) is at most 2^31; it never becomes brighter |
| `AreaWeights.WideConstantIff` | jni/plugins/wprint_scaler.c:1043-1044 | with accumulators of 64 bits a constant region keeps its value v exactly when v * (2^32 mod W) is at most 2^31 |
| `AreaWeights.LargeReductionFails` | jni/plugins/wprint_scaler.c:1043-1044 | with accumulators of 32 bits a reduction by 32 in both directions turns white, 255, into 63 |
| `ScaleDown.PlanRows` | jni/plugins/wprint_scaler.c:843-872 | row count and edge weights of a sample: first and last row partial, every row between in full, nothing behind; the weights add up to the step and both assertions hold |
| `ScaleDown.LoopColumn` | jni/plugins/wprint_scaler.c:914-952 | the generic loop adds one column's rows, weighted, to the 32-bit accumulator |
| `ScaleDown.UnrolledIsLoop` | jni/plugins/wprint_scaler.c:430-841 | each unrolled kernel for two to nine rows accumulates the same column value as the generic loop |
| `ScaleDown.Accumulate` | jni/plugins/wprint_scaler.c:914-952 | walking the columns of a sample gives the area-weighted sum, reading no column outside the row |
| `ScaleDown.ScaleRowDown` | jni/plugins/wprint_scaler.c:843-954 | one output row: channel c of pixel x is the normalised area sum at byte 3x + c; in a row that spans nine source rows blue stands at the first byte of each pixel and the other two keep what they held; nothing else is written |
| `ScaleDown.StorePixel` | jni/plugins/wprint_scaler.c:487-489 | the nine-row kernel writes three times to the first byte of a pixel, the others to all three bytes |
| `ScaleDown.StoredIsReferenceIff` | jni/plugins/wprint_scaler.c:430-491 | over a given buffer a row is stored right if and only if it does not span nine rows, or red equals blue and the buffer already held green and blue |
| `ScaleDown.KernelIsRightIff` | jni/plugins/wprint_scaler.c:430-491 | a row is stored right over every previous content of the buffer if and only if it does not span nine rows |
| `ScaleDown.NineRowKernelFails` | jni/plugins/wprint_scaler.c:487-489 | over a cleared buffer nine white rows leave the green byte zero, whatever else |
| `ScaleUp.BilinearInRange` | jni/plugins/wprint_scaler.c:956-995 | an interpolated sample never leaves the range of the neighbours that have weight, so no range check is needed |
| `ScaleUp.InterpolateChannel` | jni/plugins/wprint_scaler.c:970-992 | one channel of a pixel is the bilinear value of its four neighbours and fits a byte |
| `ScaleUp.ScaleRowUp` | jni/plugins/wprint_scaler.c:956-995 | one output row: channel c of pixel x is its bilinear sample at byte 3x + c, and nothing else is written |
| `ScalerPlane.DownReach` | jni/plugins/wprint_scaler.c:997-1069 | every row of a scale-down stripe takes its weight from the window of source rows chosen for the stripe |
| `ScalerPlane.DownRowsRead` | jni/plugins/wprint_scaler.c:850-872 | at most one row behind the window is read, directly behind it, and it has weight zero |
| `ScalerPlane.DownColumns` | jni/plugins/wprint_scaler.c:914-952 | no column outside the picture is reached, for all source widths from the output width on |
| `ScalerPlane.KernelSumIsWindowSum` | jni/plugins/wprint_scaler.c:997-1069 | starting the sum at the row a sample starts in gives the sum over the whole window |
| `ScalerPlane.DownSampleIsMean` | jni/plugins/wprint_scaler.c:914-952 | for any total weight the sum lies between the pixels covered; unless it wraps, the sample is less than 1.5 from the exact weighted mean and not above the pixels; for weights up to 2^23 it does not wrap, and the sample is within one of the mean and inside their range |
| `ScalerPlane.ConstantSampleIff` | jni/plugins/wprint_scaler.c:914-952 | a sample that covers pixels of one value keeps that value exactly when its weighted sum does not wrap and the reciprocal is fine enough |
| `ScalerPlane.ScalePlaneDown` | jni/plugins/wprint_scaler.c:997-1069 | a whole stripe on the window that the set-up chose: in every row that does not span nine source rows byte 3x + c is the area-weighted sample of channel c at pixel x over the whole window; in the others blue stands at the first byte and the other two are as they were |
| `ScalerPlane.UpRowsInWindow` | jni/plugins/wprint_scaler.c:997-1069 | every requested scale-up row takes its data from the window, for stripes of fewer than 2^14 rows |
| `ScalerPlane.UpRowsInWindowIff` | jni/plugins/wprint_scaler.c:997-1069 | for stripes of any height: all requested rows take their data from the window if and only if the last position stays less than one weight unit above it |
| `ScalerPlane.UpColumnsInImage` | jni/plugins/wprint_scaler.c:956-995 | every scale-up sample reads columns of the picture, the one past the end only with weight zero, on edge-safe widths |
| `ScalerPlane.ScalePlaneUp` | jni/plugins/wprint_scaler.c:997-1069 | a whole stripe, from a source buffer that holds the bytes the loop reads: byte 3x + c of every generated row is the bilinear sample of channel c at pixel x; or a division by zero before the first row, exactly if an axis is enlarged more than 256-fold |
| `ScalerPlane.UpJobDividesIff` | jni/plugins/wprint_scaler.c:1043-1044 | all divisions of a scale-up job, by the extents and by the product of the steps, are defined if and only if the picture has at least two lines in both directions and is enlarged at most 256-fold |
| `ScalerPlane.SmallPicturesFail` | jni/plugins/wprint_scaler.c:1043-1044 | a picture of ten by ten pixels scaled to 3300 by 3300, and one of a single column, for which they are not |
| `ScalerPlane.LastPixelReadsLastByte` | jni/plugins/wprint_scaler.c:956-995 | the bytes read end with the pixel past the end of the row below the last generated row |
| `ScalerPlane.WindowIsDownStripe` | jni/plugins/wprint_scaler.c:79-189 | the window that the set-up chose is the one the scale-down results assume |
| `ScalerPlane.WindowIsUpStripe` | jni/plugins/wprint_scaler.c:79-189 | likewise for scale-up |
| `UpSamples.SampleIsInPlane` | jni/plugins/wprint_scaler.c:956-995 | a sample is bilinear interpolation at its position in 1024ths of a line, rounded down |
| `UpSamples.PlaneContinuous` | jni/plugins/wprint_scaler.c:956-995 | bilinear interpolation changes by at most 255 for every line between two places |
| `UpSamples.UpSampleNear` | jni/plugins/wprint_scaler.c:997-1069 | drift and truncation move a sample away from the exact bilinear value by less than k / 2, and rounding down by less than one more, for up to 2^14 * k roundings in either direction |
| `UpSamples.UpSampleIsBilinear` | jni/plugins/wprint_scaler.c:997-1069 | below 2^14 roundings and on edge-safe widths, every sample of a requested row weighs only pixels of the picture in the window, stays in their range, and lies less than one half above and one and a half below the exact bilinear value of such pixels |
| `UpSamples.UpSampleIsNear` | jni/plugins/wprint_scaler.c:997-1069 | for all 16-bit sizes and stripes, a sample lies less than two above and three below it |
| `ScaledPage.UnscaledRowsNeeded` | jni/plugins/wprint_image.c:351-374 | the measuring loop finds two rows more than the largest of the stripes counted from the top needs |
| `ScaledPage.RequestsAreFine` | jni/plugins/wprint_image.c:838-861 | whatever rows are asked for, the stripes scaled for them are inside the scaled picture, no higher than a strip, and follow one another |
| `ScaledPage.DecodedRowsFit` | jni/plugins/wprint_image.c:375-379 | any stripe needs at most one row more than was sized, so its rows can be decoded into the buffer |
| `ScaledPage.TouchedByLoops` | jni/plugins/wprint_scaler.c:997-1069 | what a stripe of a job touches is what the plane loops need of their source buffer |
| `ScaledPage.DownFits` | jni/plugins/wprint_image.c:375-379 | scaling down, the buffer holds what any stripe touches |
| `ScaledPage.UpFitsIff` | jni/plugins/wprint_image.c:375-379 | scaling up, for stripes of any height: the buffer holds what a stripe touches if and only if its rows begin in no more lines than were sized, or in one more of a picture higher than wide, or in two more of one far higher |
| `ScaledPage.StripsTo253AreShort` | jni/plugins/wprint_image.c:127-128 | strips of up to 253 rows are short for pictures of any height |
| `ScaledPage.ShortStripFitsIff` | jni/plugins/wprint_image.c:375-379 | in short strips rows begin where they exactly begin, and the buffer holds what a stripe touches if and only if the picture is higher than wide or the stripe reaches no more lines than were sized |
| `ScaledPage.JobFitsIff` | jni/plugins/wprint_image.c:838-857 | likewise for all requests of a page, with any offset and padding |
| `ScaledPage.AlignedPagesFit` | jni/plugins/wprint_image.c:838-857 | a page that is not cropped, under padding of whole strips, is asked for in the stripes measured, and the buffer holds all of it |
| `ScaledPage.CroppedJobFails` | jni/plugins/wprint_image.c:838-857 | a cropped picture of 400 by 200 pixels whose first stripe is read three bytes behind the buffer |
| `ScaledPage.AnswersRightIff` | jni/plugins/wprint_image.c:803-993 | a request shows the page's rows if and only if it does not cross the lower edge of a cropped picture |
| `ScaledPage.StripsRightIff` | jni/plugins/wprint_image.c:803-993 | a page printed strip by strip comes out right if and only if the picture is not cropped, or nothing lies below it, or it ends with a strip |
| `ScaledPage.SpillFails` | jni/plugins/wprint_image.c:847-848 | a page whose first white row below the picture shows a cropped row |
| `ScaledImages.ScaledImage.MoveToFront` | jni/plugins/wprint_image.c:869-872 | overlapping bytes move to the front unchanged |
| `ScaledImages.ScaledImage.DecodeRows` | jni/plugins/wprint_image.c:885-888 | rows are decoded one behind the other unless one of them cannot be |
| `ScaledImages.ScaledImage.LoadWindow` | jni/plugins/wprint_image.c:864-897 | rows kept from the stripe before and rows decoded anew are together the rows of the window; it fails exactly if a row that was not kept cannot be decoded |
| `ScaledImages.WindowsAdvance` | jni/plugins/wprint_image.c:864-873 | a later stripe's window begins no earlier, so the rows to keep are in the buffer |
| `ScaledImages.ScaleStripe` | jni/plugins/wprint_image.c:853-902 | a stripe is placed, loaded and scaled: every byte put out is the sample of its channel and pixel from the rows in the buffer, as for the two plane loops; it fails exactly if a row cannot be decoded or the scaler's division is by zero |
| `ScaledImages.BufferShowsPicture` | jni/plugins/wprint_image.c:869-888 | what the scaler sees as a line of its window is the picture's line |
| `OutputGeometry.Geometry.ChooseSampleSize` | jni/plugins/wprint_image.c:218-257 | a power of two: the picture is halved exactly while the half stays larger than the printable area, in both dimensions to cover it, in one to fit into it |
| `OutputGeometry.Geometry.DropFineScaling` | jni/plugins/wprint_image.c:263-285 | fine scaling is dropped exactly when subsampling has already met an edge on the right side, or a document fits as it is |
| `OutputGeometry.Geometry.FineScale` | jni/plugins/wprint_image.c:304-340 | a fitted picture stays inside the printable area, a scaled one covers it, both meet one edge exactly, and the other side is the longest that keeps the proportions of the picture |
| `OutputGeometry.Geometry.PlaceColumns` | jni/plugins/wprint_image.c:404-549 | horizontal alignment: padding makes up exactly what is missing, evenly when centred and on the right side otherwise, and a wide picture is cropped to a window of itself |
| `OutputGeometry.Geometry.PlaceRows` | jni/plugins/wprint_image.c:404-549 | vertical alignment, likewise |
| `OutputGeometry.Geometry.PlaceImage` | jni/plugins/wprint_image.c:404-549 | which side is padded and which end is cropped, for each rotation |
| `OutputGeometry.MarginsTurn` | jni/plugins/wprint_image.c:101-174 | the paddings start out as the margins of a page that is turned clockwise with the picture, the left one becoming the upper one each quarter |
| `OutputGeometry.Geometry.SetOutputProperties` | jni/plugins/wprint_image.c:84-552 | for every rotation, scaling mode and alignment: the padded page has exactly the requested size, and the picture sits in it at the side its rotation asks for, beside the turned margins; a scaled picture keeps the proportions of the rotated one, meets one edge and fits or covers; the sample size is the power of two that ends the halving; fine scaling is dropped exactly when an edge is met or a document fits; without scaling the placed picture is a window of the rotated one |
| `StripeDecoding.StripeDecoder.ComputeRowsToCache` | jni/plugins/wprint_image.c:995-1060 | the cache holds at least one row, no more than memory allows and no more than the picture has, and unless it holds all of them no further row would fit, or from sixteen rows on no further sixteen; it is as wide as the picture is high |
| `StripeDecoding.StripeDecoder.FillSwath` | jni/plugins/wprint_image.c:636-674 | the cache is filled with the swath of rotated rows that contains the one asked for, or the failure is reported |
| `StripeDecoding.StripeDecoder.DecodeSideways` | jni/plugins/wprint_image.c:636-758 | rotated rows come out of the cache, swath after swath, and the loops end |
| `StripeDecoding.StripeDecoder.DecodeUpright` | jni/plugins/wprint_image.c:687-777 | rows of an upright or upside-down picture, cropped, the latter reversed |
| `StripeDecoding.StripeDecoder.DecodeStripe` | jni/plugins/wprint_image.c:779-993 | a request inside the page gets exactly its rows of the reference page, as far as the page has them, and their bytes are counted unless it starts below the picture and goes beyond the page; one that starts outside fails and writes nothing |
| `StripeDecoding.GeometryGivesView` | jni/plugins/wprint_image.c:391-402 | what the geometry sets up is what the decoder needs, and both report the same page size |
| `StripeDecoding.DecodePage` | jni/plugins/wprint_image.c:779-993 | stripes of any heights that add up to the page are, put together, the page: every pixel of the picture that is not cropped stands where turning the picture clockwise brings it, moved by padding and cropping, and everything around is white |
| `RunLength.CountRun` | jni/plugins/genPCLm/src/genPCLm.cpp:1279-1290 | the length of the run at a position, capped, with the look behind the input |
| `RunLength.ScanLiteral` | jni/plugins/genPCLm/src/genPCLm.cpp:1316-1326 | a literal ends before two equal bytes, and at the end of the input has one byte too few |
| `RunLength.EmitRun` | jni/plugins/genPCLm/src/genPCLm.cpp:1298-1307 | a run is written in pieces of 128, a remainder of one with the length byte 0 |
| `RunLength.EmitLiteral` | jni/plugins/genPCLm/src/genPCLm.cpp:1327-1340 | a literal is written in pieces of 128 |
| `RunLength.RunCodeDecodes` | jni/plugins/genPCLm/src/genPCLm.cpp:1298-1307 | the pieces of a run decode to the run |
| `RunLength.LiteralCodeDecodes` | jni/plugins/genPCLm/src/genPCLm.cpp:1327-1340 | the pieces of a non-empty literal decode to it |
| `RunLength.RLEEncodeImage` | jni/plugins/genPCLm/src/genPCLm.cpp:1272-1347 | decoding gives the input back if and only if it is empty or ends in two equal bytes with a different byte (or a single run) behind; the output then has at most n + n/3 + 1 bytes, and always fits twice the input |
| `RunLength.LiteralTailFails` | jni/plugins/genPCLm/src/genPCLm.cpp:1316-1340 | a lone last byte leaves a dangling length byte or is dropped |
| `PdfReader.DecReads` | jni/plugins/genPCLm/src/genPCLm.cpp:321-354 | a numeral reads back as its number, whatever follows |
| `PdfReader.EntryReads` | jni/plugins/genPCLm/src/genPCLm.cpp:316-336 | a cross-reference entry has the fixed size of twenty bytes that a reader relies on, and reads back, for offsets from 0 to below 10^10 |
| `PdfReader.SectionReads` | jni/plugins/genPCLm/src/genPCLm.cpp:313-336 | the section reads back as its subsections, each with its first number and as many entries as it announces |
| `PdfReader.StartReads` | jni/plugins/genPCLm/src/genPCLm.cpp:351-356 | the number behind startxref reads back if it is not negative, and otherwise there is none |
| `PdfReader.TrailerReads` | jni/plugins/genPCLm/src/genPCLm.cpp:338-350 | /Size and /Root read back, behind a comment |
| `PdfReader.ObjectReads` | jni/plugins/genPCLm/src/genPCLm.cpp:261-264 | an object is recognised by its header, and its body follows |
| `PclmTrailer.LookupSections` | jni/plugins/genPCLm/src/genPCLm.cpp:313-336 | a reader of the three subsections finds for every object number its entry of the table, and nothing for numbers from /Size on |
| `PclmTrailer.XrefReads` | jni/plugins/genPCLm/src/genPCLm.cpp:313-357 | a reader of the finished text finds its section, its size and its root, if the section starts below 2^31 |
| `PclmTrailer.FileIsRead` | jni/plugins/genPCLm/src/genPCLm.cpp:256-357 | a reader of the finished text finds every body under its object number and no other object; it is told the right start exactly when that is below 2^31 |
| `PclmTrailer.LateStartFails` | jni/plugins/genPCLm/src/genPCLm.cpp:351-356 | a section at 2^31, whose number is written negative and not read |
| `PclmReader.PagesRead` | jni/plugins/genPCLm/src/genPCLm.cpp:256-302 | from the trailer over the catalog to the page tree, a reader finds the numbers of the pages |
| `PclmReader.PageReads` | jni/plugins/genPCLm/src/genPCLm.cpp:782-845 | a page object reads back as a child of the page tree, with the images it names, in order, its size and its contents |
| `PclmStreams.ContentReads` | jni/plugins/genPCLm/src/genPCLm.cpp:854-956 | a content stream reads back as its scale and its images 0, 1, 2, ..., each with its width, height and place |
| `PclmStreams.ImageReads` | jni/plugins/genPCLm/src/genPCLm.cpp:438-526 | a strip object reads back as its width, height, colour space, filter, kind and data |
| `PclmStreams.ProfileReads` | jni/plugins/genPCLm/src/genPCLm.cpp:359-417 | the profile object reads back as the profile and a line end |
| `PclmStreams.TransformReads` | jni/plugins/genPCLm/src/genPCLm.cpp:616-650 | the object behind every strip reads back as the drawing of one image |
| `PclmLayout.RoundTo16IsNearest` | jni/plugins/genPCLm/src/genPCLm.cpp:1496-1504 | the margin becomes the nearest multiple of sixteen lines, the upper one of two |
| `PclmLayout.StripCountIsLeast` | jni/plugins/genPCLm/src/genPCLm.cpp:1522-1530 | the strips hold all lines of the page, and one strip fewer would not |
| `PclmLayout.HeightsTotal` | jni/plugins/genPCLm/src/genPCLm.cpp:1579-1591 | margin strips and picture strips are together as high as the margin and the picture |
| `PclmLayout.MarginAt` | jni/plugins/genPCLm/src/genPCLm.cpp:1579-1591 | every strip of the margin is a full one, or what is left of the margin |
| `PclmLayout.HeightAt` | jni/plugins/genPCLm/src/genPCLm.cpp:909-926 | every strip of the picture is a full one, and the last what is left of the picture, which is at least a line |
| `PclmLayout.AnchorIsCeil` | jni/plugins/genPCLm/src/genPCLm.cpp:848-852 | the page's upper edge is its height in dots, rounded up |
| `PclmLayout.TileIsGapless` | jni/plugins/genPCLm/src/genPCLm.cpp:861-956 | placements hang from the page's upper edge without gap or overlap and end at the sum of their heights |
| `PclmLayout.BuildContent` | jni/plugins/genPCLm/src/genPCLm.cpp:848-956 | a reader of the content stream that is built finds 72 points to the inch, and image k for strip k, as wide as the page, its upper edge at the lower edge of the strips before it, and as high as the strip, unless it is one of the picture's, but not the last, that would reach below the page: that one is cut off there |
| `PclmLayout.PlacedAsEncodedIff` | jni/plugins/genPCLm/src/genPCLm.cpp:913-952 | the contents place a picture strip as high as JPEG strips are encoded exactly when the strips divide the picture evenly or, if it is not the last one, when it does not reach below the page |
| `PclmLayout.LastStripIsSqueezed` | jni/plugins/genPCLm/src/genPCLm.cpp:938-941 | a hundred lines in strips of 16, whose last strip is encoded at 16 lines and not placed so |
| `PclmWriter.PclmGenerator.constructor` | jni/plugins/genPCLm/src/genPCLm.cpp:1349-1397 | a fresh writer has no objects and will number the first one 3 |
| `PclmWriter.PclmGenerator.InitOutBuff` | jni/plugins/genPCLm/src/genPCLm.cpp:222-227 | the buffer is empty again; the file position is kept |
| `PclmWriter.PclmGenerator.Write` | jni/plugins/genPCLm/src/genPCLm.cpp:229-249 | text is appended to the file, the position is counted in 32 bits, and every recorded object stays where it is |
| `PclmWriter.PclmGenerator.RecordOffset` | jni/plugins/genPCLm/src/genPCLm.cpp:187-204 | the current file position, as 32 bits hold it, joins the offset table, whose first entry is unused |
| `PclmWriter.PclmGenerator.AddObject` | jni/plugins/genPCLm/src/genPCLm.cpp:251-254 | an object is recorded, numbered and written, and will be found |
| `PclmWriter.PclmGenerator.WriteSubsection` | jni/plugins/genPCLm/src/genPCLm.cpp:316-338 | a subsection's header counts the entries that follow it |
| `PclmWriter.PclmGenerator.WriteRootObjects` | jni/plugins/genPCLm/src/genPCLm.cpp:256-311 | catalog and page tree are written last under their fixed numbers, and their offsets close the table |
| `PclmWriter.PclmGenerator.WriteXref` | jni/plugins/genPCLm/src/genPCLm.cpp:308-357 | cross-reference section and trailer are those of the offset table |
| `PclmWriter.PclmGenerator.SetPage` | jni/plugins/genPCLm/src/genPCLm.cpp:1458-1591 | the page's fields: rounded margin, strip height in force, no reversed order, and the division of the margin into strips |
| `PclmWriter.ImageRefs` | jni/plugins/genPCLm/src/genPCLm.cpp:797-823 | /Image0, /Image1, ... name objects two apart, margin strips first |
| `PclmWriter.PclmGenerator.WritePageObject` | jni/plugins/genPCLm/src/genPCLm.cpp:765-846 | the page object joins the page tree, names its future images and the next object as its contents |
| `PclmWriter.PclmGenerator.WriteContents` | jni/plugins/genPCLm/src/genPCLm.cpp:848-984 | the content stream becomes the object that the page named, and a reader of it finds the page's strips where they belong |
| `PclmWriter.PclmGenerator.StartJob` | jni/plugins/genPCLm/src/genPCLm.cpp:1403-1428 | emits the two lines of the file header |
| `PclmWriter.PclmGenerator.StartPage` | jni/plugins/genPCLm/src/genPCLm.cpp:1458-1611 | adds the page and its contents, which a reader finds to draw the page's strips where they belong, and predicts the numbers of its strips, for every page that is not a mirrored back side |
| `PclmWriter.PclmGenerator.InjectProfile` | jni/plugins/genPCLm/src/genPCLm.cpp:359-417 | before the first AdobeRGB strip, and only then, the colour space and its profile are written |
| `PclmWriter.PclmGenerator.InjectStrip` | jni/plugins/genPCLm/src/genPCLm.cpp:651-740 | a strip and its transform become the next two objects, so strips follow one another two numbers apart |
| `PclmWriter.PclmGenerator.InjectMargin` | jni/plugins/genPCLm/src/genPCLm.cpp:1724-1747 | the blank strips of the margin, full ones first |
| `PclmWriter.PclmGenerator.Encapsulate` | jni/plugins/genPCLm/src/genPCLm.cpp:1627-1876 | a call emits one strip, before the first one of a page also the margin; JPEG strips keep the full strip height, the first strip is never marked white, and once a call has brought more than one strip of lines every strip counts as full |
| `PclmWriter.PclmGenerator.TakeLines` | jni/plugins/genPCLm/src/genPCLm.cpp:1637-1683 | how many lines a call encodes, and how many it leaves for the next one |
| `PclmWriter.PclmGenerator.EndPage` | jni/plugins/genPCLm/src/genPCLm.cpp:1613-1625 | emits nothing |
| `PclmWriter.PclmGenerator.EndJob` | jni/plugins/genPCLm/src/genPCLm.cpp:1430-1456 | whatever was written before, a reader of the finished file finds everything in it as it was written, and is told the right start of the cross-reference section, if and only if that starts below 2^31 |
| `PclmJob.PrintPage` | jni/plugins/genPCLm/src/genPCLm.cpp:765-823 | a page with any number of strips, and whatever lines are left over from earlier calls: every image it names is its strip of that index if and only if it brings enough strips and the colour profile is due on the first page or not at all, and every strip is named if and only if it brings no more than announced, likewise |
| `PclmJob.PrintJob` | jni/plugins/genPCLm/src/genPCLm.cpp:1403-1876 | for all jobs, with calls of any number of lines that fill their strips: a reader who starts at the end of the file finds every page in the page tree; in the page its images, size and contents; in the contents every strip drawn where it belongs; and under their numbers all strips with their width, height, colour space, filter and data, if the cross-reference section starts below 2^31; it is told the right start exactly then; for each page exactly when its images resolve; object 5 is the colour space that AdobeRGB strips name, and leads to the profile, exactly when the first page is in AdobeRGB and has a strip |
| `PclmJob.PlainPages` | jni/plugins/genPCLm/src/genPCLm.cpp:1637-1683 | a job whose calls never bring more than one strip of lines, as the plugin's do, is written as it is and leaves nothing over |
| `PclmJob.CompleteJobs` | jni/plugins/genPCLm/src/genPCLm.cpp:765-823 | if every page brings exactly the strips it announced, all image names resolve if and only if the first page or no page is in AdobeRGB |
| `PclmJob.BlankPagePrints` | jni/plugins/lib_pclm.c:273-280 | the blank page is such a page: no strip announced, one written, so its margin resolves and its white line has no name |
| `PclmJob.LateProfileFails` | jni/plugins/genPCLm/src/genPCLm.cpp:774-776 | a job of an RGB and an AdobeRGB page, whose second page names the wrong object |
| `PclmJob.UndecodedFirstPageFails` | jni/plugins/genPCLm/src/genPCLm.cpp:774-776 | a job in AdobeRGB whose first page brings no strip, so that the second names the wrong object |
| `SendPool.StripesFlowInOrder` | jni/plugins/plugin_pcl.c:112-149 | in every interleaving the semaphore, the producer's token and the stripes on their way add up to eight; stripes are printed in the order queued, none lost or repeated; their pools are live |
| `SendPool.FillIsExclusive` | jni/plugins/plugin_pcl.c:396-440 | in every interleaving the producer never decodes into a buffer that a queued or printing stripe refers to |
| `SendPool.FreedAfterPrinting` | jni/plugins/plugin_pcl.c:136-142 | a page's buffers are freed once, after all its queued stripes were printed, and nobody refers to them any more |
| `SendPool.QueueNeverFull` | jni/plugins/plugin_pcl.c:380-496 | a discipline that is enough: with at least eight stripes a page and at most one page without any after it, the sixteen-slot queue never holds more than fourteen messages and turns none down |
| `SendPool.NeverStray` | jni/plugins/plugin_pcl.c:380-496 | the messages offered in any run follow the order of job, pages and stripes |
| `SendPool.CanLoseIff` | jni/plugins/plugin_pcl.c:380-496 | for every stream of messages in that order: some interleaving of the two threads turns one of them down if and only if seventeen messages in a row hold at most eight stripes |
| `SendPool.BlankPagesOverflow` | jni/plugins/plugin_pcl.c:502-517 | every end-of-page message from the sixteenth blank page on is lost while the send thread does not run |
| `SendPool.NobodyIsStuck` | jni/plugins/plugin_pcl.c:197-214 | a job thread that waits for a buffer or for the send thread waits for a thread that can move |
| `MsgQueue.MsgQ.constructor` | jni/lib/wprint_msgq.c:49-76 | an empty queue of the given size |
| `MsgQueue.MsgQ.Send` | jni/lib/wprint_msgq.c:95-119 | a message that fits is appended if there is room, and otherwise nothing changes |
| `MsgQueue.MsgQ.Receive` | jni/lib/wprint_msgq.c:121-146 | the oldest message is removed; as many bytes as asked for are copied from its slot on, slot after slot, those of the message first |
| `MsgQueue.MsgQ.NumMsgs` | jni/lib/wprint_msgq.c:148-157 | the number of queued messages |
| `MsgQueueThreads.QueueIsFifo` | jni/lib/wprint_msgq.c:95-146 | with any number of senders and receivers, step by step: deliveries are a prefix of the accepted messages, semaphore plus permits is the count, the write position is that many slots past the read position, and no unread slot is overwritten |
| `MsgQueueThreads.StepsAreRight` | jni/lib/wprint_msgq.c:95-157 | a message is turned down exactly when it is too long or the queue is full, a receiver gets the oldest undelivered message, and the count asked for is right |
| `MsgQueueThreads.NoLostWakeup` | jni/lib/wprint_msgq.c:121-136 | while more messages are undelivered than receivers are on their way, another receiver gets through |
| `CopyReplay.JobThread.QueuePage` | jni/lib/lib_wprint.c:2032-2096 | a page message is taken, with its file in the job's directory unless it names one, cut to the length that fits, unless the last one was seen, the path is too long or a thousand are queued; a last page that finds the queue full still ends the taking |
| `CopyReplay.JobThread.PrintPage` | jni/lib/lib_wprint.c:1028-1088 | one message: numbering, side and margins of the page, plugin or blank, margins restored, a corrupt page counted at its first failure only |
| `CopyReplay.JobThread.FinishPage` | jni/lib/lib_wprint.c:1091-1115 | the evening blank, the saving of the message and the swap of the two queues |
| `CopyReplay.JobThread.PrintCopy` | jni/lib/lib_wprint.c:979-1140 | a copy handles every queued message once and leaves them, corrupt ones marked, as the queue of the next copy |
| `CopyReplay.JobThread.PrintCopies` | jni/lib/lib_wprint.c:979-1140 | all copies: what is printed, the margins, the corrupt count and the result of the job |
| `CopyReplay.CopiesReplayPages` | jni/lib/lib_wprint.c:979-1140 | every copy handles the pages the client queued, in order, with the same numbers, sides and margins |
| `CopyReplay.CopyTells` | jni/lib/lib_wprint.c:1019-1088 | the plugin is told of every page with a file once in each copy, in order: the number of that copy, the page's number in its file or its count, the side, whether the copy before found it corrupt, the margins of job and page together, and that it is the last exactly in the last copy's last message |
| `CopyReplay.LogTells` | jni/lib/lib_wprint.c:979-1140 | so it is over all copies of a job |
| `CopyReplay.LastIsToldOnce` | jni/lib/lib_wprint.c:1019-1026 | the last page is announced at most once in a job, in its last copy |
| `CopyReplay.DuplexCopiesAreEven` | jni/lib/lib_wprint.c:1091-1098 | every duplex copy ends on an even number of sides, unless the job has no page and started on a back side |
| `CopyReplay.CorruptCountedOnce` | jni/lib/lib_wprint.c:1084-1088 | the count is the number of pages found corrupt, however many copies there are |
| `CopyReplay.CorruptBeforeMeans` | jni/lib/lib_wprint.c:1060-1088 | a page counts as corrupt from the first copy on in which the plugin says so |
| `CopyReplay.MarginsRestored` | jni/lib/lib_wprint.c:1039-1082 | adding and subtracting a page's margins restores them, wrap-around included |
| `JobTable.Table.GetHandle` | jni/lib/lib_wprint.c:421-455 | the first free slot probed becomes a live job with a new handle, and otherwise the bad handle is returned and nothing changes |
| `JobTable.Table.SetState` | jni/lib/lib_wprint.c:592-641 | a job that changes its state keeps its handle, and handles that resolve to nothing still do |
| `JobTable.Table.Recycle` | jni/lib/lib_wprint.c:457-495 | only a finished job's slot is freed, and its handle stops resolving |
| `JobTable.Table.LiveHandlesAreInjective` | jni/lib/lib_wprint.c:225-237 | a live job is found under its own handle, and no two live jobs share one |
| `JobTable.Table.StaleHandleNeverResolves` | jni/lib/lib_wprint.c:89-91 | the handle of a job that is gone resolves to no job during the next 2^24 - 1 allocations |
| `JobTable.EverySlotIsProbedIff` | jni/lib/lib_wprint.c:427-430 | an allocation finds the free slot of every table that has one if and only if its probes do not wrap around |
| `JobTable.LastNumberMissesSlot` | jni/lib/lib_wprint.c:427-430 | the last number of 32 bits, whose probes never look at slot 99 |
| `JobTable.BothWidthsAreModuli` | jni/lib/lib_wprint.c:427-430 | 32 and 64 bits are widths of the running number that these results cover |
| `BlankPage.PageIsWhite` | jni/plugins/lib_pwg.c:322-366 | a reader of the encoding gets exactly height rows of width pixels of one byte 255 in gray, and three in colour |
| `BlankPage.GenerateBlankData` | jni/plugins/lib_pwg.c:322-366 | the loops write exactly the announced number of bytes, which read back as the blank page; an empty page gives none |
| `CapabilitiesCache.Cache.GetNextRequest` | src/com/android/bips/ipp/CapabilitiesCache.java:220-239 | whatever order the map is walked in, the request found waits, has high priority if any waiting one has, and the shortest timeout of its priority; there is none exactly when no slot is free or none waits |
| `CapabilitiesCache.Cache.Request` | src/com/android/bips/ipp/CapabilitiesCache.java:140-169 | one request for each printer collects the callbacks, may rise in priority, and at most one query is started |
| `CapabilitiesCache.Cache.Cancel` | src/com/android/bips/ipp/CapabilitiesCache.java:194-207 | the first registration of the callback goes from every request, and requests without any are dropped with their query |
| `CapabilitiesCache.Cache.Accept` | src/com/android/bips/ipp/CapabilitiesCache.java:265-305 | a failed first pass queues the request again with the longer timeout; any other answer takes it out for delivery; capabilities of another device count as none; nothing happens after close |
| `CapabilitiesCache.Cache.CallNext` | src/com/android/bips/ipp/CapabilitiesCache.java:303-306 | the next callback of a delivery is called with its result |
| `CapabilitiesCache.Cache.FinishAccept` | src/com/android/bips/ipp/CapabilitiesCache.java:303-308 | the end of a delivery starts at most one waiting request |
| `CapabilitiesRuns.RunsRespectSlots` | src/com/android/bips/ipp/CapabilitiesCache.java:140-308 | in every run with reentrant callbacks, active queries stay within the limit, each request is queried at most twice (once if it began with high priority), and without broken off queries a request only waits while all slots are in use |
| `CapabilitiesRuns.BrokenOffCounted` | src/com/android/bips/ipp/CapabilitiesCache.java:193-207 | the queries counted as broken off are the active ones that a cancel ends, and no others |
| `CapabilitiesRuns.RunsStartForemost` | src/com/android/bips/ipp/CapabilitiesCache.java:209-239 | in every run a query is started only for a request that goes before all that are left waiting: while one with high priority waits none without is started, and none of the same priority has a shorter timeout |
| `CapabilitiesRuns.AnswersAreChecked` | src/com/android/bips/ipp/CapabilitiesCache.java:270-306 | an answer of the device asked for is delivered to all callbacks in either pass; a failed or wrong one in the second pass is delivered as none, and in the first pass puts the request back with the longer timeout and all its callbacks |
| `CapabilitiesRuns.StepKeepsTerms` | src/com/android/bips/ipp/CapabilitiesCache.java:140-203 | in every step a request keeps its device, rises to high priority exactly when asked for with it, changes its timeout only by an answer, takes new callbacks at the end, and loses by a cancel the first registration of that callback |
| `CapabilitiesRuns.RunsAccount` | src/com/android/bips/ipp/CapabilitiesCache.java:140-308 | in every run each registered callback is in exactly one place, so it fires at most once, and exactly once unless withdrawn when nothing is left to do |
| `CapabilitiesCancel.CancelEndsAllIff` | src/com/android/bips/ipp/CapabilitiesCache.java:191-207 | after a cancel no registration of the callback is left to be called if and only if no request had it twice and no delivery in progress still had it before it |
| `CapabilitiesCancel.CancelledStaysQuiet` | src/com/android/bips/ipp/CapabilitiesCache.java:140-308 | in every run, a callback cancelled under that condition is not called again unless it is registered again |
| `CapabilitiesCancel.CancelledDuringDelivery` | src/com/android/bips/ipp/CapabilitiesCache.java:273-306 | a run in which a callback is cancelled by the one before it in a delivery and called all the same |
| `CapabilitiesCancel.CancelLeavesDuplicate` | src/com/android/bips/ipp/CapabilitiesCache.java:194-207 | a run in which a callback registered twice for a printer still waits after it was cancelled |
| `CapabilitiesCancel.CancelStallsIff` | src/com/android/bips/ipp/CapabilitiesCache.java:194-207 | how many slots a cancel leaves free although something waits; when all were taken, none exactly when the callback was nowhere the only one of an active query, or nothing waits that has another callback |
| `CapabilitiesCancel.DeficitStep` | src/com/android/bips/ipp/CapabilitiesCache.java:140-308 | a new request takes one of these slots back; every other event but a cancel leaves their number, unless nothing waits any more |
| `CapabilitiesCancel.DeficitLasts` | src/com/android/bips/ipp/CapabilitiesCache.java:140-308 | in every run without further cancels they come back one by one with new requests only |
| `CapabilitiesCancel.CancelCanStall` | src/com/android/bips/ipp/CapabilitiesCache.java:194-207 | a run in which a request waits although nothing is active after a cancel |

## Left out

- Scaling: pictures enlarged along one axis and reduced along the other are covered by the set-up and the
  row window, not by the two-pass plane loops and their temporary buffer.
- ScalerPlane.DownSampleIsMean: says nothing about a sample whose weighted sum wraps, except over pixels of one
  value (`ScalerPlane.ConstantSampleIff`).
- Geometry: native scaling of documents, and `float` rounding of the aspect ratio, which is exact here.
- Stripes: pixels are units, so the order of bytes in a pixel is not modelled; the decoder of the picture
  format is a table of rows; of the branch for scaled pictures, the move of scaled rows to their
  place in the output stripe (jni/plugins/wprint_image.c:903-931) is not modelled.
- ScaledPage.JobFitsIff: rows of 65536 bytes or more, whose 16-bit pitch wraps around, are left out, and so are
  pictures enlarged along one axis only.
- ScaledImages.ScaledImage.LoadWindow: source rows come from a table of rows, without the cache of sideways
  pictures; a caller that goes back to an earlier stripe is left out.
- StripeDecoding.StripeDecoder.DecodeStripe: a picture row fits the minimum decoding memory of one megabyte; a
  request that starts below an upright picture cropped there and goes beyond the page, while the rotated picture
  reaches further down than the page, is not made: for it C copies the rows left there, down to the end of the
  picture.
- PCLm: one call of the model writes an object's text that the source writes in pieces; JPEG and deflate
  output are arbitrary strings; the capacity of the output buffer, landscape media, mirrored back sides with
  their reordered offsets, and shifting by the left margin are not modelled. The plugin never mirrors
  (jni/plugins/lib_pclm.c:173).
- PCLm: the reader knows the shapes of dictionary and of content that this writer uses, with their keys in its
  order; comments and the objects that draw a single strip (`PclmStreams.TransformReads`) are not part of what
  `PclmJob.PrintJob` says a reader finds.
- PclmWriter.PclmGenerator.StartPage: pages that are mirrored back sides, which are those with an even number, bound
  at the long edge, that ask for mirroring themselves or follow a page that does; `PclmJob.PrintJob` leaves out the
  same.
- PclmJob.PrintJob: a call after one with more than one strip of lines brings at least the lines that its strip
  still needs, and what is left over is never more than a strip; for other calls C copies a negative number of
  lines. The lines themselves, and the size of the memory for those left over, are not modelled.
- PclmWriter.PclmGenerator.EndJob: signed overflow of the file position is taken to wrap around.
- PCLm: the colour profile file is taken to be readable; without it the source leaves an object unfinished.
- PCLm: strip counts and the page height are exact where the source rounds a `float`.
- Run-length: the two bytes behind the input that the encoder looks at are part of the model's input.
- Delivery: failing threads and semaphores, and the content of the pages, are left out; `_print_page` may
  leave its loop at any point, which covers cancelling, corrupt files and the end of the page.
- MsgQueue.MsgQ.Receive: a receiver asks for no more bytes than stand from the message's slot to the end of the
  queue.
- MsgQueueThreads.QueueIsFifo: messages are values there; the bytes of a slot are modelled in `MsgQueue`.
- CopyReplay.JobThread.PrintCopies: for jobs that are not cancelled, have no failing page and are not sent as
  one PDF; pages are taken to be queued before they are printed, which a waiting receiver cannot tell apart.
- Jobs: everything else the job thread does (status monitoring, retries, the single-page path) is left out.
- JobTable.Table.GetHandle: running out of memory is a parameter, and the rest of a job's record is left out.
- Capabilities: the cache of answers with its eviction is left out (a cached answer is given at once and
  changes nothing else); a broken off query is taken never to answer, and a started one never before
  `startNextRequest` returns.
- Capabilities: requests are values in a map, where the source shares objects between the map and the
  queries.
- Blank pages: sizes are computed without the overflow of a 32-bit `int`, and the reader knows repeated
  pixels only.
- Android services, JNI glue, discovery, networking, IPP and attribute parsing, image and JPEG decoding:
  plumbing or foreign code.
