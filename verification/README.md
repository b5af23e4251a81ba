# Verified models of the app's algorithms and state machines

The repository is an iOS starter kit: mostly UIKit, SwiftUI and Firebase plumbing around a few pieces of real
algorithm and state. This project models those pieces in Dafny, branch for branch, and proves what they promise.

| file | what it models |
|---|---|
| `EditDistance.dfy` | the two-row Levenshtein loop and the similarity score |
| `HtmlEscape.dfy` | the chain of replacements that lets two font tags through |
| `MentionScanner.dfy`, `Characters.dfy` | the scanner that writes markup for mentioned users |
| `ChartPath.dfy`, `ChartCurve.dfy` | measuring a path up to an x, and the chart's quadratic curve |
| `LiquidLayout.dfy` | the masonry layout and its cache |
| `Shuffle.dfy` | the Fisher-Yates shuffle |
| `RestPagination.dfy` | the REST data source with the list that mirrors it |
| `FirebasePagination.dfy` | cursor pagination over a table sorted by key |
| `CalendarPicker.dfy` | the calendar grid and the selection of a range |
| `ConstraintAttributes.dfy`, `SnapConstraints.dfy` | SnapKit's attribute sets, pairing, registry, make, update, remake and remove |

Code that works by changing things is a method or a class here, proved against functions of the old state; what those
functions guarantee is proved as lemmas, over all inputs or all runs. `dafny verify dfyconfig.toml` checks everything.

## What the proofs found

Where the code does not do what one would claim for it, the code is modelled as it is, and the exact condition is proved.

- The five replacements of `htmlToAttributedString` equal a single pass if and only if the text holds neither sentinel;
  that only allowed tags come out is true of every text.
- The score of two strings that are both empty after normalising is 0/0, so it equals nothing, and such strings never
  match each other.
- The mention scanner crashes exactly if the text opens with a coloured run that names nobody while `@` and that run
  name somebody. It conserves the text without any condition on `>`: the character in front of a run, which may be
  drawn into it, is always a plain one, never the end of markup.
- `length(to:)` on the chart's curve never divides by zero. The curve is inside its frame exactly if every value lies
  within one spread of the offset. The spread is max + min, not max - min, if the lower bound is positive, and a lower
  bound given alone is the offset but not part of the spread, so values above it can leave the frame.
- A layout with items traps exactly if it is rebuilt with a cell wider than the content; without items it takes a content
  width of minus a cell's or less. `invalidateCache` keeps the content height, yet with
  stable heights the height is always exact after `prepare`; with changing ones it is too large exactly if one of the
  layouts made since the width or the number of items changed was taller.
- After one failed bottom request the REST data source never asks for another page, and after one failed top request
  pulling to refresh asks for nothing either. Its k-th bottom request asks for
  page k exactly if none was made before the first page arrived; such a one asks for page 0.
- The Firebase source traps on an empty table. Nothing keeps its loads from overlapping: rows are stored once exactly if
  the pages of the completed loads, given by the cursors they were issued with, begin at least ten rows apart. A cursor on
  a row that is no dictionary loses the first row of the next page, and a page without dictionaries ends the loading. A
  finished run holds every row exactly if a first load has completed.
- The calendar leaves out the month of its maximum exactly if the minimum's day, pinned to the length of that month, and
  time come after the maximum's.
- Updating constraints refines building them afresh if and only if no two of them are `==`. It is a fatal error exactly if
  the descriptions build one that is `==` to no existing one.

Conventions: `CGFloat` and `Double` are `real`; a trap or fatal error is a `None` or a false result, never a
precondition; the platform's lower-casing, random draws, rectangle intersection, Euclidean distance and responses are
arguments. The distance is only assumed to be non-negative with the right square. A ghost argument `world` holds all
constraints made so far and `items` all items they are for.

## Model

| member | source | states |
|---|---|---|
| `EditDistance.Distance` | Core/UIExtensions/String.swift:107-122 | the two-row loop returns the length of a shortest script of insertions, deletions and substitutions: one of that length exists, none is shorter |
| `EditDistance.DistIsShortestScriptLength` | Core/UIExtensions/String.swift:107-116 | the recurrence the loop fills in is that length, and the only number that is |
| `EditDistance.ShortestScript` | Core/UIExtensions/String.swift:113 | a script of exactly the computed length, as an actual list of edits |
| `EditDistance.NoScriptIsShorter` | Core/UIExtensions/String.swift:113 | every script that turns one text into the other is at least as long as the computed distance |
| `EditDistance.EqualLettersNeedNoMinimum` | Core/UIExtensions/String.swift:113 | on equal letters neither of the two skipped choices could be smaller, so taking `last[j]` without a minimum is right |
| `EditDistance.Triangle` | Core/UIExtensions/String.swift:107-116 | the distance by way of a third text is never smaller |
| `EditDistance.Metric` | Core/UIExtensions/String.swift:107-119 | symmetric, triangle inequality, zero on equal texts alone, between the length difference and the larger length |
| `EditDistance.ScoreMeaning` | Core/UIExtensions/String.swift:118-126 | the score is not a number for two empty texts, 1 exactly on equal non-empty ones, and otherwise within [0, 1] |
| `EditDistance.SimilarityExactly` | Core/UIExtensions/String.swift:118-122 | the score times the longer length is the longer length minus the distance |
| `EditDistance.NormalisedExactly` | Core/UIExtensions/String.swift:95-105 | what is compared is the lower-cased or the given string, less exactly the blanks at both its ends if trimming is asked for |
| `EditDistance.LevenshteinDistanceScore` | Core/UIExtensions/String.swift:93-126 | the same for the method with its lower-casing and trimming options |
| `HtmlEscape.EscapedIsOnePassExactly` | Core/UIExtensions/String.swift:53-57 | the five replacements do what a single pass does (keep the two font tags, turn every other `<` into `&lt;`) if and only if the text holds neither sentinel |
| `HtmlEscape.EscapedIsOnePass` | Core/UIExtensions/String.swift:53-57 | the direction that the feature needs, with the text tokenised and every pass followed token by token |
| `HtmlEscape.OnePassStep` | Core/UIExtensions/String.swift:53-57 | what the single pass does to the beginning of a text: either tag stays, any other `<` becomes `&lt;`, any other character stays |
| `HtmlEscape.EscapedHasOnlyAllowedTags` | Core/UIExtensions/String.swift:53-57 | for every text whatever, each `<` that comes out begins one of the two allowed tags |
| `HtmlEscape.EscapedHasNoSentinel` | Core/UIExtensions/String.swift:56-57 | no sentinel ever comes out |
| `HtmlEscape.OnePassKeepsSentinels` | Core/UIExtensions/String.swift:53-57 | the single pass keeps a sentinel of the text, which is why the other direction fails |
| `MentionScanner.FetchAttributedText` | Core/UIExtensions/String.swift:131-202 | stops exactly when some run reaches `removeLast` on nothing; otherwise the users in markup are, in order, exactly those the coloured runs name, each between the opening and the closing tag; the non-blank characters are conserved exactly if every chosen user occurs in its run, and the whole text exactly if each leads it |
| `MentionScanner.Flush` | Core/UIExtensions/String.swift:142-166 | what is written for one coloured run (the two copies of that code are the same) is the flush on pieces, with the user the run names in markup and no other, and it traps in the same cases |
| `MentionScanner.FlushNames` | Core/UIExtensions/String.swift:142-166 | one flush puts the user its run names into markup, and no other |
| `MentionScanner.ScanNames` | Core/UIExtensions/String.swift:136-199 | run by run, the users in markup are those the runs name |
| `MentionScanner.FirstMatchExactly` | Core/UIExtensions/String.swift:143-145 | the user a run names is the first in the list that equals it, apart from blanks around either, and nobody only if there is none |
| `MentionScanner.PlainHasNoRuns` | Core/UIExtensions/String.swift:169-197 | a text without colour has no runs |
| `MentionScanner.FirstRunIs` | Core/UIExtensions/String.swift:136-197 | the first run of a text is its first coloured stretch, whole, with the plain character in front of it, and the others are those of the rest |
| `MentionScanner.FindFirstMatch` | Core/UIExtensions/String.swift:143-145 | the first user whose score with the run is 1 |
| `MentionScanner.ScanKeeps` | Core/UIExtensions/String.swift:136-199 | run by run, by induction over the text: trapping, conserving characters and conserving the text each hold for the text exactly if they hold for every run |
| `MentionScanner.FlushKeeps` | Core/UIExtensions/String.swift:170-194 | one flush: either the text grows by a user that does not occur, or non-blank characters are kept, and all of it is kept exactly if the user leads |
| `MentionScanner.OnlyTheOpeningRunTraps` | Core/UIExtensions/String.swift:152-159 | the crash, exactly: the text opens with a coloured run that names nobody, and `@` followed by it names somebody |
| `MentionScanner.TrimmedUsersKeepCharacters` | Core/UIExtensions/String.swift:131-202 | with trimmed users every chosen user occurs, so no non-blank character is lost, moved or doubled |
| `MentionScanner.TrimmedUsersKeepText` | Core/UIExtensions/String.swift:131-202 | if moreover no coloured run begins with a blank, every chosen user leads, so the text is kept whole |
| `MentionScanner.UntrimmedUserIsWrittenTwice` | Core/UIExtensions/String.swift:147-149 | a concrete user with a trailing blank that is written besides the run it names |
| `MentionScanner.OpeningRunAfterAt` | Core/UIExtensions/String.swift:157-159 | a concrete text that reaches `removeLast` on the empty string |
| `MentionScanner.DrawnInIsNotBlank` | Core/UIExtensions/String.swift:179-189 | the character that is drawn into a run is never a blank |
| `ChartPath.QuadCurve` | Core/UIExtensions/SwiftUIExtensions/Path+ATCAdditions.swift:206-217 | the loop of a hundred steps adds up the chords of the arc |
| `ChartPath.QuadCurveTo` | Core/UIExtensions/SwiftUIExtensions/Path+ATCAdditions.swift:219-240 | on an arc that runs rightward, as every arc of the curve does, it adds up exactly what lies to the left of x, chord by chord, with its three early exits |
| `ChartPath.Length` | Core/UIExtensions/SwiftUIExtensions/Path+ATCAdditions.swift:33-63 | the length is the total over all chords of all elements |
| `ChartPath.LineCounts` | Core/UIExtensions/SwiftUIExtensions/Path+ATCAdditions.swift:45-47 | a line counts for its length |
| `ChartPath.ArcIsMeasured` | Core/UIExtensions/SwiftUIExtensions/Path+ATCAdditions.swift:206-217 | an arc is measured along a hundred chords, end to end, from the pen through the points of the Bezier curve to its end |
| `ChartPath.ElementLengthTo` | Core/UIExtensions/SwiftUIExtensions/Path+ATCAdditions.swift:85-100 | a line or an arc that runs rightward adds exactly its part to the left of the limit |
| `ChartPath.LengthTo` | Core/UIExtensions/SwiftUIExtensions/Path+ATCAdditions.swift:65-114 | on a path running rightward, with its finished flag, it is exactly the length of what lies to the left of the limit, and no division by zero is reached |
| `ChartPath.PartialChord` | Core/UIExtensions/SwiftUIExtensions/Path+ATCAdditions.swift:192-204 | the distance to the interpolated point is the share of the chord's length that the share of its width is |
| `ChartPath.TotalLeftOfRange` | Core/UIExtensions/SwiftUIExtensions/Path+ATCAdditions.swift:65-114 | that length lies between nothing and the whole and never shrinks as the limit grows |
| `ChartPath.LinearX` | Core/UIExtensions/SwiftUIExtensions/Path+ATCAdditions.swift:289-296 | with the control point halfway in x, x is linear in the parameter |
| `ChartPath.SamplesAscend` | Core/UIExtensions/SwiftUIExtensions/Path+ATCAdditions.swift:208-213 | so the hundred sample points ascend strictly in x, within the arc's ends |
| `ChartPath.ForwardIsRightward` | Core/UIExtensions/SwiftUIExtensions/Path+ATCAdditions.swift:65-114 | every chord of a rightward path has a positive width, and no chord begins before an earlier one ended |
| `ChartCurve.QuadCurvedPathWithPoints` | Core/UIExtensions/SwiftUIExtensions/Path+ATCAdditions.swift:116-133 | the path is empty for fewer than two values, else it moves to the first data point and then departs and arrives by two arcs per interval |
| `ChartCurve.ControlIsLevel` | Core/UIExtensions/SwiftUIExtensions/Path+ATCAdditions.swift:319-333 | the three branches of the control point agree: halfway in x, level with the second point |
| `ChartCurve.EasesBetween` | Core/UIExtensions/SwiftUIExtensions/Path+ATCAdditions.swift:116-133 | between two data points x runs evenly and y follows one easing function of the share of the way |
| `ChartCurve.EaseGrows` | Core/UIExtensions/SwiftUIExtensions/Path+ATCAdditions.swift:289-296 | the easing never decreases and stays within [0, 1], so y is monotone between neighbours |
| `ChartCurve.TangentIsDerivative` | Core/UIExtensions/SwiftUIExtensions/Path+ATCAdditions.swift:289-296 | the tangent used below is the derivative of the Bezier value: the remainder is a multiple of the squared step |
| `ChartCurve.SmoothEverywhere` | Core/UIExtensions/SwiftUIExtensions/Path+ATCAdditions.swift:125-131 | consecutive arcs, in the middles and at the data points, meet with equal tangents, level at the data points |
| `ChartCurve.PenAtData` | Core/UIExtensions/SwiftUIExtensions/Path+ATCAdditions.swift:124-130 | the curve passes through every data point, and the easing formula agrees with it at both ends |
| `ChartCurve.CurveIsForward` | Core/UIExtensions/SwiftUIExtensions/Path+ATCAdditions.swift:116-133 | with ascending data the path runs rightward, as measuring it needs |
| `ChartCurve.PositiveStepAscends` | Core/UIExtensions/SwiftUIExtensions/Path+ATCAdditions.swift:123-126 | with any positive x step the data points ascend, evenly spaced |
| `ChartCurve.LengthGrowsAlongCurve` | Core/UIExtensions/SwiftUIExtensions/Path+ATCAdditions.swift:65-114 | on the curve the measured length is between 0 and the length, never decreases, is 0 up to the first and all of it from the last data point on |
| `ChartCurve.PercentOfCurve` | Core/UIExtensions/SwiftUIExtensions/Path+ATCAdditions.swift:24-31 | the total length is positive, so the quotient of the two lengths is defined and within [0, 1] |
| `ChartCurve.InsideBetweenExactly` | Core/UIExtensions/SwiftUIExtensions/Path+ATCAdditions.swift:116-133 | between two neighbours the curve leaves the frame nowhere if and only if both are inside |
| `ChartCurve.CurveInsideExactly` | Core/UIExtensions/SwiftUIExtensions/Path+ATCAdditions.swift:116-133 | the whole curve lies inside a frame if and only if every data point does |
| `ChartCurve.Path` | Core/ReusableSwiftUI/ATCLineChartView/ATCLineChartLineProgress.swift:23-50 | the chart's path is the curve through the values scaled by its step width and height |
| `ChartCurve.ChartFillsFrame` | Core/ReusableSwiftUI/ATCLineChartView/ATCLineChartLineProgress.swift:23-50 | the chart begins at x = 0 and ends at the frame's width; a value at the offset is drawn at 0, one a spread away from it at the frame's height minus 30, and a flat chart at 0 |
| `ChartCurve.ChartInsideExactly` | Core/ReusableSwiftUI/ATCLineChartView/ATCLineChartLineProgress.swift:29-50 | the exact condition, for all values, frames and bounds but those with min > 0 and max = -min: the curve lies inside width by height minus padding if and only if the frame is not negative and, unless the curve is flat, every value lies between the offset and one spread away from it; the offset is the lower bound even when given alone, the spread is of both bounds or else of the values |
| `ChartCurve.StepHeightUndefinedExactly` | Core/ReusableSwiftUI/ATCLineChartView/ATCLineChartLineProgress.swift:29-45 | the scale is a division by zero exactly if both bounds are given, the lower one is positive and the upper one is its negative |
| `ChartCurve.ChartInside` | Core/ReusableSwiftUI/ATCLineChartView/ATCLineChartLineProgress.swift:29-50 | without a lower bound the curve always lies inside, whatever the upper one |
| `ChartCurve.ExplicitBoundsInsideExactly` | Core/ReusableSwiftUI/ATCLineChartView/ATCLineChartLineProgress.swift:33-43 | with both bounds, in either order, it lies inside a frame, if it is not flat, exactly if every value is between the lower bound and one spread away from it, the spread being max - min, or max + min when the lower bound is positive |
| `ChartCurve.LowerBoundAloneInsideExactly` | Core/ReusableSwiftUI/ATCLineChartView/ATCLineChartLineProgress.swift:33-49 | with a lower bound alone it lies inside a frame, if it is not flat, exactly if every value is at least that and at most the spread of the values above it |
| `ChartCurve.LowerBoundAloneLeavesFrame` | Core/ReusableSwiftUI/ATCLineChartView/ATCLineChartLineProgress.swift:33-49 | two values above a lower bound given alone, whose curve leaves the frame |
| `ChartCurve.ChartAscends` | Core/ReusableSwiftUI/ATCLineChartView/ATCLineChartLineProgress.swift:23-28 | in a frame of positive width the data points ascend by the step width |
| `LiquidLayout.Layout.constructor` | Core/ViewControllers/Layouts/ATCLiquidCollectionViewLayout.swift:18-35 | a new layout is the initial state of the runs below |
| `LiquidLayout.Layout.XOffsets` | Core/ViewControllers/Layouts/ATCLiquidCollectionViewLayout.swift:63-66 | the x of every column |
| `LiquidLayout.Layout.FillCache` | Core/ViewControllers/Layouts/ATCLiquidCollectionViewLayout.swift:67-91 | the loop that deals the items out leaves the fresh frames, and the larger of the old height and the fresh one |
| `LiquidLayout.Layout.Prepare` | Core/ViewControllers/Layouts/ATCLiquidCollectionViewLayout.swift:45-93 | the whole new state as a function of the old one and the request, or the trap |
| `LiquidLayout.Layout.InvalidateCache` | Core/ViewControllers/Layouts/ATCLiquidCollectionViewLayout.swift:117-119 | drops the frames and nothing else |
| `LiquidLayout.Layout.LayoutAttributesForElements` | Core/ViewControllers/Layouts/ATCLiquidCollectionViewLayout.swift:95-104 | exactly the cached frames that intersect, each once, in item order |
| `LiquidLayout.ItemsAfterStableRun` | Core/ViewControllers/Layouts/ATCLiquidCollectionViewLayout.swift:110-119 | after any run with stable heights and a `prepare`, asking for an item's attributes gives its fresh frame, and nil beyond the items; after an invalidation it gives nil for all |
| `LiquidLayout.FreshFramesApart` | Core/ViewControllers/Layouts/ATCLiquidCollectionViewLayout.swift:61-91 | no two frames of a layout overlap, whatever the heights |
| `LiquidLayout.FreshFramesInside` | Core/ViewControllers/Layouts/ATCLiquidCollectionViewLayout.swift:51-83 | every frame lies within content width and content height |
| `LiquidLayout.LowestEdgeReached` | Core/ViewControllers/Layouts/ATCLiquidCollectionViewLayout.swift:83 | the content height is not more than needed: some item's lower edge, or zero |
| `LiquidLayout.RoomForColumns` | Core/ViewControllers/Layouts/ATCLiquidCollectionViewLayout.swift:50-52 | with 0 < cell width <= content width there is a column, the gap is not negative, and columns and gaps fill the width exactly |
| `LiquidLayout.ColumnsExactly` | Core/ViewControllers/Layouts/ATCLiquidCollectionViewLayout.swift:50 | there are as many columns as fit into the content, and one if the cell width is not positive |
| `LiquidLayout.ColumnsEven` | Core/ViewControllers/Layouts/ATCLiquidCollectionViewLayout.swift:51-66 | the columns stand evenly: one gap from the left edge, one between any two, one to the right edge |
| `LiquidLayout.StackedExactly` | Core/ViewControllers/Layouts/ATCLiquidCollectionViewLayout.swift:74-90 | an item has the cell's width and its own height; the first of a column stands one padding below the top, the item one column count later in the same column two paddings below the one before |
| `LiquidLayout.ContentHeightExactly` | Core/ViewControllers/Layouts/ATCLiquidCollectionViewLayout.swift:83 | the content ends one padding below the lowest frame, and is 0 without items |
| `LiquidLayout.TrapsExactly` | Core/ViewControllers/Layouts/ATCLiquidCollectionViewLayout.swift:50-76 | for every input: traps exactly if it rebuilds with a positive cell width and the cell is wider than the content or, without items, the content's width is at most minus the cell's (then the range of columns is negative) |
| `LiquidLayout.StableRunIsExact` | Core/ViewControllers/Layouts/ATCLiquidCollectionViewLayout.swift:55-93 | every run of prepare and invalidate with stable heights keeps cache and content height those of the last request's fresh layout |
| `LiquidLayout.StableRunAgreesWithFreshLayout` | Core/ViewControllers/Layouts/ATCLiquidCollectionViewLayout.swift:55-93 | so after any such run and a `prepare`, the cached frames and the content height equal the fresh ones |
| `LiquidLayout.ChangedHeightsExactly` | Core/ViewControllers/Layouts/ATCLiquidCollectionViewLayout.swift:55-93 | in every run, whatever the heights: the frames are those of the last request laid out, and the content height is the greatest of all requests laid out since the width or the number of items changed, so it is exact for the frames if and only if none of those was taller |
| `LiquidLayout.EveryRunFollows` | Core/ViewControllers/Layouts/ATCLiquidCollectionViewLayout.swift:45-119 | which requests were laid out follows from the events alone: those with a new width or number of items, and those after an invalidation; every event keeps cache and height in step with them |
| `LiquidLayout.ShrunkContentStaysTall` | Core/ViewControllers/Layouts/ATCLiquidCollectionViewLayout.swift:117-119 | a concrete run that keeps a height of 2 for content of height 1 |
| `Shuffle.SwapAt` | Core/ViewControllers/ATCGenericSearchViewController.swift:149 | two elements change places, the others stay |
| `Shuffle.ShuffleInPlace` | Core/ViewControllers/ATCGenericSearchViewController.swift:141-151 | the array becomes the shuffle function of its old contents and the draws |
| `Shuffle.ShuffledCopy` | Core/ViewControllers/ATCGenericSearchViewController.swift:156-160 | the copy is shuffled |
| `Shuffle.ShuffledIsPermutation` | Core/ViewControllers/ATCGenericSearchViewController.swift:141-151 | whatever is drawn, every element comes out as often as it went in |
| `Shuffle.DrawsAreDetermined` | Core/ViewControllers/ATCGenericSearchViewController.swift:145-149 | with distinct elements different draws give different results |
| `Shuffle.DrawsFor` | Core/ViewControllers/ATCGenericSearchViewController.swift:145-149 | for every permutation, draws that give it |
| `Shuffle.ShufflesAreThePermutations` | Core/ViewControllers/ATCGenericSearchViewController.swift:141-151 | the possible results are exactly the permutations |
| `Shuffle.FirstDrawn` | Core/ViewControllers/ATCGenericSearchViewController.swift:145-149 | the first draw is the index of the element that comes first; the element that was first takes its place, and the rest is shuffled by the later draws |
| `Shuffle.OneToOneExactly` | Core/ViewControllers/ATCGenericSearchViewController.swift:145-149 | draws and permutations correspond one to one if and only if no element occurs twice; so uniform draws give every permutation once |
| `RestPagination.RestAPIDataSource.constructor` | Core/Helpers/ATCGenericRestAPIDataSource.swift:21-29 | a new data source is the initial state of the runs below |
| `RestPagination.RestAPIDataSource.FindStreamObject` | Core/Helpers/ATCGenericRestAPIDataSource.swift:31-33 | whether an object described alike is stored |
| `RestPagination.RestAPIDataSource.AppendNew` | Core/Helpers/ATCGenericRestAPIDataSource.swift:53-59 | the appended suffix is what is reported, and the store is the fold over the response |
| `RestPagination.RestAPIDataSource.LoadFirst` | Core/Helpers/ATCGenericRestAPIDataSource.swift:48-49 | one step of the machine |
| `RestPagination.RestAPIDataSource.FirstCompleted` | Core/Helpers/ATCGenericRestAPIDataSource.swift:50-66 | one step of the machine, with the rows reloaded |
| `RestPagination.RestAPIDataSource.LoadBottom` | Core/Helpers/ATCGenericRestAPIDataSource.swift:70-75 | one step of the machine, with its two guards |
| `RestPagination.RestAPIDataSource.WillDisplay` | Core/ViewControllers/ATCGenericCollectionViewController.swift:293-297 | asks for more exactly when the last row comes on screen |
| `RestPagination.RestAPIDataSource.BottomCompleted` | Core/Helpers/ATCGenericRestAPIDataSource.swift:76-94 | one step of the machine, with the rows inserted; false only if the collection view would reject the insertion |
| `RestPagination.RestAPIDataSource.LoadTop` | Core/Helpers/ATCGenericRestAPIDataSource.swift:97-102 | one step of the machine, with its guard |
| `RestPagination.RestAPIDataSource.TopCompleted` | Core/Helpers/ATCGenericRestAPIDataSource.swift:103-117 | one step of the machine, with the rows reloaded |
| `RestPagination.ListController.DidLoadFirstOrTop` | Core/ViewControllers/ATCGenericCollectionViewController.swift:180-198 | the rows shown become the store, whatever was reported |
| `RestPagination.ListController.DidLoadBottom` | Core/ViewControllers/ATCGenericCollectionViewController.swift:184-191 | accepted exactly if old rows plus inserted rows are the new count; then the inserted rows are shown behind the others |
| `RestPagination.FirstOccurrencesMeaning` | Core/Helpers/ATCGenericRestAPIDataSource.swift:31-33 | deduplication loses no description and leaves none twice |
| `RestPagination.StepKeepsInvariant` | Core/Helpers/ATCGenericRestAPIDataSource.swift:48-118 | every enabled step succeeds and keeps the invariant of all runs |
| `RestPagination.EveryRun` | Core/Helpers/ATCGenericRestAPIDataSource.swift:48-118 | in every interleaving of requests and responses: the store is the first occurrences of all successful responses in completion order, the rows shown are the store, no insertion is rejected, and at most one bottom and one top request are in flight |
| `RestPagination.ReportedResults` | Core/Helpers/ATCGenericRestAPIDataSource.swift:53-63 | what a successful response reports to the delegate is exactly the suffix by which the store grew, the store being the first occurrences of all that was received; nothing else is reported or stored |
| `RestPagination.ReportsMakeTheStore` | Core/Helpers/ATCGenericRestAPIDataSource.swift:53-113 | in every interleaving, the reported lists joined are the store |
| `RestPagination.BottomRequestExactly` | Core/Helpers/ATCGenericRestAPIDataSource.swift:70-74 | `loadBottom` asks for nothing exactly if one is in flight, one has failed, or the stream has ended |
| `RestPagination.LastRowAsks` | Core/ViewControllers/ATCGenericCollectionViewController.swift:293-297 | with nothing in flight, failed or ended, a row that comes on screen asks for the next page if it is the last one or beyond, and changes nothing otherwise |
| `RestPagination.StreamEndsExactly` | Core/Helpers/ATCGenericRestAPIDataSource.swift:60-88 | in every run the stream has ended exactly if some first or bottom response was an empty list or none |
| `RestPagination.InFlightExactly` | Core/Helpers/ATCGenericRestAPIDataSource.swift:48-94 | in every run the first and bottom requests in flight are those asked for less those answered |
| `RestPagination.TopRequestExactly` | Core/Helpers/ATCGenericRestAPIDataSource.swift:97-115 | `loadTop` asks for nothing exactly if one is in flight or one has failed |
| `RestPagination.NoMorePages` | Core/Helpers/ATCGenericRestAPIDataSource.swift:86-92 | after the end of the stream, or after one failed bottom request, no page is ever asked for again, in any continuation |
| `RestPagination.FailedBottomIsFinal` | Core/Helpers/ATCGenericRestAPIDataSource.swift:91-92 | such a run: whatever the first page holds, when the request for the next fails, calling again asks for nothing, though the stream has not ended |
| `RestPagination.PageNumbers` | Core/Helpers/ATCGenericRestAPIDataSource.swift:52-78 | if no bottom request was made before a first page arrived, and no other first page arrives after it, the k-th bottom request asks for page k |
| `RestPagination.PageNumbersExactly` | Core/Helpers/ATCGenericRestAPIDataSource.swift:52-78 | the exact condition: with a single completed first load, the k-th bottom request asks for page k, for every k, if and only if none was made before that load completed |
| `RestPagination.FirstAskedForIsZero` | Core/Helpers/ATCGenericRestAPIDataSource.swift:75-78 | in every run without a first page, the first bottom request asks for page 0 |
| `RestPagination.EarlyBottomAsksForPageZero` | Core/Helpers/ATCGenericRestAPIDataSource.swift:75 | a bottom request before that asks for page 0 |
| `FirebasePagination.FirebaseDataSource.LoadFirst` | Core/Helpers/ATCGenericFirebaseDataSource.swift:34-37 | one step of the machine |
| `FirebasePagination.FirebaseDataSource.FirstCompleted` | Core/Helpers/ATCGenericFirebaseDataSource.swift:38-45 | one step of the machine |
| `FirebasePagination.FirebaseDataSource.LoadBottom` | Core/Helpers/ATCGenericFirebaseDataSource.swift:48-55 | one step of the machine: a query in flight with the cursor of this moment |
| `FirebasePagination.QueriesExactly` | Core/Helpers/ATCGenericFirebaseDataSource.swift:48-59 | loading page after page, the next call queries exactly if fewer than ceil(n/10) bottom loads were made |
| `FirebasePagination.FirebaseDataSource.BottomCompleted` | Core/Helpers/ATCGenericFirebaseDataSource.swift:56-64 | one step of the machine; false exactly if `removeFirst` meets no row |
| `FirebasePagination.BottomLoadExactly` | Core/Helpers/ATCGenericFirebaseDataSource.swift:52-60 | on any sorted table, in any state, from any cursor: traps exactly if nothing in the window is a dictionary, finishes exactly if one row of it is, appends exactly the dictionaries behind the cursor if and only if the cursor's own row is one, and loses the first of them otherwise |
| `FirebasePagination.FinishedExactly` | Core/Helpers/ATCGenericFirebaseDataSource.swift:34-66 | on any sorted table, bottom load number k traps, finishes or goes on by the number of dictionaries in its window (none, one, more); the store is then all dictionaries of the table if and only if the cursor always stood on a dictionary and none is left behind the window |
| `FirebasePagination.AnyTable` | Core/Helpers/ATCGenericFirebaseDataSource.swift:34-66 | as long as loads go on, the store lacks none of the dictionaries up to the cursor if and only if the cursor always stood on a dictionary |
| `FirebasePagination.FinishedStays` | Core/Helpers/ATCGenericFirebaseDataSource.swift:48-51 | once finished, page-after-page loading changes nothing |
| `FirebasePagination.TwentyIsNeverLoaded` | Core/Helpers/ATCGenericFirebaseDataSource.swift:52-60 | a table of 21 rows with a page of rows that are no dictionaries: it finishes there, and the last row is never stored |
| `FirebasePagination.LostBehindTheFirstPage` | Core/Helpers/ATCGenericFirebaseDataSource.swift:39-60 | so on every table whose tenth row is no dictionary the first bottom load traps or loses the first dictionary behind it |
| `FirebasePagination.TenIsLost` | Core/Helpers/ATCGenericFirebaseDataSource.swift:39-60 | such a table, of twelve rows |
| `FirebasePagination.PagesAreCompleteAndExact` | Core/Helpers/ATCGenericFirebaseDataSource.swift:34-66 | on a non-empty sorted table of dictionaries, after one first and k bottom loads the store is the first min(n, 10(k+1)) rows, and finished is set from load ceil(n/10) on and not before |
| `FirebasePagination.AllPages` | Core/Helpers/ATCGenericFirebaseDataSource.swift:34-66 | no row is ever stored twice, and once finished the store is the whole table |
| `FirebasePagination.OverlappingLoadsExactly` | Core/Helpers/ATCGenericFirebaseDataSource.swift:34-66 | in every interleaving of calls and answers, answered in any order, on a non-empty sorted table of dictionaries: nothing traps, the store is the pages of the completed loads, each behind the cursor it was issued with, and each row is stored at most once if and only if any two of these pages begin at least ten rows apart or past the end |
| `FirebasePagination.EveryRun` | Core/Helpers/ATCGenericFirebaseDataSource.swift:34-66 | no run traps, and every step keeps the store equal to those pages and all cursors on rows |
| `FirebasePagination.StoredExactly` | Core/Helpers/ATCGenericFirebaseDataSource.swift:34-66 | in every interleaving a row is stored exactly if some completed load covers it |
| `FirebasePagination.FinishedRunHoldsAllExactly` | Core/Helpers/ATCGenericFirebaseDataSource.swift:48-63 | in every interleaving the finished flag is set exactly if the last bottom load to complete began past the end, and a run that has finished holds every row if and only if a first load has completed |
| `FirebasePagination.FinishedAndEmpty` | Core/Helpers/ATCGenericFirebaseDataSource.swift:48-60 | a run on one row that finishes with nothing stored |
| `FirebasePagination.InTurnIsARun` | Core/Helpers/ATCGenericFirebaseDataSource.swift:34-66 | loading page after page is one of these interleavings, with the same store, cursor and flag |
| `FirebasePagination.EarlyBottomStoresTwice` | Core/Helpers/ATCGenericFirebaseDataSource.swift:48-58 | such a run: a bottom load issued before the answer to the first load stores a row twice |
| `FirebasePagination.EmptyTableTraps` | Core/Helpers/ATCGenericFirebaseDataSource.swift:58 | on an empty table the first bottom load traps |
| `CalendarPicker.DayNumberCounts` | Core/ThirdParty/CalendarDateRangePickerViewController/CalendarDateRangePickerViewController.swift:229-235 | the calendar arithmetic that stands in for the platform's counts days one by one from a fixed day |
| `CalendarPicker.DayOrder` | Core/ThirdParty/CalendarDateRangePickerViewController/CalendarDateRangePickerViewController.swift:243-249 | comparing days is comparing day numbers |
| `CalendarPicker.KnownDays` | Core/ThirdParty/CalendarDateRangePickerViewController/CalendarDateRangePickerViewController.swift:229-231 | 1 January was a Sunday in 2023, a Thursday in 1970 and a Saturday in 2000 |
| `CalendarPicker.MonthsBetweenIsGreatest` | Core/ThirdParty/CalendarDateRangePickerViewController/CalendarDateRangePickerViewController.swift:78-81 | the month difference is the greatest number of months that does not pass the later moment |
| `CalendarPicker.DateUnderHeader` | Core/ThirdParty/CalendarDateRangePickerViewController/CalendarDateRangePickerViewController.swift:83-104 | a date's item index mod 7 is its weekday minus 1, under the header of that weekday, in its own month's section |
| `CalendarPicker.DaysInOrder` | Core/ThirdParty/CalendarDateRangePickerViewController/CalendarDateRangePickerViewController.swift:83-104 | a section is seven headers from Sunday to Saturday, blanks, and the days of the month in order |
| `CalendarPicker.DatesShownOnce` | Core/ThirdParty/CalendarDateRangePickerViewController/CalendarDateRangePickerViewController.swift:83-104 | no two cells show the same date |
| `CalendarPicker.DatesShownExactly` | Core/ThirdParty/CalendarDateRangePickerViewController/CalendarDateRangePickerViewController.swift:83-104 | every day of the displayed months is shown, and no other day |
| `CalendarPicker.MaximumMonthDisplayedExactly` | Core/ThirdParty/CalendarDateRangePickerViewController/CalendarDateRangePickerViewController.swift:78-81 | the month of the maximum is displayed if and only if the minimum's day, pinned to the length of that month, and time are not after the maximum's |
| `CalendarPicker.FebruaryIsLeftOut` | Core/ThirdParty/CalendarDateRangePickerViewController/CalendarDateRangePickerViewController.swift:78-81 | from 15 January to 10 February only January is displayed; from 31 January to 28 February both months are |
| `CalendarPicker.Picker.DidSelectItem` | Core/ThirdParty/CalendarDateRangePickerViewController/CalendarDateRangePickerViewController.swift:148-171 | the new selection as a function of the old one and the tapped cell |
| `CalendarPicker.TapsExactly` | Core/ThirdParty/CalendarDateRangePickerViewController/CalendarDateRangePickerViewController.swift:148-171 | headers, blanks and days before the minimum change nothing; the first tap, and a tap after a full range, starts a new range; a second tap ends the range if it is later and starts anew otherwise |
| `CalendarPicker.EveryRunOfTaps` | Core/ThirdParty/CalendarDateRangePickerViewController/CalendarDateRangePickerViewController.swift:148-171 | after every run of taps an end is strictly after its start, and nothing selected is before the minimum |
| `ConstraintAttributes.LayoutAttributesExactly` | Core/ThirdParty/SnapKit/ConstraintAttributes.swift:111-178 | decoding lists every attribute whose bit is set, each once, and no other |
| `ConstraintAttributes.MaskDecodesToItself` | Core/ThirdParty/SnapKit/ConstraintAttributes.swift:59-97 | the set of one attribute decodes to that attribute alone |
| `ConstraintAttributes.UnionExactly` | Core/ThirdParty/SnapKit/ConstraintAttributes.swift:181-187 | a union decodes to the attributes of both sets |
| `ConstraintAttributes.DecodingIsInjective` | Core/ThirdParty/SnapKit/ConstraintAttributes.swift:111-195 | on the known bits two sets decode alike only if they are equal |
| `ConstraintAttributes.NothingDecodesToNothing` | Core/ThirdParty/SnapKit/ConstraintAttributes.swift:59 | the empty set has no attributes |
| `ConstraintAttributes.EdgesExactly` | Core/ThirdParty/SnapKit/ConstraintAttributes.swift:101 | the edges are the four sides |
| `ConstraintAttributes.MarginsExactly` | Core/ThirdParty/SnapKit/ConstraintAttributes.swift:106 | the margins are the four margins |
| `ConstraintAttributes.PairingNeverFails` | Core/ThirdParty/SnapKit/Constraint.swift:101-149 | for every pair of sets, pairing an attribute of the source set reaches no fatal error and never gives `notAnAttribute` |
| `ConstraintAttributes.EdgesPairWithTheirMargins` | Core/ThirdParty/SnapKit/Constraint.swift:106-131 | each edge is paired with its own margin, and pairing back gives the edge again |
| `ConstraintAttributes.EdgesAndMarginsByName` | Core/ThirdParty/SnapKit/Constraint.swift:106-131 | by name: left with left margin, top with top margin, right with right margin, bottom with bottom margin, and back |
| `ConstraintAttributes.PairedWithNothing` | Core/ThirdParty/SnapKit/Constraint.swift:137-143 | without attributes on the other side an attribute is paired with itself, but a center without target with left or top |
| `ConstraintAttributes.PairedExactly` | Core/ThirdParty/SnapKit/Constraint.swift:104-136 | behind the guard: the same attribute for the same set, edge and margin for each other, and else the only one there is |
| `ConstraintAttributes.RelatableExactly` | Core/ThirdParty/SnapKit/ConstraintMakerRelatable.swift:44-50 | the guard accepts exactly no attribute or one, the same attributes, or edges and margins |
| `ConstraintAttributes.FirstTakenOnlyWhenAlone` | Core/ThirdParty/SnapKit/Constraint.swift:132-136 | behind the guard, `layoutToAttributes[0]` is taken only if the target has exactly one attribute |
| `SnapConstraints.ConstraintDescription.RelatedTo` | Core/ThirdParty/SnapKit/ConstraintMakerRelatable.swift:39-73 | false exactly if the guard fails, and then nothing changes; otherwise exactly four fields are set, and the description is one that building never fails on |
| `SnapConstraints.SpecsExactly` | Core/ThirdParty/SnapKit/Constraint.swift:101-190 | building gives exactly one layout constraint for each attribute in the set, no two of them `==` |
| `SnapConstraints.SecondItemExactly` | Core/ThirdParty/SnapKit/Constraint.swift:155-163 | a layout constraint relates to the target; without one, to nothing for width and height, and to the superview for every other attribute |
| `SnapConstraints.SecondAttributeExactly` | Core/ThirdParty/SnapKit/Constraint.swift:101-180 | and to which attribute of it, for every description that can be related: none if the platform drops it for want of a second item, left or top for a center without target, the same attribute, its edge or margin, or the only one named |
| `SnapConstraints.SpecsTell` | Core/ThirdParty/SnapKit/Constraint.swift:165-183 | it keeps the item, the relation, the multiplier and the priority of the description |
| `SnapConstraints.BuiltExactly` | Core/ThirdParty/SnapKit/ConstraintMaker.swift:160-171 | what a list of descriptions builds is what each complete one asks for, and nothing else |
| `SnapConstraints.SizeExactly` | Core/ThirdParty/SnapKit/ConstraintConstantTarget.swift:66-74 | a size counts for width and height alone |
| `SnapConstraints.PointExactly` | Core/ThirdParty/SnapKit/ConstraintConstantTarget.swift:76-85 | a point gives its x to what lies sideways, its y to what lies up or down, and nothing to width and height |
| `SnapConstraints.InsetsExactly` | Core/ThirdParty/SnapKit/ConstraintConstantTarget.swift:100-118 | insets move left and top, and their margins, by the inset, right and bottom by minus it; width and height shrink by as much as the edges move |
| `SnapConstraints.InsetsMirrored` | Core/ThirdParty/SnapKit/ConstraintConstantTarget.swift:111-114 | leading and trailing are left and right, or mirrored from right to left |
| `SnapConstraints.PriorityExactly` | Core/ThirdParty/SnapKit/Constraint.swift:262-265 | a required priority stays, none becomes required, and every other change takes effect |
| `SnapConstraints.UpdateChoosesTheSameConstant` | Core/ThirdParty/SnapKit/Constraint.swift:287-288 | updating chooses the constant that building chose, for every attribute and every kind of constant, even if the second attribute was dropped for want of a second item |
| `SnapConstraints.UpdatedExactly` | Core/ThirdParty/SnapKit/Constraint.swift:280-285 | the fatal error of an update, exactly, with or without equal constraints: some new layout constraint is `==` to no existing one |
| `SnapConstraints.OtherPriorityIsFatal` | Core/ThirdParty/SnapKit/Constraint.swift:280-285 | such an update: any description, given again with another priority |
| `SnapConstraints.TwiceDescribed` | Core/ThirdParty/SnapKit/ConstraintMaker.swift:160-171 | a description given twice, with whatever constants, builds layout constraints that are `==` |
| `SnapConstraints.UpdatedByKey` | Core/ThirdParty/SnapKit/LayoutConstraint.swift:46-57 | with no two equal, each existing layout constraint gets the constant of its counterpart, those without one keep theirs, and there is no fatal error |
| `SnapConstraints.ShadowedIsNotUpdated` | Core/ThirdParty/SnapKit/Constraint.swift:281 | an existing layout constraint behind an equal one is never updated |
| `SnapConstraints.UpdateIsExactlyFresh` | Core/ThirdParty/SnapKit/Constraint.swift:275-289 | the exact condition: whatever the constants, updating leaves what building afresh gives if and only if no two are `==` |
| `SnapConstraints.SameShapeSameKeys` | Core/ThirdParty/SnapKit/LayoutConstraint.swift:46-57 | descriptions that differ in constants alone build layout constraints that are `==` one by one |
| `SnapConstraints.LayoutItem.AllObjects` | Core/ThirdParty/SnapKit/LayoutConstraintItem.swift:61-63 | every registered constraint, once |
| `SnapConstraints.FirstEqual` | Core/ThirdParty/SnapKit/Constraint.swift:281 | the first existing layout constraint that is `==`, or none |
| `SnapConstraints.Constraint.constructor` | Core/ThirdParty/SnapKit/Constraint.swift:46-190 | new inactive layout constraints of its own, exactly those the description asks for |
| `SnapConstraints.Constraint.SetConstant` | Core/ThirdParty/SnapKit/Constraint.swift:12-16 | setting the constant leaves exactly what building with that constant gives |
| `SnapConstraints.Constraint.SetPriority` | Core/ThirdParty/SnapKit/Constraint.swift:17-21 | setting the priority leaves exactly what building with that priority gives, save that nothing becomes required and nothing required changes |
| `SnapConstraints.Constraint.UpdateConstantAndPriority` | Core/ThirdParty/SnapKit/Constraint.swift:257-267 | the new constant and priority of each of its layout constraints |
| `SnapConstraints.Constraint.UpdateExisting` | Core/ThirdParty/SnapKit/Constraint.swift:275-289 | false, the fatal error, exactly if some new layout constraint is `==` to no existing one; otherwise the existing ones become the fold of the new ones over them; the registry invariant holds on |
| `SnapConstraints.Constraint.Activate` | Core/ThirdParty/SnapKit/Constraint.swift:290-293 | the constraint joins its item's registry, its layout constraints are active, and the invariant of the whole world holds on |
| `SnapConstraints.Constraint.Deactivate` | Core/ThirdParty/SnapKit/Constraint.swift:296-305 | it leaves, all inactive, and the invariant holds on |
| `SnapConstraints.PrepareConstraints` | Core/ThirdParty/SnapKit/ConstraintMaker.swift:160-171 | exactly what the complete descriptions ask for, unregistered and inactive, nothing else touched |
| `SnapConstraints.MakeConstraints` | Core/ThirdParty/SnapKit/ConstraintMaker.swift:173-178 | exactly the new constraints are added to the registry and active; no other constraint is touched |
| `SnapConstraints.RemoveConstraints` | Core/ThirdParty/SnapKit/ConstraintMaker.swift:197-202 | nothing stays registered, so nothing stays active, and no constant changes |
| `SnapConstraints.RemakeConstraints` | Core/ThirdParty/SnapKit/ConstraintMaker.swift:180-183 | only the new constraints are registered and active |
| `SnapConstraints.UpdateConstraints` | Core/ThirdParty/SnapKit/ConstraintMaker.swift:185-195 | makes on an empty registry; otherwise touches nothing but constants of the item's own layout constraints; false, the fatal error, exactly if the descriptions build a layout constraint that is `==` to none of those; if not, those become the fold of what is built |
| `SnapConstraints.UpdateMatching` | Core/ThirdParty/SnapKit/ConstraintMaker.swift:185-195 | if what the descriptions build is `==`, one by one, to some registered layout constraints, those become exactly that and all others keep their constants |
| `SnapConstraints.MakeThenUpdate` | Core/ThirdParty/SnapKit/ConstraintMaker.swift:173-195 | make, then update with the same shape: what was made is exactly what making it from the new descriptions gives, with the same registrations and activations, and no other constant changed |
| `SnapConstraints.GoodWithNewItem` | Core/ThirdParty/SnapKit/LayoutConstraintItem.swift:61-77 | the invariant holds of a new item, where every run begins, and of a world that a new item joins |
| `SnapConstraints.GoodWithUnused` | Core/ThirdParty/SnapKit/LayoutConstraintItem.swift:65-70 | constraints that were built but not activated do not disturb the invariant |

## Left out

- Foreign services (Firebase, Firestore, Alamofire, StoreKit, Facebook, biometrics): only their responses enter, as arbitrary arguments of steps.
- Drawing, cells, colours, fonts, animations and localisation: nothing to prove.
- Constraint solving and `trimmedPath`: platform behaviour; activation is a flag, measuring ends at `length(to:)`.
- Cubic arcs and closed paths: no builder of the chart's line makes the former, and `length(to:)` rejects the latter.
- Straight-line charts and the filled area under a curve: easier forms of what is proved for the curve.
- Floating-point rounding, infinities and not-a-number, except for the 0/0 of the score: arithmetic is exact.
- The span, line-break and blank replacements after the five passes of `htmlToAttributedString`, and parsing its result.
- Removing attributes from a set (`-=`), labels, source locations and deprecated aliases in SnapKit.
- The list controller's dictionary of row adapters: a table of classes.
- Login, sign-up, settings, drawer, stepper, disk store, number and date abbreviations: small, they would only add easy members.
- HtmlEscape.EscapedIsOnePassExactly: texts are sequences of characters; canonical equivalence of Unicode strings is not modelled.
- EditDistance.LevenshteinDistanceScore: lower-casing is an arbitrary function; characters are not grapheme clusters.
- MentionScanner.FetchAttributedText: every character comes with a flag for its colour; indexing attributes by UTF-16 offsets is not modelled.
- ChartPath.QuadCurveTo: stated for arcs that run rightward with the control point halfway in x; on others the slope may be a division by zero.
- ChartPath.ElementLengthTo: the same for single elements.
- ChartPath.LengthTo: stated for paths that run rightward, as the chart's do; elsewhere the slope may be a division by zero, whose value is an infinity.
- ChartCurve.ChartInsideExactly: the same bounds as for the path below are excluded.
- ChartCurve.ChartAscends: the same.
- ChartCurve.Path: the curved form, and not the infinite scale that bounds with max = -min, min > 0 give.
- LiquidLayout.Layout.FillCache: heights and padding are not negative; rectangles of negative height have conventions of their own.
- LiquidLayout.Layout.Prepare: cell width, heights and padding are not negative; the collection view and its delegate exist.
- LiquidLayout.Layout.LayoutAttributesForElements: intersection of rectangles is an arbitrary relation.
- Shuffle.OneToOneExactly: counts draws; that the platform's generator is uniform is not modelled.
- RestPagination.EveryRun: each completion runs to its end before the next begins, as on the main thread; the rows are those the collection view was told of.
- FirebasePagination.OverlappingLoadsExactly: tables of dictionaries that do not change during the run; other tables page after page only.
- FirebasePagination.PagesAreCompleteAndExact: the table does not change between loads; keys are integers, as only their order matters; what the delegate does with the rows is left out.
- CalendarPicker.DatesShownExactly: the proleptic Gregorian calendar without time zones; every cell is computed afresh, reuse is not modelled.
- CalendarPicker.MaximumMonthDisplayedExactly: the minimum is not after the maximum.
- CalendarPicker.Picker.DidSelectItem: the taps are on cells that exist, and reloading and the button are left out.
- ConstraintAttributes.DecodingIsInjective: sets of the twenty known bits, which all named constants and their unions are.
- SnapConstraints.UpdateConstraints: the existing layout constraints are collected once, not once per new constraint, so `allObjects` has one order throughout an update; targets stay alive.
- SnapConstraints.MakeThenUpdate: the two calls in a row, which the source leaves to its callers.
- SnapConstraints.Constraint.SetConstant: priorities and multipliers are exact numbers, not converted between float widths.
