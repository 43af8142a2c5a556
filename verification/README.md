# Verified model of the demo rasterizers, the display server and two small utilities

This project models, in Dafny, the code of the `temple` repository that carries a running state
whose meaning is not visible in the code, and proves what that state means:

- **Rasterizers** (`adam/gram3d/demo00/grprim.c`, `line.c`): the two-phase triangle filler with
  its clipped spans, the 3D Bresenham line, the circle, the ellipse, the dot picture, and the
  floor-division line used as a reference. Each is a method with the code's loops and its
  incremental error terms. Pixel and span calls are returned as a log, in call order, and all
  properties are about that log.
- **BMP display** (`bmp.c`): the decode loop with its byte cursor, its screen cursors and the
  half-byte flag that survives the call, as a class with the mutable globals as fields.
- **Display server** (`main.c`, with the event ring of `wm.c` and `window.c`): the dispatcher as a
  class over the shared message and response buffers, each dispatch proved equal to a step
  function, and properties of arbitrary runs of steps.
- **Utilities** (`misc/tail80.c`, `misc/wordcnt8.c`): the circular line buffer and the word table.

Integers are mathematical. Where the code relies on a machine width the model writes it out: the
`int` to `unsigned long` to masked `int` conversion of span arguments, the wrapping 64-bit
arithmetic of the naive line, the exclusive-or exchange bit by bit, the truncation of a message
code.

## Main results

1. **Triangle filler.** For every three vertices the filler terminates and draws exactly one span
   per row from the highest to the lowest vertex, downwards. Each span is the hull of the digital
   edge pixels on its row (`Triangle.FillTriangle`), and those pixels are the ones `plotLine3d`
   draws along the edge from its lower to its upper end (`LineProperties.EdgeIsLine`,
   `LineProperties.SpanIsLineHull`): filler and outline round halves in opposite directions.
2. **What the fill is, and what it misses.** Every span is computed in closed form from the three
   vertices (`TriangleSpans.FillIsClosedForm`). The fill covers its whole outline if and only if
   the two upper vertices share a row or the upper edge's tail on the middle vertex's row is
   reached by another edge there, a condition on the vertices alone
   (`TriangleSpans.OutlineIsCovered`, `MiddleRowCovered`, `MiddleRowWitness`); and because spans
   are half-open, the right end of every span and the last screen column are never painted
   (`TrianglePixels.FillPaints`).
3. **Order of vertices.** The spans do not depend on the order the vertices are given in, except
   for a flat-bottomed triangle, where they do not exactly when the tails of the two sides agree
   (`TriangleOrder.OrderIndependence`, `FlatBottomOrder`, `FlatBottomWitness`). Which tail the
   last row has is stated on the vertices as given (`TriangleOrder.FlatBottomSpan`).
4. **Lines.** The k-th point is, on each axis, exactly the nearest lattice value between the ends,
   halves going back to the start (`LineProperties.LineExact`). Swapping the ends of a line
   reverses its pixel sequence if and only if no axis is ever halfway between two lattice values,
   a condition decided by halving the extents (`LineProperties.ReversalExact`). The
   floor-division line, on non-negative int coordinates, keeps to the rows between its ends if
   and only if it ascends or its width is a power of two, and is then the exact floor
   (`NaiveLine.NaiveStaysBetween`, `NaiveIsFloorBetween`).
5. **Circle.** The set of plotted pixels, by an inequality on a pixel's distances from the centre
   (`Circle.CircleExact`); the four arcs close into one 8-connected curve, and no pixel is
   plotted twice.
6. **Ellipse.** For corners in any order both loops terminate, and the set of plotted pixels is
   given by inequalities on a pixel's distances from the box's centre lines
   (`Ellipse.EllipseExact`). Every pixel and its mirror images lie in the box, the main loop stays
   as close to the ellipse as half a step of the pixel's own extents, and no row strictly inside
   the box is skipped.
7. **BMP.** The calls address each point of the rectangle x..x+w-1, y+1..y+h at most once, bottom
   row first, and the calls are exactly those the file's bytes ask for, at every depth and in
   every colour mode (`Bmp.ImageFromBytes`); over a run of images the half-byte flag carries the
   parity of all 4-bit pixels shown, and the next 4-bit image is decoded straight exactly when it
   is even (`Bmp.StraightIffEven`).
8. **Server.** Over any run the response buffer is zero whenever a dispatch starts, a request is
   answered exactly when the last code with a say in it asked for answers, and two servers with
   different pasts answer the same request alike exactly when their message buffers agree from
   word 20, or from the end of the words read, on (`ServerRuns.AnswerHidesPast`). Which codes are
   served, answered and silent, and the words of every kind of answer, are stated one by one
   (`ServerRuns.ServedIff`, `CodeDecides`, `PlainAnswer` and beside it).
9. **Event ring.** What every poll of every run returns: a post that is due at it, or no event.
   A post is due at the first poll after it whose number agrees with its own modulo 32, and is
   lost exactly when the post 32 numbers later comes first (`EventRing.EveryPoll`,
   `PostIsDelivered`, `DeliveredOnce`). So a run that neither overfills the ring nor polls it
   empty makes it a queue, and after m polls of an empty ring a posted event waits for poll number
   (32 - m % 32) % 32 (`RingIsQueue`, `IdlePollsDelay`). Over any run of posts, dispatches and
   changes of focus the event answers carry exactly what the polls of each window's ring return
   (`ServerRuns.AnswersCarryPolls`).

Where the code and its comments disagree the model follows the code. Three cases matter here: the
guard `y<0` in the span drawer tests an unsigned value and never fires, rows above the screen
being stopped one call deeper; the comment that an unserved request gets an error response does
not hold while the static no-reply flag is set; `grMAX3`, which comments at
`adam/gram3d/demo00/grprim.c:1007` doubt, is the maximum of three.

## Model

| member | source | states |
|---|---|---|
| Triangle.XorBits | adam/gram3d/demo00/grprim.c:12-13 | the exclusive-or used for exchanging is the one on two's-complement bits |
| Triangle.XorTwice | adam/gram3d/demo00/grprim.c:12-13 | it undoes itself, whichever operand is applied again |
| Triangle.XorSwap | adam/gram3d/demo00/grprim.c:12-13 | three exclusive-ors exchange two distinct integers |
| Triangle.SortVertices | adam/gram3d/demo00/grprim.c:1533-1536 | the three conditional exchanges of rows and columns give the sorted triple |
| Triangle.Sorted | adam/gram3d/demo00/grprim.c:1533-1536 | the compare-and-swap network leaves the vertices in row order |
| TriangleOrder.SortedReorders | adam/gram3d/demo00/grprim.c:1533-1536 | and only reorders them, the last two on equal rows staying as they are unless the third vertex is the apex |
| EdgeWalk.WalkUpperEdge | adam/gram3d/demo00/grprim.c:1572-1589 | one row of the upper edge: steps taken, error term left and pending column step, whether the row was left by a carry or the edge ran out |
| EdgeWalk.WalkLongEdge | adam/gram3d/demo00/grprim.c:1595-1605 | one row of the long edge, first half: the loop terminates and leaves by a carry |
| EdgeWalk.WalkLowerEdge | adam/gram3d/demo00/grprim.c:1669-1682 | one row of the lower edge, whose carrying step the outer loop counts |
| EdgeWalk.WalkLongEdgeToEnd | adam/gram3d/demo00/grprim.c:1685-1695 | one row of the long edge, second half, which also stops in the last vertex's column |
| EdgeWalk.CarriedRow | adam/gram3d/demo00/grprim.c:1572-1627 | a row left by a carry: the columns walked are exactly the digital edge's pixels on it, and the state is the next row's starting state |
| EdgeWalk.UpperRow | adam/gram3d/demo00/grprim.c:1564-1589 | the upper edge never runs out above the middle vertex, so its row pixels and next state are as above |
| EdgeWalk.LowerRow | adam/gram3d/demo00/grprim.c:1662-1682 | the lower edge's row pixels for every row down to the last, single-pixel edges included |
| EdgeWalk.LongRow | adam/gram3d/demo00/grprim.c:1685-1695 | the long edge's row pixels in the second half, its error term carried over from the first, also after its last column was reached early |
| EdgeWalk.UpperGuard | adam/gram3d/demo00/grprim.c:1564-1564 | the first half's loop guard holds on every row above the middle vertex, so the half ends at y == y2 |
| EdgeWalk.LowerGoesOn | adam/gram3d/demo00/grprim.c:1662-1662 | the second half's loop guard holds on every row to be drawn, so the filler leaves by y > y3 |
| Triangle.FillUpperRow | adam/gram3d/demo00/grprim.c:1564-1629 | one pass of the first half draws the hull of its row and moves both walks to the next row |
| Triangle.FillUpper | adam/gram3d/demo00/grprim.c:1561-1633 | the first half draws one hull span for each row from y1 to y2 - 1 |
| Triangle.FillLowerRow | adam/gram3d/demo00/grprim.c:1662-1714 | one pass of the second half, with the long edge's state from the first |
| Triangle.FillLower | adam/gram3d/demo00/grprim.c:1638-1718 | the second half completes the spans down to y3 |
| Triangle.FillTriangle | adam/gram3d/demo00/grprim.c:1502-1721 | for all vertices: terminates, one span per row in ascending order, each the hull of its row's edge pixels; the pixel calls and the count are those of the clipped spans |
| TrianglePixels.EdgeAccuracy | adam/gram3d/demo00/grprim.c:1538-1627 | a pixel between an edge's ends is the edge's if and only if it is the nearest to the ideal edge along the shorter extent, halves going on towards the lower end |
| TrianglePixels.EdgeEnds | adam/gram3d/demo00/grprim.c:1538-1554 | an edge begins and ends at its two vertices |
| TrianglePixels.SpansInBox | adam/gram3d/demo00/grprim.c:1502-1721 | spans stay in the bounding box; a row has a span exactly between the extreme vertices, and only one |
| TrianglePixels.OutlineCovered | adam/gram3d/demo00/grprim.c:1607-1620 | the span of a row covers the outline's pixels on it, the upper edge on the middle row excepted |
| TriangleSpans.EdgeColumns | adam/gram3d/demo00/grprim.c:1572-1605 | an edge's pixels on a row are the interval between its first and last column, both computed from its ends |
| TriangleSpans.FillIsClosedForm | adam/gram3d/demo00/grprim.c:1502-1721 | the filler's spans are exactly those computed from the three vertices |
| TriangleSpans.MiddleRowCovered | adam/gram3d/demo00/grprim.c:1630-1649 | the upper edge's pixels on the middle row are filled if and only if its tail is reached, a condition on the vertices |
| TriangleSpans.OutlineIsCovered | adam/gram3d/demo00/grprim.c:1502-1721 | the fill covers all three edges if and only if the top is flat or the tail is reached |
| TriangleSpans.MiddleRowWitness | adam/gram3d/demo00/grprim.c:1630-1649 | a triangle whose tail is not reached, with an unfilled pixel of its upper edge |
| TrianglePixels.FillPaints | adam/gram3d/demo00/line.c:175-266 | the pixels handed on by a whole fill are exactly the half-open spans cut to 0 <= x < w - 1 and y >= 0 |
| TrianglePixels.FillPaintsOnce | adam/gram3d/demo00/grprim.c:1620-1707 | no pixel is painted twice |
| TrianglePixels.CountIsExact | adam/gram3d/demo00/line.c:236-265 | with a 0/1 backbuffer the filler returns the number of pixels changed |
| TriangleOrder.LastRowTail | adam/gram3d/demo00/grprim.c:1669-1695 | an edge's pixels on its last row reach back half its width over its height |
| TriangleOrder.OrderIndependence | adam/gram3d/demo00/grprim.c:1533-1721 | all six vertex orders give the same spans unless the bottom is flat and its tails differ |
| TriangleOrder.FlatBottomOrder | adam/gram3d/demo00/grprim.c:1533-1721 | the two orders of a flat bottom agree if and only if the tails do |
| TriangleOrder.FlatBottomSpan | adam/gram3d/demo00/grprim.c:1533-1721 | the last span of a flat bottom for the vertices as given: it has the tail of the edge to the later corner, or to the first vertex when the apex is the third |
| TriangleOrder.FlatBottomWitness | adam/gram3d/demo00/grprim.c:1533-1721 | a flat bottom whose last span changes from 15..30 to 10..30 when its corners are swapped |
| Scanline.IntSurvives | adam/gram3d/demo00/line.c:189-193 | an int survives the conversion to unsigned long and back through the mask |
| Scanline.GrPlot2D | adam/gram3d/demo00/grprim.c:455-472 | no call for a negative coordinate, one otherwise |
| Scanline.DrawHorizontalLine | adam/gram3d/demo00/line.c:174-266 | the calls are those of the clipped half-open span, and the count is the smaller of its width and of what the calls returned |
| Line3d.StepAxis | adam/gram3d/demo00/grprim.c:972-982 | one round of an axis keeps the closed form of its error term and coordinate |
| Line3d.PlotLine3d | adam/gram3d/demo00/grprim.c:935-986 | plots the closed-form sequence of dm + 1 points and returns their number |
| Line3d.PlotLine3dTracked | adam/gram3d/demo00/grprim.c:1096-1158 | the same sequence; for 0 <= n <= dm the addresses get the point at step dm - n, otherwise nothing; returns dm |
| LineProperties.LineEnds | adam/gram3d/demo00/grprim.c:949-985 | the line starts and ends exactly on its ends, with one point more than its longest extent |
| LineProperties.LineConnected | adam/gram3d/demo00/grprim.c:964-983 | each step moves every coordinate by at most one, and some coordinate |
| LineProperties.LineAccuracy | adam/gram3d/demo00/grprim.c:956-983 | at step k every axis satisfies abs(2(dm*c - k*d)) <= dm |
| LineProperties.LineExact | adam/gram3d/demo00/grprim.c:956-983 | a point is the k-th one if and only if on every axis it lies between the ends with -dm <= 2(dm*c - k*d) < dm |
| LineProperties.StepsNearest | adam/gram3d/demo00/grprim.c:956-983 | no other lattice value is nearer to the ideal one |
| LineProperties.LineReversed | adam/gram3d/demo00/grprim.c:949-983 | from the other end each axis is within one, and off exactly where it is halfway |
| LineProperties.ReversalExact | adam/gram3d/demo00/grprim.c:949-983 | the reversed call gives the reversed sequence if and only if no axis is ever halfway |
| LineProperties.EdgeIsLine | adam/gram3d/demo00/grprim.c:941-985 | the filler's edge pixels are those of the line plotted from the edge's lower to its upper end |
| LineProperties.SpanIsLineHull | adam/gram3d/demo00/grprim.c:1607-1620 | a span is the hull of the plotted lines' pixels on its row |
| NaiveLine.DrawNaively | adam/gram3d/demo00/line.c:77-98 | the plotted rows, in wrapping 64-bit arithmetic |
| NaiveLine.NaiveIsFloor | adam/gram3d/demo00/line.c:90-97 | on ascending lines nothing wraps, the row is the floor and stays between the ends |
| NaiveLine.FastRoundsNaive | adam/gram3d/demo00/line.c:77-98 | the incremental line is on the naive row or the next, and on the next exactly when more than half a row was cut off |
| NaiveLine.NaiveStaysBetween | adam/gram3d/demo00/line.c:77-98 | for non-negative int coordinates all rows lie between those of the ends if and only if the line ascends or its width is a power of two |
| NaiveLine.NaiveIsFloorBetween | adam/gram3d/demo00/line.c:77-98 | and then every row is the floor of the ideal one |
| NaiveLine.DescendingRow | adam/gram3d/demo00/line.c:88-93 | a descending line's rows: the fall within its range, moved by a fixed drift of the width and read as an int |
| NaiveLine.NaiveDescending | adam/gram3d/demo00/line.c:88-93 | a descending line of width three whose second pixel is far off |
| Circle.Step | adam/gram3d/demo00/grprim.c:2744-2758 | the increments keep err = (x+1)^2 + (y+1)^2 - r^2 and take the walk's next offset |
| Circle.NextOnWalk | adam/gram3d/demo00/grprim.c:2744-2760 | a step stays within r of the circle's square, moves by at most one per axis, and reaches x == 0 only at y == r |
| Circle.PlotCircle | adam/gram3d/demo00/grprim.c:2716-2812 | terminates for every radius and plots the arc's offsets in all four quadrants; plain circle and circle at depth z alike |
| Circle.CircleAccuracy | adam/gram3d/demo00/grprim.c:2732-2760 | every plotted pixel satisfies -r <= x^2 + y^2 - r^2 < r |
| Circle.CircleExact | adam/gram3d/demo00/grprim.c:2732-2760 | for positive radius a pixel with distances u, v from the centre is plotted if and only if -max(u,v) <= u^2 + v^2 - r^2 < max(u,v), the diagonal corner with value u - 1 excepted |
| Circle.CircleOfNothing | adam/gram3d/demo00/grprim.c:2732-2760 | without a positive radius only the ends of the axes are plotted |
| Circle.CircleIsClosed | adam/gram3d/demo00/grprim.c:2732-2760 | the four arcs form one closed 8-connected curve |
| Circle.QuadsAt | adam/gram3d/demo00/grprim.c:2739-2742 | the calls are the curve's offsets around the centre |
| Circle.CirclePlotsOnce | adam/gram3d/demo00/grprim.c:2732-2760 | no pixel is plotted twice |
| Ellipse.Step | adam/gram3d/demo00/grprim.c:2888-2890 | the increments keep err = b^2(X-2)^2 + a^2(Y+2)^2 - a^2 b^2 and the centre |
| Ellipse.NextInside | adam/gram3d/demo00/grprim.c:2882-2892 | a step keeps the rectangle in the box and close to the ellipse, and changes it |
| Ellipse.PlotEllipse | adam/gram3d/demo00/grprim.c:2867-2939 | for corners in any order both loops terminate and plot the corners of the walk's rectangles, then of the tips |
| Ellipse.EllipseInBox | adam/gram3d/demo00/grprim.c:2876-2901 | every pixel lies in the box and its mirror images are plotted |
| Ellipse.EllipseAccuracy | adam/gram3d/demo00/grprim.c:2882-2892 | with u and v a main-loop pixel's doubled distances from the centre lines, b^2 u^2 + a^2 v^2 differs from a^2 b^2 by at most the greater of 2b^2(u+1) and 2a^2(v+1) |
| Ellipse.EllipseExact | adam/gram3d/demo00/grprim.c:2867-2939 | a pixel is plotted if and only if its doubled distances from the centre lines are sides of a rectangle neither too far inside nor too far outside and not a corner, or of a tip |
| Ellipse.TipsExact | adam/gram3d/demo00/grprim.c:2893-2901 | the tips have the last width and the heights from the curve's greatest up to the box's |
| Ellipse.EllipseRows | adam/gram3d/demo00/grprim.c:2882-2901 | no row strictly inside the box is skipped |
| PrimeRows.DrawDots | adam/gram3d/demo00/grprim.c:2949-2970 | the dots left by the loops and their early exit, none twice |
| PrimeRows.RowOfDivisors | adam/gram3d/demo00/grprim.c:2955-2969 | below the top row a row's dots are its divisors, the early exit losing none |
| PrimeRows.TopRow | adam/gram3d/demo00/grprim.c:2955-2969 | the top row has a dot in each column from 1 to the picture's height, as far as its width |
| PrimeRows.TwoDotsIsPrime | adam/gram3d/demo00/grprim.c:2943-2969 | a row has exactly two dots if and only if its number is prime |
| Bmp.Decoder.NextColor | adam/gram3d/demo00/bmp.c:361-450 | one pixel: the colour at the closed-form address, the cursor and flag after it |
| Bmp.Decoder.PutPixel | adam/gram3d/demo00/bmp.c:456-540 | which call, if any, each colour mode makes |
| Bmp.Decoder.PaintRow | adam/gram3d/demo00/bmp.c:359-543 | one row of pixels |
| Bmp.Decoder.Paint | adam/gram3d/demo00/bmp.c:357-550 | all rows, bottom first |
| Bmp.Decoder.Display | adam/gram3d/demo00/bmp.c:45-587 | status for every input, no call when refused, all calls and the flag's new value otherwise |
| Bmp.ImageOnScreen | adam/gram3d/demo00/bmp.c:357-550 | a call is made exactly for the points of the rectangle, with the colour of the image pixel belonging there |
| Bmp.ImageFromBytes | adam/gram3d/demo00/bmp.c:357-550 | the calls in terms of the file's bytes: header, palette entry of each half byte or byte, the 5, 3, 3 and 5 bits of 16-bit pixels, the three bytes of 24 and 32, and the colour mode |
| Bmp.ImageOrdered | adam/gram3d/demo00/bmp.c:542-549 | calls go upwards and rightwards, so no target is addressed twice |
| Bmp.FlagCarriesParity | adam/gram3d/demo00/bmp.c:17-18 | over a run of images the flag is the parity of the 4-bit pixels shown |
| Bmp.StraightIffEven | adam/gram3d/demo00/bmp.c:363-386 | after a run of images pixel n of a 4-bit one is read from half n % 2 of byte n / 2 if and only if that number is even, and otherwise from the place of the next pixel |
| EventRing.Window.constructor | adam/gram3d/demo00/window.c:626-636 | a new ring is empty |
| EventRing.Window.Post | adam/gram3d/demo00/wm.c:411-419 | posting writes the tail slot and moves the tail round |
| EventRing.Window.Poll | adam/gram3d/demo00/main.c:1666-1682 | polling returns and clears the head slot and moves the head round |
| EventRing.SlotHolds | adam/gram3d/demo00/main.c:1660-1682 | after any run a slot holds the event of the last operation that touched it, or none after a poll or when untouched |
| EventRing.EveryPoll | adam/gram3d/demo00/main.c:1644-1690 | from an empty ring poll k returns the latest post numbered like k modulo 32, made after poll k - 32 and before poll k, and no event if there is none |
| EventRing.PostIsDelivered | adam/gram3d/demo00/main.c:1644-1690 | a post is returned by the poll it is due at and no other, and lost exactly when post j + 32 comes before that poll |
| EventRing.DeliveredOnce | adam/gram3d/demo00/main.c:1666-1682 | no event is returned twice, and a poll has at most one post to return |
| EventRing.RingIsQueue | adam/gram3d/demo00/main.c:1644-1690 | a run that never posts to a full ring nor polls an empty one makes it a first-in first-out queue |
| EventRing.IdlePollsDelay | adam/gram3d/demo00/main.c:1666-1676 | after m polls of an empty ring a posted event is returned by poll number (32 - m % 32) % 32 and no other, the others returning zeros |
| Server.Dispatcher.SendResponse | adam/gram3d/demo00/main.c:475-657 | the packet written, and both buffers cleared whether or not the write succeeds |
| Server.Dispatcher.ServeNextEvent | adam/gram3d/demo00/main.c:1644-1690 | fills the event answer and takes the event |
| Server.Dispatcher.ServeWindowInfo | adam/gram3d/demo00/main.c:1782-1852 | fills the window description, or nothing for a bad or dead window |
| Server.Dispatcher.ServeCreateWindow | adam/gram3d/demo00/main.c:2308-2485 | fills the new window's answer, or stops the server |
| Server.Dispatcher.ServeAsyncCommand | adam/gram3d/demo00/main.c:1936-2108 | which asynchronous commands stop or end the server: exit, quit, and a reboot the kernel heeds |
| Server.Dispatcher.Procedure | adam/gram3d/demo00/main.c:1020-1297 | status, no-reply flag, quit flag and response for every code |
| Server.Dispatcher.Dispatch | adam/gram3d/demo00/main.c:680-884 | one dispatch is the step function: state, outcome and sync flag |
| ServerRuns.OneOutcome | adam/gram3d/demo00/main.c:803-863 | a request with a code ends in one answer with the flag 2000 or in silence with the flag 0; anything else leaves the flag alone |
| ServerRuns.ServedIff | adam/gram3d/demo00/main.c:703-800 | which requests are served, by the words of the message: a code word, and none of the codes that stop the process |
| ServerRuns.UnservedIsDropped | adam/gram3d/demo00/main.c:703-800 | without a request the first six words are forgotten and nothing else changes |
| ServerRuns.CodeDecides | adam/gram3d/demo00/main.c:1040-1294 | which codes are answered, which are not, which leave it to the flag, and which ask the server to quit |
| ServerRuns.PlainAnswer | adam/gram3d/demo00/main.c:475-657 | an answer without fields is its type, 1001 or for unknown codes 1003, zeros, and the message's own words from 20 on |
| ServerRuns.CreationAnswered | adam/gram3d/demo00/main.c:2440-2485 | the answer to creating a window, word by word |
| ServerRuns.InfoAnswered | adam/gram3d/demo00/main.c:1782-1852 | the answer describing a window, word by word |
| ServerRuns.AlwaysClean | adam/gram3d/demo00/main.c:611-614 | over any run the response buffer is zero whenever a dispatch starts |
| ServerRuns.FlagIsLastMode | adam/gram3d/demo00/main.c:1040-1294 | over any run the no-reply flag says what the last code with a say in it wanted |
| ServerRuns.AnsweredIff | adam/gram3d/demo00/main.c:800-863 | exactly which requests of a run are answered, and which answers are error packets |
| ServerRuns.AnswerHidesPast | adam/gram3d/demo00/main.c:494-595 | two servers with different pasts that serve the same code answer alike if and only if their message buffers agree from word 20, or from the end of the words read, on |
| ServerRuns.AnswerAfterAnswer | adam/gram3d/demo00/main.c:598-614 | the answer after an answer is zero beyond its own request's words |
| ServerRuns.SilentRequestShows | adam/gram3d/demo00/main.c:821-825 | a request served in silence stays in the message buffer and shows in a later answer to a shorter request |
| ServerRuns.EventDelivered | adam/gram3d/demo00/main.c:1660-1672 | the answer to asking for the next event, word by word: the one at the focus window's head, which is taken |
| ServerRuns.AnswersCarryPolls | adam/gram3d/demo00/main.c:1644-1690 | over any run of posts, dispatches and changes of focus, a window's ring is the one its posts and polls leave and the event answers carry what its polls return |
| Tail.Read | misc/tail80.c:53-61 | one character keeps the slots: each holds its record of the last n, the current one the unfinished record |
| Tail.PrintLines | misc/tail80.c:63-69 | the printed lines, with and without an unfinished record, which shows nothing when it starts with a NUL |
| Tail.TailFile | misc/tail80.c:21-69 | prints the non-empty records among the last n in order; an unfinished one comes out first, unless it starts with a NUL |
| Tail.LinesAreRecords | misc/tail80.c:53-61 | newline-terminated text of fitting lines is read back as its lines |
| Tail.LinesAreCut | misc/tail80.c:53-61 | text of lines of any length is read back cut every 1023 characters, the character after each full piece being lost |
| Tail.CStringStops | misc/tail80.c:64-68 | a record is printed up to its first NUL |
| Tail.TailOfText | misc/tail80.c:21-69 | on such text the output is the non-empty lines among the last n, in file order |
| WordCount.WordTable.AddWord | misc/wordcnt8.c:29-41 | the array is updated as the table function says |
| WordCount.TableCounts | misc/wordcnt8.c:29-41 | the entries are the first 1000 distinct tokens with their exact multiplicities |
| WordCount.CountWords | misc/wordcnt8.c:50-73 | the table of a whole input is that of its tokens |
| WordCount.TokensAreRuns | misc/wordcnt8.c:55-73 | the tokens are the maximal runs of letters and digits, lowercased, cut every 99 characters |
| WordCount.TokensKeepAll | misc/wordcnt8.c:55-73 | put together the tokens are the input's letters and digits in order |

## Left out

- Overflow of `int`: coordinates are unbounded; the rasterizers agree with the code for coordinates up to 2^29 in size, the ellipse and the BMP cursor only for sizes whose products fit.
- NaiveLine.NaiveStaysBetween: its arguments are `unsigned long`; coordinates that come from negative ints or exceed the int range are covered by `DrawNaively` only.
- Inlined loops: the filler's inner loops and the line's three axis updates are methods of their own, called where the code has them inline.
- `plotLine3dEx`, `plotLine3d2`: the same loop as `plotLine3d`; the former adds a window check.
- `grPlot0` and `libgr_transform_to_screespace`: view transformation, z range and window clipping; the logs are of calls to `grPlot0` itself.
- `libdisp_backbuffer_putpixel`: what it answers for a pixel is a parameter of the span drawer.
- `plotQuadBezierSeg`, the float pipeline, cubes, polygons, rectangles, fonts: not modelled.
- Ellipse tips: the tail loop stops before the box's extreme rows, so no claim is made about them.
- Bmp.Decoder.Display: refreshing the rectangle, the diagnostic output and the zoom branch, which a constant switches off, are not modelled; row padding is ignored as in the code.
- Server.Dispatcher.Dispatch: only the client descriptor 31 is modelled, reads come in whole words, and drawing, focus and window-list effects of the other services are outside the model, including a service that ends the process by itself other than creating a window and the exit and reboot commands; whether the kernel heeds a reboot is a parameter.
- EventRing.Window.Post: mouse events, which post to the same ring with other coordinates, are represented by the same method.
- Tail.TailFile: file and allocation errors are outside; a line count below one, where the code divides by zero, is excluded.
- Tail.PrintLines: for an unfinished last record only its front, its place in the output and the lines after it are stated, since the rest of its slot may be uninitialised.
- WordCount.CountWords: sorting by count and printing are the C library's; letters are those of the C locale.
- `sort80`, `uniq80`, `wc80`, `grep80`, `head80`: these programs are not modelled.
