# EMI-Optimizer-Py, shape classification and mask composition

EMI-Optimizer-Py post-processes the vector drawing of a PCB copper layer. Its scripts do three
jobs:

- they drop thin and artefact paths;
- they invert the drawing by means of a mask;
- they extract, and later subtract, the regions enclosed by shapes that touch the canvas edge.

This project is a Dafny model of the logic that decides what goes where. It is written one module
per script, plus shared modules:

- `Geometry` holds the path helpers that every script repeats: number extraction from a path's
  `d`, bounding box, dimensions, the thinness test, the closed test and the boundary test.
- `SvgDoc` holds the viewBox fallbacks and the mask entries, each an ordered (shape, paint,
  fill-rule) line.
- `Lex` and `Seqs` model the Python built-ins the scripts lean on: `float()` on decimal text,
  `str.split`, `str.strip`, `round`, and list comprehensions with `if`.

Each script module models the script's own loops as methods. Each method is proved against a
function of its inputs, and what the script promises is proved about that function:

- `ExtractEnclosed`: the valid, boundary and inner partition, and the two masks.
- `InvertSvg`: the inversion mask with its circle and `use` filters, and the even-odd path.
- `InvertSvgClean`: the kept/filtered inversion.
- `FilterThinPaths`: the rewrite of a mask's content.
- `RemoveThinLines`: the insertion before the mask end.
- `RemoveZeroThickness`: the stroke substitution.
- `RemoveEnclosed`: the subtraction mask.
- `ExtractPathsFromSvg`: the pre-order path copy.
- `AnalyzePaths`: the in-place sort and the bucket counts.
- `CutSvgText` and `CutSvg`: the path and height tests, normalisation, the rect and point
  transforms, and the recursive shape filter.
- `RasterMask` (test.py): number lists, viewBox and size parsing, the canvas, point mapping,
  the polygon guards and the M/L/H/V/Z walker.

Documents enter the model in one of two forms:

- as the values the scripts' regular expressions extract (`Scan`, `UseScan`, `MaskSplit`,
  `Piece`), for the scripts that work on the text;
- as element trees (`Element`), for the scripts that use ElementTree.

The number scanners inside attribute values are modelled character by character, because they
are what the geometry rests on. Where a script calls `float()` on text it only passes along, the
model takes `float()` as a parameter `read`. Where it prints a number with `str()`, the model
takes a parameter `show`. The lemmas about these state, value by value, what they need of them:
that `read` reads back the particular numbers `show` wrote (Python's `float(str(v)) == v` holds
for every finite float), that the numbers written scan back as themselves, or that `read` is
`Lex.ParseFloat`.

Some behaviours of the code are worth stating plainly, because they differ from what the SVG
path grammar or the names in the code suggest:

- Lower-case path commands in test.py's walker are handled exactly like upper-case ones. SVG
  defines them as relative; `RasterMask.WalkCaseBlind` proves the walker treats them as absolute.
- In the walker, a new `M` does not flush the subpath collected so far. The point list is only
  reset at the next `Z` or at the end.
- A partial command aborts the walk. The walker raises IndexError when an `M` or `L` has one
  number left. It raises ValueError when a command letter stands where its second number should
  be. The model returns these errors as `Failure`.
- The closed test only asks whether the stripped text ends with `Z` or `z`.
- The thin-rectangle test of cut_svg.py compares edges with 0.4064, not 0.406. The rect-height
  test compares with 0.406.
- In cut_svg.py, `split_svg_objects` defines `expand_rect`, `expand_points`, `stretch_y_points`
  and `stretch_rect_y` but never calls them. They are modelled on their own.

## Model

| member | source | states |
|---|---|---|
| Geometry.CoordMatch | extract_enclosed.py:12 | one match of `-?\d+\.?\d*`: it exists exactly when the text starts with a digit or with '-' and a digit, and it is non-empty and inside the text |
| Geometry.PathCoordsOfPieces | extract_enclosed.py:10-14 | the numbers of a `d` written as command letters and numerals with separators are exactly the numerals' values, in order; command letters contribute nothing |
| Geometry.PathCoordsConcat | extract_enclosed.py:12-13 | the numbers of two texts joined by a separator are the first text's numbers followed by the second's |
| Geometry.NumeralCoords | extract_enclosed.py:12-13 | a numeral scans as exactly one number, its own value |
| Geometry.Evens | extract_enclosed.py:23 | `coords[0::2]`: the even-indexed numbers, ceil(n/2) of them |
| Geometry.Odds | extract_enclosed.py:24 | `coords[1::2]`: the odd-indexed numbers, floor(n/2) of them |
| Geometry.Min | extract_enclosed.py:29 | min() of a non-empty list is one of its elements and no element is below it |
| Geometry.Max | extract_enclosed.py:29 | max() of a non-empty list is one of its elements and no element is above it |
| Geometry.BBoxOf | extract_enclosed.py:17-29 | None exactly for fewer than two numbers; otherwise the x bounds enclose the even-indexed numbers and the y bounds the odd-indexed ones, each bound attained, and minX <= maxX, minY <= maxY |
| Geometry.DimensionsOf | extract_enclosed.py:32-39 | (0, 0) for fewer than two numbers, and never negative |
| Geometry.DimensionsAreSpreads | extract_enclosed.py:32-39 | the width is the largest difference between two x numbers, and the height the largest between two y numbers |
| Geometry.SpanDimensionsAgree | remove_thin_lines.py:16-30 | the dimensions computed without a bounding box, as remove_thin_lines.py, remove_zero_thickness.py and analyze_paths.py do, equal the bounding-box ones |
| Geometry.ThinSpanAgrees | remove_thin_lines.py:33-38 | the thinness test on those dimensions classifies every path as the bounding-box test does |
| Geometry.SpreadBelow | extract_enclosed.py:47-50 | a spread below the threshold means every two numbers are closer than the threshold |
| Geometry.ClosedPathMeaning | extract_enclosed.py:42-44 | a path is closed exactly when its last character that is not whitespace exists and is 'Z' or 'z' |
| Geometry.ClosedIgnoresTrailing | extract_enclosed.py:42-44 | appending whitespace never changes the closed verdict |
| Geometry.ClosedByZ | extract_enclosed.py:42-44 | any text followed by 'Z' or 'z' is closed |
| Geometry.ThinIff | extract_enclosed.py:47-50 | thin exactly when the path is degenerate (and the threshold positive), or all x numbers, or all y numbers, lie closer together than the threshold |
| Geometry.NotThinHasBBox | extract_enclosed.py:47-50 | a degenerate path is thin at every positive threshold, so a path that is not thin has a bounding box |
| Geometry.TouchesIffNotInside | extract_enclosed.py:53-66 | touching is the negation of lying strictly inside the canvas shrunk by the margin, and a larger margin only adds touching boxes |
| SvgDoc.FloatsPrefixMeaning | extract_enclosed.py:93-94 | reading the first k parts succeeds exactly when there are k parts and all read; otherwise IndexError when the parts that exist all read, ValueError when one of them does not |
| SvgDoc.FloatsPrefixValues | extract_enclosed.py:94 | what is read is the values of the first k parts, in order |
| SvgDoc.ViewBoxRoundTrip | extract_enclosed.py:92-94 | four numerals written with single spaces read back as that viewBox |
| SvgDoc.FourFloats | extract_enclosed.py:94 | four parts that read give those four numbers, in order |
| SvgDoc.SideFromAttribute | invert_svg.py:40-41 | a canvas side without a viewBox: 100 without the attribute, and the only error is ValueError |
| SvgDoc.SideFromUnitAttribute | invert_svg.py:40-41 | a width such as "12.5mm" or "12.5px" gives the side 12.5 |
| SvgDoc.UnitRemoved | invert_svg.py:40 | deleting "mm" and then "px" takes a unit off a text with no 'm' and no 'p' |
| SvgDoc.PathEntries | extract_enclosed.py:144-145 | one entry per path, in order, each that path with the given paint and rule |
| SvgDoc.CircleEntries | extract_enclosed.py:147-148 | one black entry per circle match, in order, its attribute text copied |
| SvgDoc.InversionMask | extract_enclosed.py:140-148 | the inversion mask is the canvas in white, then every path in black, then every circle in black, in document order |
| SvgDoc.AppendPathEntries | extract_enclosed.py:144-145 | the path loop appends exactly the path entries to what was written before |
| SvgDoc.AppendCircleEntries | extract_enclosed.py:147-148 | the circle loop appends exactly the circle entries to what was written before |
| ExtractEnclosed.BBoxTestRedundant | extract_enclosed.py:111-113 | the bounding-box test in the valid-path loop never rejects a path that is closed and not thin |
| ExtractEnclosed.ValidPaths | extract_enclosed.py:109-114 | the valid paths are exactly the input paths that are closed, not thin at 0.3 and have a box, in input order, each with its own box |
| ExtractEnclosed.ValidCandidate | extract_enclosed.py:111-114 | one path gives a candidate exactly when it is valid, and the candidate carries the path and its box |
| ExtractEnclosed.Partition | extract_enclosed.py:119-126 | the boundary list is the valid paths whose box touches the edge, and the inner list is those whose box does not, both in order |
| ExtractEnclosed.PartitionIsPartition | extract_enclosed.py:119-126 | the two lists together hold every valid path exactly as often as it occurs, share no path, and are both subsequences of the valid paths |
| ExtractEnclosed.BoundaryDs | extract_enclosed.py:122-124 | filtering the candidates by their boxes selects the same paths as filtering the input paths by validity and the boundary test |
| ExtractEnclosed.ExtractEnclosedFromInverted | extract_enclosed.py:87-169 | a viewBox that does not read is the only error; otherwise the document has that canvas (or 0 0 100 100), the inversion mask of every path and circle, and the second mask of the canvas in black and exactly the boundary paths in white |
| ExtractEnclosed.BoundaryExamples | extract_enclosed.py:53-66 | on the canvas (0, 0, 100, 100), the box (0, 10, 5, 20) touches the edge and (10, 10, 20, 20) does not |
| RasterMask.ParseFloats | test.py:16-27 | no text gives no numbers; otherwise commas become spaces and the numbers are those of the parts float() accepts, in order |
| RasterMask.ReadPartsConcat | test.py:21-26 | the numbers of two runs of parts are those of the first run followed by those of the second |
| RasterMask.RejectedPartDropped | test.py:22-26 | a part float() rejects is dropped without an error, and the numbers around it keep their order |
| RasterMask.ReadPartsAll | test.py:21-26 | when every part reads there is one number per part, that part's value |
| RasterMask.CommaIsSeparator | test.py:20 | a comma separates two numbers just as a space does |
| RasterMask.FloatsOfNumerals | test.py:16-27 | numerals written with single spaces are read back, all of them, in order |
| RasterMask.ParseViewBox | test.py:30-37 | a viewBox exactly when the attribute holds exactly four numbers, and then those four in order |
| RasterMask.ViewBoxOfNumerals | test.py:30-37 | four numerals separated by spaces read back as that viewBox |
| RasterMask.SizeOfNumber | test.py:40-59 | a non-negative number followed by "", px, pt, mm, cm or in (any case) converts at 96 pixels to the inch and rounds to the nearest pixel; any other unit gives the fallback |
| RasterMask.SizeWithoutNumber | test.py:40-59 | text that does not start, after whitespace, with a digit or a point gives the fallback |
| RasterMask.Proportional | test.py:81-84 | the derived side is `int(round(side * num / den))`, within half a pixel of the exact ratio |
| RasterMask.GetCanvas | test.py:62-90 | a width or height passed in overrides the attribute's; one missing side follows the viewBox's ratio; both missing take the viewBox's size; without a viewBox the sides default to 1024 and the viewBox becomes (0, 0, w, h) |
| RasterMask.FitCanvas | test.py:74-90 | the fallbacks of get_canvas once the sides and the viewBox are parsed, case by case |
| RasterMask.MapPoint | test.py:93-97 | ZeroDivisionError exactly for a viewBox of zero width or height, otherwise the pixel position scaled from the viewBox |
| RasterMask.MapCorners | test.py:93-97 | the viewBox's top-left corner maps to (0, 0) and its bottom-right corner to (out_w, out_h) |
| RasterMask.MapInverse | test.py:93-97 | on an image of positive size the coordinate is recovered from its pixel |
| RasterMask.MapKeepsOrder | test.py:93-97 | with a viewBox and an image of positive size, left-to-right and top-to-bottom order is kept |
| RasterMask.MapPairsMeaning | test.py:103 | on a viewBox of non-zero width and height an even count of numbers gives one pixel per pair; an odd count raises IndexError; a flat viewBox raises ZeroDivisionError |
| RasterMask.PolygonCall | test.py:100-104 | fewer than three numbers draw nothing, otherwise the pixel list handed to draw.polygon |
| RasterMask.PolylineCall | test.py:107-111 | fewer than four numbers draw nothing, otherwise the pixel list handed to draw.line |
| RasterMask.PolygonGuardCounts | test.py:100-104 | three numbers pass the guard and raise IndexError; four draw a two-point polygon; six draw the triangle |
| RasterMask.NumberMatch | test.py:155 | one match of the number pattern: where it exists, it is non-empty and inside the text |
| RasterMask.TokensOfSpelling | test.py:153-155 | tokenizing a path written as words gives one token per word: each command letter, and each number's value |
| RasterMask.Step | test.py:176-224 | a turn of the walker that succeeds advances, and never past the end of the tokens |
| RasterMask.DrawPathSimple | test.py:158-226 | the loop's result is the walk of the tokens from the start, with the final flush |
| RasterMask.OnCommand | test.py:176-186 | on a command letter, the loop body does one turn of the walk |
| RasterMask.OnNumber | test.py:188-224 | on a number, the loop body does one turn of the walk, whatever the canvas |
| RasterMask.FlushMeaning | test.py:170-174 | fewer than three points draw nothing; on a viewBox of non-zero width and height an even count of at least six numbers draws one polygon of one pixel per pair, and an odd count raises IndexError; a flat viewBox raises ZeroDivisionError |
| RasterMask.StepKeepsPolygons | test.py:176-224 | one turn keeps the collected numbers paired and draws only polygons of three pixels or more |
| RasterMask.WalkDrawsPolygons | test.py:158-226 | every polygon a walk draws has at least three pixels |
| RasterMask.PathPolygonsHaveThreePoints | test.py:158-226 | draw_path_simple never hands draw.polygon fewer than three pixels |
| RasterMask.LeadingNumbersSkipped | test.py:188-190 | numbers before the first command are skipped with no effect |
| RasterMask.StepCaseBlind | test.py:176-224 | one turn on upper-cased tokens does what it does on the original tokens, up to the case of the current command |
| RasterMask.WalkCaseBlind | test.py:158-226 | the walk on upper-cased tokens draws exactly what it draws on the originals |
| RasterMask.LowerCaseIsAbsolute | test.py:158-226 | upper-casing every command of a path changes nothing that draw_path_simple draws |
| RasterMask.LinesCollected | test.py:202-208 | under L, each pair of numbers moves the pen there and adds the point to the polygon |
| RasterMask.ClosedPolygonDrawn | test.py:178-208 | `M p0 p1 … pn Z` draws exactly one polygon: the pixels of p0 … pn and p0 again |
| RasterMask.RectangleDrawn | test.py:178-222 | `M x0 y0 H x1 V y1 H x0 Z` draws exactly the four corners and the start again; H keeps y and V keeps x |
| RasterMask.MoveStep | test.py:192-200 | under M, a pair of numbers moves the pen, marks the subpath start and turns M into L |
| RasterMask.AcrossStep | test.py:210-222 | under H a number moves the pen along x and keeps y; under V it moves along y and keeps x |
| RasterMask.CloseStep | test.py:178-186 | a Z adds the subpath start to the points and draws them |
| CutSvgText.SignedMatch | cut_svg.py:9 | one match of `[-+]?[0-9]*\.?[0-9]+`: where it exists, it is non-empty and inside the text |
| CutSvgText.ParsePathPoints | cut_svg.py:5-14 | the points are taken from the numbers of `d` once commas become spaces; when there are points there are four |
| CutSvgText.FirstFourPoints | cut_svg.py:10-14 | None exactly for fewer than eight numbers, otherwise exactly the first four (x, y) pairs |
| CutSvgText.NearLengthMeans | cut_svg.py:20-25 | the edge test on squared lengths is the test `abs(length - height) < tol` on the lengths |
| CutSvgText.ThinRectangleCheck | cut_svg.py:16-27 | true exactly when the path has four points and one of its four cyclic edges is within tol of height |
| CutSvgText.AnyEdgeNear | cut_svg.py:24-27 | the edge loop answers true exactly when some edge is near |
| CutSvgText.ThinRectangleOfSides | cut_svg.py:16-27 | a quadrilateral whose opposite sides are equal is thin exactly when one of its two side lengths is near the height |
| CutSvgText.AxisRectangleThin | cut_svg.py:16-27 | an axis-aligned rectangle is thin exactly when one of its two side lengths is within tol of height |
| CutSvgText.RemovalTargetIsThin | cut_svg.py:44-47 | the path listed for removal is 0.4064 high, so the thin-rectangle test alone already removes it |
| CutSvgText.Collapse | cut_svg.py:32 | the result is single-spaced, no longer than the input, empty only for empty input, and starts with whitespace exactly when the input does |
| CutSvgText.CollapseKeepsNonSpace | cut_svg.py:32 | collapsing keeps every other character, in order |
| CutSvgText.CollapseSingleSpaced | cut_svg.py:32 | single-spaced text is left as it is, so collapsing twice is collapsing once |
| CutSvgText.Fixed6 | cut_svg.py:35 | `f"{v:.6f}"` writes a valid non-negative numeral of digits and one point, with exactly six fraction digits |
| CutSvgText.Fixed6Close | cut_svg.py:35 | the six-decimal text is within half a millionth of the number |
| CutSvgText.FixDecimalsNoComma | cut_svg.py:36 | rewriting the numerals brings in no comma |
| CutSvgText.FixDecimalsSpacing | cut_svg.py:36 | rewriting the numerals brings in no whitespace, so single spacing survives |
| CutSvgText.NormalizeDForm | cut_svg.py:29-37 | a normalised `d` holds no comma, only single spaces between other characters, and none at either end |
| CutSvgText.RemovePathDNorm | cut_svg.py:47 | the listed paths in normal form, one per listed path |
| CutSvgText.FirstNumberRun | cut_svg.py:54 | None exactly when the text has no digit and no dot; otherwise a non-empty run of digits and dots |
| CutSvgText.Height406NeedsDigit | cut_svg.py:49-60 | a height with no digit is never 0.406 |
| CutSvgText.Height406OfNumeral | cut_svg.py:49-60 | a height written as a non-negative numeral and a unit is 0.406 exactly when its value is within 0.001 of 0.406 |
| CutSvg.ExpandRect | cut_svg.py:85-93 | all four numbers are read before any is written, so a ValueError leaves the attributes unchanged; otherwise they become the expanded rect |
| CutSvg.ExpandedRectGrows | cut_svg.py:85-93 | when all four numbers read, the expansion succeeds; whenever float() reads back the four numbers str() wrote, the expanded rect reads as the old one grown by `expand` on every side; every other attribute is untouched |
| CutSvg.StretchRectY | cut_svg.py:146-153 | y and height are replaced by the stretched ones, or nothing changes on a ValueError |
| CutSvg.StretchedRectCentred | cut_svg.py:146-153 | when y and height read, the stretch succeeds, writes the new top and `factor` times the height, keeps the vertical centre, and leaves every other attribute untouched; whenever float() reads back what str() wrote, the rect reads back as such |
| CutSvg.ExpandPoints | cut_svg.py:95-111 | every point is moved to a corner of the bounding box grown by `expand`; min() of no points raises ValueError |
| CutSvg.SnapPoints | cut_svg.py:106-111 | the loop moves each point to the chosen corner, in order |
| CutSvg.ExpandedPointsCorners | cut_svg.py:95-111 | on each axis every expanded coordinate is an end of the grown range; a coordinate equal to the least goes to the lower end, and one at least 1e-6 above it to the upper end |
| CutSvg.StretchedYPoints | cut_svg.py:141-144 | every y moved away from the mean y by `factor` times its distance, x kept; no points raise ZeroDivisionError |
| CutSvg.StretchKeepsMean | cut_svg.py:141-144 | stretching keeps the mean y, whatever the factor |
| CutSvg.StretchedOffsets | cut_svg.py:141-144 | each new y is `factor` times as far from the mean y as the old one, on the same side |
| CutSvg.ExtractShapes | cut_svg.py:156-184 | the walk appends to the new root and to the four lists exactly what the functional visit of the children records |
| CutSvg.VisitOwn | cut_svg.py:162-181 | a rect the height test rejects, or a path the `d` test rejects, is recorded as removed and skipped with its subtree; anything else is recorded as kept and copied bare if it is a shape |
| CutSvg.PathRemoved | cut_svg.py:171-173 | a path is removed exactly when its normal form is listed or it is a thin rectangle 0.4064 high |
| CutSvg.SplitSvgObjects | cut_svg.py:62-185 | the new root has the input root's tag and attributes; its children are the top-level `defs` and `style` children, then the kept shapes in pre-order; the four reported lists are those of the walk |
| CutSvg.CutShapesClean | cut_svg.py:156-184 | every shape collected is a bare copy of a path, polygon, polyline or rect that neither test rejects |
| CutSvg.ShapeCollected | cut_svg.py:156-184 | every shape that neither test rejects, at any depth below ancestors that are not skipped, has its bare copy collected |
| CutSvg.RectReported | cut_svg.py:156-184 | a rect whose height is rejected, at any depth below ancestors that are not skipped, is reported among the removed heights, and its visit copies nothing of it or below it |
| CutSvg.PathReported | cut_svg.py:169-176 | a path whose `d` is rejected, at any depth below ancestors that are not skipped, is reported among the removed paths, and its visit copies nothing of it or below it |
| CutSvg.SkippedCopiesNothing | cut_svg.py:162-176 | a skipped rect or path copies nothing, of itself or of anything below it |
| InvertSvg.DefsTableSucceeds | invert_svg.py:54-61 | the defs table is built exactly when every group's three numbers read |
| InvertSvg.DefsTableKeys | invert_svg.py:60-61 | the table's keys are exactly the group ids |
| InvertSvg.DefsTableLastWins | invert_svg.py:60-61 | each id maps to the circle of the last group that defines it |
| InvertSvg.DefsCircles | invert_svg.py:54-61 | without a `<defs>` element the table is empty |
| InvertSvg.AppendPositiveCircles | invert_svg.py:81-83 | the circle loop writes exactly the circles of positive radius, text copied, in order; a radius that does not read raises ValueError |
| InvertSvg.TranslatedEntriesAt | invert_svg.py:90-92 | the k-th circle written is the k-th use's defined circle moved by the use's x and y |
| InvertSvg.UseCirclesMeaning | invert_svg.py:86-92 | the use loop succeeds exactly when every placed use has readable offsets, and then writes the moved circle of every placed use that is large enough, in order |
| InvertSvg.AppendUseCircles | invert_svg.py:86-92 | a use is placed when it names a defined circle of positive radius; its x and y are read then, and its moved circle is written |
| InvertSvg.EmittedAtZero | invert_svg.py:86-92 | with no lower bound on the diameter, the drawn uses are exactly the placed ones |
| InvertSvg.InvertSvg | invert_svg.py:30-100 | the loops of invert_svg compute the document whose mask the next row describes |
| InvertSvg.InvertedMask | invert_svg.py:64-92 | the canvas first, then every path in black in order, then exactly the circles of positive radius, then each placed use's moved circle |
| InvertSvg.MaskMembers | invert_svg.py:81-92 | the circles kept are those of positive radius, and each placed use is drawn as its defined circle moved by its offsets |
| InvertSvg.OuterRectCoords | invert_svg.py:143 | when the four numbers the outline writes scan back as themselves, the outline holds exactly the canvas corners, clockwise from the origin |
| InvertSvg.CornersScanOfNumerals | invert_svg.py:143 | when str() writes the four outline numbers as plain numerals, they scan back as themselves |
| InvertSvg.CombinedPathCoords | invert_svg.py:143-147 | the even-odd path holds the outline's numbers, then the numbers of every path, in order; the outline's numbers are the canvas corners when they scan back |
| InvertSvg.JoinCoords | invert_svg.py:147 | joining texts with spaces concatenates their numbers |
| InvertSvg.InvertSvgSimple | invert_svg.py:121-153 | fails exactly when the canvas does not read, with its error; otherwise that canvas, the width and height attribute texts (or the canvas sides printed), the given fill, and a path whose numbers are the canvas corners followed by those of every path |
| InvertSvgClean.SiftPaths | invert_svg_clean.py:111-117 | the path loop writes exactly the paths that are not thin in black, in order, and counts the thin and the kept ones |
| InvertSvgClean.InvertSvgFiltered | invert_svg_clean.py:52-137 | the loops of invert_svg_filtered compute the document whose mask the next row describes |
| InvertSvgClean.FilteredMask | invert_svg_clean.py:66-128 | the canvas, then exactly the non-thin paths in order, then the moved circles of exactly the uses drawn at this diameter; kept plus filtered is the number of paths; only unreadable numbers fail |
| InvertSvgClean.WidePathsKept | invert_svg_clean.py:111-117 | a path enters the mask exactly when it is not thin |
| InvertSvgClean.DrawnUses | invert_svg_clean.py:120-128 | a use is drawn exactly when it names a defined circle of positive radius whose diameter is at least min_dimension |
| FilterThinPaths.KeepPathLines | filter_thin_paths.py:96-104 | a thin path only raises the filtered count; any other raises the kept count and gets its line, in order |
| FilterThinPaths.FilterThin | filter_thin_paths.py:75-117 | the loop and splice of filter_thin_paths compute the rewritten text: nothing when there is no mask, otherwise the text around the mask content unchanged and the content replaced by the head with the rect and both counts, then the kept lines |
| FilterThinPaths.OutsidePreserved | filter_thin_paths.py:117 | whatever content is spliced in, the output starts with the text before the mask and its opening tag and ends with the closing tag and the rest; putting the old content back gives the input |
| FilterThinPaths.NewContentParts | filter_thin_paths.py:92-104 | the counts cover every path once as filtered or kept, and the kept lines are exactly those of the non-thin paths, in order |
| FilterThinPaths.NewContentLayout | filter_thin_paths.py:86-114 | the new content is the fixed opening, the mask's first rect (nothing when it has none), the fixed gap, the line of the filtered and kept counts, then the kept lines; so the rect comes before every kept line |
| RemoveThinLines.FindFrom | remove_thin_lines.py:70 | `find` gives -1 exactly when the pattern does not occur, otherwise its first position at or after `from` |
| RemoveThinLines.ThinPaths | remove_thin_lines.py:59-62 | the thin paths of the original, in order |
| RemoveThinLines.ThinPathsExact | remove_thin_lines.py:59-62 | they are exactly the thin paths of the original in order, and the span test agrees with the bounding-box test |
| RemoveThinLines.InsertionText | remove_thin_lines.py:77-79 | the fixed heading comment, then one line per thin path |
| RemoveThinLines.RemoveThinFromInverted | remove_thin_lines.py:41-90 | the loops and splice compute the inverted text with the thin-path block inserted before the first mask end, or nothing |
| RemoveThinLines.NoMaskEndNoOutput | remove_thin_lines.py:70-74 | nothing is written exactly when the text has no mask end |
| RemoveThinLines.InsertionRecoverable | remove_thin_lines.py:82 | removing the insertion gives the text back, the mask end follows it directly, and no mask end occurs earlier |
| RemoveThinLines.ThinBlockInserted | remove_thin_lines.py:70-82 | nothing is written exactly when the inverted text has no mask end; otherwise the fixed heading comment and then the thin paths' lines sit directly before the first mask end, and taking them out gives the inverted text back |
| RemoveZeroThickness.SubstituteCounting | remove_zero_thickness.py:47-63 | the substitution text together with `thin_count`, which is the number of thin matches |
| RemoveZeroThickness.AddStrokeToThinPaths | remove_zero_thickness.py:37-63 | the rewritten text and the count of thin matches |
| RemoveZeroThickness.SubstitutedPieces | remove_zero_thickness.py:51-63 | the output is the pieces' texts after a thin match becomes its stroked form with the same `d`, every other piece keeping its text |
| RemoveZeroThickness.NoThinUnchanged | remove_zero_thickness.py:55-57 | with no thin match the text comes back unchanged |
| RemoveZeroThickness.ZeroThresholdUnchanged | remove_zero_thickness.py:31-34 | at a threshold of zero or less nothing is thin, the text is unchanged and nothing is counted |
| RemoveEnclosed.BoundaryPaths | remove_enclosed.py:41-51 | the `d` of every white path tag in the boundary-interior mask that has one, in order; empty without that mask |
| RemoveEnclosed.SubtractionMask | remove_enclosed.py:75-84 | the inversion mask, then every boundary path in black with the even-odd rule |
| RemoveEnclosed.NoBoundaryIsInversion | remove_enclosed.py:82-84 | with no boundary path the mask is the plain inversion mask |
| RemoveEnclosed.RemoveEnclosedFromInverted | remove_enclosed.py:22-90 | a viewBox that does not read is the only error; otherwise the canvas (or 0 0 100 100) and the subtraction mask |
| ExtractPathsFromSvg.LocalNameOfTag | extract_paths_from_svg.py:29-31 | stripping the namespace gives back the local name of every well-formed tag |
| ExtractPathsFromSvg.DefsAndStyles | extract_paths_from_svg.py:19-24 | the root's own `defs` and `style` children, in their order among the children |
| ExtractPathsFromSvg.DefsAndStylesExact | extract_paths_from_svg.py:19-24 | exactly the top-level `defs` and `style` children are kept, and only those |
| ExtractPathsFromSvg.FindPaths | extract_paths_from_svg.py:27-38 | find_paths appends exactly the bare paths below the parent in pre-order, and nothing else changes |
| ExtractPathsFromSvg.CopyDefsAndStyles | extract_paths_from_svg.py:19-24 | the loop appends exactly the top-level `defs` and `style` children |
| ExtractPathsFromSvg.ExtractAllPaths | extract_paths_from_svg.py:16-38 | the new root has the input root's tag and attributes, then its `defs` and `style` children, then every path in pre-order |
| ExtractPathsFromSvg.CollectedAreBarePaths | extract_paths_from_svg.py:34-35 | every element collected is a path with no children |
| ExtractPathsFromSvg.EveryPathCollected | extract_paths_from_svg.py:27-38 | every path element at any depth has its bare copy collected |
| AnalyzePaths.Measure | analyze_paths.py:36-38 | the width and height are the path's dimensions, and the key is the smaller of the two, never negative |
| AnalyzePaths.MeasureAll | analyze_paths.py:34-38 | a new array holding one measurement per path, in order |
| AnalyzePaths.SortByMin | analyze_paths.py:41 | in place: sorted by the smaller side, and a permutation of the measurements |
| AnalyzePaths.Histogram | analyze_paths.py:49-52 | one count per consecutive pair of range ends, of the entries in the half-open range |
| AnalyzePaths.HistogramCovers | analyze_paths.py:49-52 | for ascending ends, the range counts add up to the count of entries in `[first, last)`: each entry there is counted once |
| AnalyzePaths.BucketsCoverAll | analyze_paths.py:49-54 | the nine range counts and the count of at least 2.0 add up to the number of entries |
| AnalyzePaths.BucketsDisjoint | analyze_paths.py:49-54 | no measurement lies in two ranges, nor in a range and at or above 2.0 |
| AnalyzePaths.AnalyzePaths | analyze_paths.py:31-54 | the sorted entries are the measurements of the paths, in non-decreasing order of the smaller side, and the counts cover every path once |
| AnalyzePaths.MeasuredNonNegative | analyze_paths.py:12-25 | no measurement has a negative smaller side |

## Left out

- File reading and writing, `print`, `argparse` and `main` are not modelled. The scripts' `print`
  diagnostics carry no results.
- The regular-expression scans over whole documents are not modelled, and neither is
  ElementTree's parser. What they extract (attribute texts, path and circle matches, `use` and
  `defs` groups, mask splits, element trees) is taken as given. Only the number scanners inside
  attribute values are modelled character by character.
- Floating point is not modelled. Numbers are reals, and overflow, inf and nan do not arise.
  `.6f` formatting rounds the real half-to-even, and `round()` is half-to-even on reals.
  `math.hypot` is compared through squared lengths, which is the same test on reals.
- `float()` on `inf`, `nan`, underscores and non-ASCII digits is not modelled. Where a script
  only passes a number along, `float()` and `str()` are the parameters `read` and `show`, and
  filter_thin_paths.py's `str()` of its two counts is the parameter `digits`.
- Whitespace is the six ASCII whitespace characters. Python's `str.strip`, `str.split` and `\s`
  also take Unicode spaces, which are not modelled.
- test.py: `build_mask`, `main` and the PIL calls (`draw_rect`, `draw_circle`, `draw_ellipse`,
  `draw_line`, `Image.eval`, `save`) are not modelled. They hand shapes to a rasteriser; only the
  point lists handed to `draw.polygon` and `draw.line` are modelled.
- The namespace strip is `ExtractPathsFromSvg.LocalName`, in test.py's `strip_ns` and in the
  inline `tag.split('}', 1)[1]` of extract_paths_from_svg.py:22 and 31 and cut_svg.py:77 and
  160. The IndexError of a tag that starts with '{' but has no '}' is its None, which `Named`
  never matches, so such an element counts as no path, rect or group. ElementTree never produces
  such a tag: it writes a namespaced tag as `{uri}local`.
- cut_svg.py: `points_to_path_d`, `expand_polygon_points` and `parse_polygon_points` are not
  modelled. They are defined and never called.
- CutSvg.ExtractShapes and CutSvg.SplitBy take the rect test and the path test as parameters.
  `CutSvg.SplitSvgObjects` supplies the script's own tests.
- AnalyzePaths.SortByMin: the sort is stated as sorted and a permutation. Python's sort is also
  stable, and that is not stated.
- The rendered meaning of a mask (which pixels a non-zero or even-odd fill shows) is not
  modelled; only the ordered entry lists are.
- main.py is not part of this model; it wraps pygerber and `svg.path`, outside libraries.
- remove_enclosed_raster.py is not part of this model; it is cairosvg rendering and numpy/PIL
  pixel work.
- test_extract.py and test_boundary_paths.py are not part of this model. They are diagnostic
  copies of the extraction in remove_enclosed.py:41-51.
