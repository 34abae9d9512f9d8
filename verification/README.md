# BotOS: verified models of its core algorithms

BotOS is a small operating environment in C: a desktop with its own window manager, a paint program, an
editor, a terminal, a shell and a package manager, on a software canvas. Most of it is user interface and
plumbing, but inside it are several self-contained algorithms and state machines with hard properties. This
project models those, one module per component, and proves what they are for:

- **Bucket fill** (`FloodFill`): the scanline fill recolours exactly the 4-connected component of the seed's colour.
- **Lines and circles** (`BotCanvas`, `CanvasLine`, `CanvasCircle`): what is drawn, pixel by pixel and for every
  colour, is a closed form: the digital line nearest to the true line, the rounded circle, the disc it encloses.
- **Dependency resolver** (`Graphs`, `Resolver`): the three-colour search succeeds exactly on acyclic graphs with at
  most 64 reachable packages, and then returns a dependencies-first order of exactly those.
- **Installing and removing** (`PackageManager`): when the installed set stays closed under dependencies, and exactly
  when it does not.
- **Manifests** (`ManifestFormat`, `Manifest`, `ManifestRoundTrip`, `ManifestArrays`): reading back a written manifest,
  and for every text exactly when reading its array ends.
- **SHA-256** (`Fips180`, `Fips180Facts`, `Fips180Example`, `Sha256`): the streaming hash equals the one of FIPS 180-4 for every way of
  cutting a message into updates.
- **Shell parser** (`ShellGrammar`, `ShellExpansion`, `ShellParser`, `ShellSpelling`, `ShellRoundTrip`, `ShellSpacing`): the
  tokenizer that rewrites the line it is reading computes a function of the line it was given, and that function reads
  every pipeline back however its words are written.
- **Pipelines** (`PipelineWiring`): who holds which pipe end after the last fork and on every failure path.
- **Editor** (`Editor`, `EditorFiles`): the array of rows with its cursor is a flat text with a gap; loading and saving.
- **Terminal** (`Terminal`, `TerminalLaws`): grid and scrollback are a window on a terminal that never forgets a row, and
  what output does to that terminal.
- **Window manager** (`WindowManager`): the slot table's invariant over every event, and cycling the focus.

Each component has two faces. Functions say what is computed: a picture, an order, a parsed pipeline, a digest.
Methods take the form of the C code, with its loops, in-place writes and branches, and are proved to compute those
functions; lemmas prove what the functions mean. `Arithmetic` and `CStrings` hold what several modules share.

Where the code does not do what its comments say or what it is for, the model follows the code:

- `next_token` says that an unquoted token stops at a pipe, a redirection or an ampersand
  (`shell/src/parser.c:178`), but such a token is not terminated there (`shell/src/parser.c:240-241`): in `ls|wc` the
  first word is `ls|wc`, and the pipe is then read again. `ShellSpacing.TypedLine` gives the exact pipeline read from
  any line of unquoted words, and `ShellSpacing.ReadAsMeant` proves that it is the pipeline meant if and only if a
  space stands between every word and an operator after it.
- `json_find_key` says it checks that a match is a key by what precedes it (`services/botpkg/src/manifest.c:100`); it only
  looks for a colon after it. Values spelled like keys are still told apart in text the writer produced
  (`ManifestRoundTrip.RoundTrip`).
- The loop over a JSON array moves only on strings and on commas and spaces; anything else, such as the number of
  `[1]` or the rest of a string of more than 63 characters, leaves it in place for ever, and the model reports `Stuck`.
  `ManifestArrays.ArrayLoopEnds` says for every text when it ends, `ManifestRoundTrip.ArrayReadEnds` for written
  manifests, and `ManifestArrays.OtherElementSticks` gives manifests that are never parsed to the end.
- The writer of manifests allocates room for fields of 402 bytes together, but the fields can hold 476:
  `ManifestRoundTrip.FitsExactly` gives the exact condition, `ManifestRoundTrip.FullPackageOverflows` a package that
  fails it.
- The database is not always closed under dependencies. `PackageManager.InstallClosedExactly` and
  `PackageManager.RemoveClosedExactly` give the exact conditions. Two failures need no more than the program itself: a
  dependency whose archive does not arrive (`PackageManager.UndeliveredDependency`), since the loop goes on with the
  dependents, and a dependent whose name starts with a dot, which a removal overlooks
  (`PackageManager.OverlookedDependent`). A third, that a removed package is still remembered as installed, needs a
  caller that removes and installs in one process (`PackageManager.RemoveThenInstall`), which the command line does not.
- A stage of a pipeline loses a standard descriptor when the shell itself runs without one: the pipe end then lands on
  that number and is closed after it was duplicated onto itself. `PipelineWiring.Shell.RunPipeline` gives the condition.
- A frame fits its client as long as clients change their size only through the window manager; it ignores the
  notification of any other change (`WindowManager.Manager.ClientResize`).

## Model

| member | source | states |
|---|---|---|
| BotCanvas.Canvas.constructor | sdk/botui/src/canvas.c:137-155 | a fresh canvas shows colour 0 at every point |
| BotCanvas.Canvas.Store | sdk/botui/src/canvas.c:80-83 | writing the array word of one point changes the picture at that point and at no other: the row-major index is injective |
| BotCanvas.Canvas.PutPixel | sdk/botui/src/canvas.c:76-89 | the point is composited once if it is on the canvas; everything else, and everything when it is off the canvas, is unchanged |
| BotCanvas.Canvas.HLine | sdk/botui/src/canvas.c:94-113 | exactly the points of the row between the two ends, given in either order and clipped, are composited once |
| BotCanvas.Canvas.VLine | sdk/botui/src/canvas.c:118-133 | the same for a column |
| BotCanvas.PixelBlends | sdk/botui/src/canvas.c:50-89 | a clear colour leaves the pixel, an opaque one replaces it, and any other makes it opaque with red, green and blue each the mean of what is drawn and what was there, weighted alpha to 255 minus alpha and rounded down; no other pixel changes |
| CanvasLine.DrawLine | sdk/botui/src/canvas.c:192-218 | for all end points the loop ends and every point of the closed-form line is composited exactly once, nothing else changes; the axis-aligned fast paths draw the same line |
| CanvasLine.ErrorStep | sdk/botui/src/canvas.c:205-217 | the error term has the closed form dx - dy plus what rounding added, and its two tests move to the next point of the line and no other |
| CanvasLine.NearestStep | sdk/botui/src/canvas.c:214-216 | the rounding rest stays within half the longer extent, and deciding on its sign keeps rounding to nearest |
| CanvasLine.LineEnds | sdk/botui/src/canvas.c:209-212 | the line starts at its first end and is at its second end after exactly max(abs dx, abs dy) steps |
| CanvasLine.LineConnected | sdk/botui/src/canvas.c:214-216 | consecutive points are 8-neighbours, one apart along the longer axis |
| CanvasLine.LineHalfPixel | sdk/botui/src/canvas.c:203-217 | every point lies within half a pixel of the true line, measured across the longer axis |
| CanvasLine.LineNearest | sdk/botui/src/canvas.c:203-217 | no other pixel of the same column (row, for a steep line) is nearer to the true line |
| CanvasLine.OnLineIsWalk | sdk/botui/src/canvas.c:209-217 | the point set that is drawn is the walk of the closed form, both ways |
| CanvasLine.AxisAligned | sdk/botui/src/canvas.c:197-199 | for horizontal and vertical lines the closed form is the whole span between the ends |
| CanvasCircle.OctantStep | sdk/botui/src/canvas.c:293-302 | the decision value keeps its closed form d = (y+1)^2 + x^2 - x - r^2, and x stays the nearest integer to the root of r^2 - y^2 |
| CanvasCircle.OctantRow | sdk/botui/src/canvas.c:281-291 | on the current octant row the walk's x is the one pixel of the rounded circle |
| CanvasCircle.OctantEnd | sdk/botui/src/canvas.c:281 | when the loop stops no pixel of the circle is left |
| CanvasCircle.EightAdd | sdk/botui/src/canvas.c:281-291 | the eight symmetric writes of one pass are all the circle has on that octant row, doubled ones included |
| CanvasCircle.DrawCircle | sdk/botui/src/canvas.c:271-304 | for every colour, centre and radius: each pixel of the rounded circle is composited, twice on the axes and diagonals and once elsewhere, and nothing else |
| CanvasCircle.FillCircle | sdk/botui/src/canvas.c:321-345 | for every colour, centre and radius each pixel is composited exactly as often as the closed form says: for the wide span of its row, twice on the centre's row, and once for each steep circle pixel of the row from it outwards |
| CanvasCircle.SpansAdd | sdk/botui/src/canvas.c:327-332 | the four spans of one pass are exactly what the closed form has more for that octant row |
| CanvasCircle.TimesFilledMeans | sdk/botui/src/canvas.c:321-345 | exactly the offsets of the disc are composited at all |
| CanvasCircle.OpaqueDisc | sdk/botui/src/canvas.c:321-345 | an opaque colour fills exactly the disc; with any colour nothing outside it changes |
| CanvasCircle.DiscRowIsHull | sdk/botui/src/canvas.c:328-331 | on every row the disc is the span between the outermost pixels the outline plots there |
| CanvasCircle.CircleMeetsRow | sdk/botui/src/canvas.c:281-302 | every row within the radius has a circle pixel, at the rounded height of the true circle |
| CanvasCircle.CircleRadius | sdk/botui/src/canvas.c:281-302 | every plotted offset has a squared distance within r of r^2 |
| CanvasCircle.TrueDiscInDisc | sdk/botui/src/canvas.c:321-345 | the filled disc holds every pixel of the true disc |
| CanvasCircle.DiscIsRound | sdk/botui/src/canvas.c:321-345 | it holds no pixel beyond the radius, nor any with squared distance above r^2 + r |
| FloodFill.Fill | apps/botpaint/src/botpaint.c:352-391 | for every canvas, seed and colour the fill ends without overrunning its stack and leaves exactly the seed's 4-connected component recoloured |
| FloodFill.ScanRun | apps/botpaint/src/botpaint.c:373-375 | the run found is maximal and of the target colour throughout |
| FloodFill.PaintRun | apps/botpaint/src/botpaint.c:377 | exactly the run is recoloured |
| FloodFill.PushNeighbours | apps/botpaint/src/botpaint.c:379-388 | exactly the target-coloured points right above and below the run are pushed; the stack grows before it can overflow and keeps its entries |
| FloodFill.Grow | apps/botpaint/src/botpaint.c:380-385 | the larger stack holds the old entries |
| FloodFill.InvRun | apps/botpaint/src/botpaint.c:373-388 | one pass keeps the invariant: recoloured points lie in the component, and each component point next to one is recoloured or waiting |
| FloodFill.InvInBounds | apps/botpaint/src/botpaint.c:370 | the bounds check on a popped entry never fires |
| FloodFill.InvDone | apps/botpaint/src/botpaint.c:368 | with an empty stack the component is complete |
| FloodFill.ClosedHoldsComponent | apps/botpaint/src/botpaint.c:352-391 | a set of points closed under same-coloured neighbours holds every point a path of that colour reaches |
| FloodFill.TargetShrinks | apps/botpaint/src/botpaint.c:377 | every pass that paints leaves fewer target-coloured points |
| Resolver.Resolve | services/botpkg/src/resolver.c:275-342 | succeeds if and only if no cycle is reachable and at most 64 packages are; the result holds exactly the reachable packages, once each, dependencies first, the root last |
| Resolver.DfsState.Visit | services/botpkg/src/resolver.c:194-241 | ends on every graph, also an infinite one; GRAY nodes are exactly the current path, BLACK ones the output; failing means cycle_to lies on a real cycle or 65 packages are reachable |
| Resolver.DfsState.VisitAll | services/botpkg/src/resolver.c:222-230 | the dependency loop leaves all dependencies in the output or reports a failure that is real |
| Resolver.DfsState.GetNode | services/botpkg/src/resolver.c:94-116 | an existing node is found; a new one is appended WHITE under its name cut to 63 characters; the full table is reported and unchanged |
| Resolver.DfsState.Emit | services/botpkg/src/resolver.c:121-133 | the name is appended unless present or the output is full |
| Resolver.Leave | services/botpkg/src/resolver.c:234-238 | emitting a node whose dependencies are out keeps the output a dependencies-first order; the output is never full then and never holds the name yet |
| Resolver.PathCycle | services/botpkg/src/resolver.c:206-214 | meeting a GRAY node closes a cycle through it |
| Resolver.TableFull | services/botpkg/src/resolver.c:105-108 | a full table and a new name are 65 distinct reachable packages |
| Resolver.SuccessExplained | services/botpkg/src/resolver.c:294-333 | a completed search is a valid install order, and one exists only for acyclic graphs within the limit |
| Resolver.WalkFalls | services/botpkg/src/resolver.c:234-238 | along dependency edges positions in a dependencies-first order strictly fall |
| Resolver.OrderSuffices | services/botpkg/src/resolver.c:275-342 | whenever some dependencies-first order of at most 64 packages covers the root, resolving succeeds |
| PackageManager.Manager.IsInstalled | services/botpkg/src/resolver.c:245-273 | remembered or in the database; memory only grows, and only by installed names |
| PackageManager.Manager.Install | services/botpkg/src/botpkg.c:208-361 | succeeds exactly when the name is not empty and resolving succeeds; the database is then what the loop registers over a valid install order, otherwise it is untouched |
| PackageManager.Manager.InstallLoop | services/botpkg/src/botpkg.c:252-354 | the loop registers, in order, what is neither remembered nor in the database, arrives, has the declared checksum if one is declared, and can be written; it goes on after every failure |
| PackageManager.Manager.CountMissing | services/botpkg/src/botpkg.c:226-231 | zero exactly when everything in the plan is installed |
| PackageManager.InstallAllSees | services/botpkg/src/botpkg.c:226-257 | asking about installed packages while planning does not change what the loop does |
| PackageManager.InstallAllIs | services/botpkg/src/botpkg.c:252-354 | after the loop the database holds what it held, unchanged, and exactly the new delivered packages of the order |
| PackageManager.InstalledExactly | services/botpkg/src/botpkg.c:252-354 | in terms of the repository alone: a new package is registered if and only if its archive is not lost, it can be written and, where the manifest declares a checksum, the archive has it; the entry holds the fields of the manifest, 0.0.0 for a missing version, and no dependencies where the manifest has no name |
| PackageManager.InstalledWithout | services/botpkg/src/botpkg.c:272-305 | without a manifest the archive is not checked and a placeholder of version 0.0.0 without dependencies is stored |
| PackageManager.InstalledBefore | services/botpkg/src/botpkg.c:253-257 | what is installed or remembered is left as it is, and nothing outside the order appears |
| PackageManager.InstallClosedExactly | services/botpkg/src/botpkg.c:252-354 | the loop keeps the database closed under dependencies if and only if every dependency of a package it registers is installed before or arrives too |
| PackageManager.InstallClosedThroughout | services/botpkg/src/botpkg.c:252-354 | then it is closed after every single pass |
| PackageManager.OnePassClosed | services/botpkg/src/botpkg.c:252-354 | for every manifest, also one under another name: a pass keeps a closed database closed if and only if what it registers finds its dependencies there or is itself one |
| PackageManager.ThroughoutExactly | services/botpkg/src/botpkg.c:252-354 | for every repository the database is closed after every pass if and only if every pass finds what it needs |
| PackageManager.DeliveredThroughout | services/botpkg/src/botpkg.c:208-361 | with everything delivered and nothing wrongly remembered the database is closed after every pass of an installation |
| PackageManager.InstallTheorem | services/botpkg/src/botpkg.c:208-361 | for every resolved name the exact condition for a closed database; with everything delivered and nothing wrongly remembered it holds, and the package and all it needs are installed |
| PackageManager.ResolvesDependencies | services/botpkg/src/resolver.c:135-192 | what is resolved for a name are its dependencies in the database, or else in its manifest |
| PackageManager.LongRootDependencies | services/botpkg/src/resolver.c:94-116 | a root of more than 63 characters is resolved under its first 63 with the dependencies of the full name |
| PackageManager.UndeliveredDependency | services/botpkg/src/botpkg.c:318-322 | a run in which the archive of a dependency does not arrive ends with the dependent installed and the dependency missing |
| PackageManager.OverlookedDependent | services/botpkg/src/botpkg.c:142 | a run in which a removal succeeds although an installed package, whose name starts with a dot, needs the package |
| PackageManager.RemoveThenInstall | services/botpkg/src/resolver.c:249-251 | a run of two library calls in one process, removing a package and installing a dependent of it, that ends with a missing dependency |
| PackageManager.Manager.FindReverseDep | services/botpkg/src/botpkg.c:133-166 | an answer names an entry whose name is empty or does not start with a dot and that needs the name; no answer means there is none |
| PackageManager.Manager.Remove | services/botpkg/src/botpkg.c:363-394 | succeeds exactly when the package is believed installed and no entry whose name is empty or starts with anything but a dot needs it; then exactly its entry is gone, otherwise nothing changes; a closed database without names that start with a dot stays closed |
| PackageManager.RemoveClosedExactly | services/botpkg/src/botpkg.c:133-166 | a successful removal keeps the database closed if and only if no entry whose name starts with a dot needs the package |
| ManifestRoundTrip.RoundTrip | services/botpkg/src/manifest.c:201-297 | for every package in text without quotes and backslashes: parsing its written text gives it back, even when values are spelled like keys, if and only if it has a name and a version and every field and the dependency list fit their places |
| ManifestRoundTrip.WrittenReadsAs | services/botpkg/src/manifest.c:201-254 | every such package, whatever its lengths: a missing name is an error; otherwise each field is cut to 63, 31, 255, 63 and 64 characters, the dependencies to 32, and a missing version is read as 0.0.0 |
| ManifestRoundTrip.WrittenReadsBack | services/botpkg/src/manifest.c:256-297 | every storable package whose text fits by the exact condition is written whole and reads back unchanged |
| ManifestRoundTrip.Fits | services/botpkg/src/manifest.c:260-266 | 512 bytes and 80 per dependency suffice, whatever the dependencies, for five fields of at most 402 bytes together |
| ManifestRoundTrip.FitsExactly | services/botpkg/src/manifest.c:260-294 | the text and its terminator fit the buffer if and only if fields and dependencies together stay below a bound that grows by 72 bytes a dependency |
| ManifestRoundTrip.FullPackageOverflows | services/botpkg/src/manifest.c:260-283 | a package whose fields are all within their sizes and whose text does not fit |
| ManifestRoundTrip.GetsField | services/botpkg/src/manifest.c:92-128 | each field is read back from among all the others, cut to its place, whatever their values |
| ManifestRoundTrip.FindPassesValue | services/botpkg/src/manifest.c:99-112 | a value that spells a key is passed over, for no colon follows it |
| ManifestRoundTrip.ReadsItems | services/botpkg/src/manifest.c:134-157 | a written dependency array is read back item by item, as many as there is room for |
| ManifestRoundTrip.LongItemSticks | services/botpkg/src/manifest.c:143-154 | a written item of more than 63 characters whose 64th is no space, comma or bracket leaves the loop where it can never move again, unless and only unless it took the last place |
| ManifestRoundTrip.ArrayReadEnds | services/botpkg/src/manifest.c:134-157 | reading back any number of written names of that kind ends if and only if each name before the last place has at most 63 characters |
| ManifestArrays.ArrayLoopEnds | services/botpkg/src/manifest.c:134-157 | for every text after an opening bracket the loop ends if and only if the text is made of spaces, commas and strings, closed or cut at 63 characters or by the end, up to the end, a closing bracket or the last place; then the items are what those strings stand for |
| ManifestArrays.StringMeans | services/botpkg/src/manifest.c:58-86 | every closed string: a backslash makes n a line break, t a tab and r a carriage return and goes away before anything else; as many characters are kept as fit |
| ManifestArrays.ParseEnds | services/botpkg/src/manifest.c:201-254 | for every text parsing never ends exactly when there is a name and a dependency array that is not so made |
| ManifestArrays.OtherElementSticks | services/botpkg/src/manifest.c:143-154 | a named manifest whose array starts with a number, a brace or anything else that is none of these is never parsed to the end |
| Manifest.ReadStringAt | services/botpkg/src/manifest.c:58-86 | the position loop reads exactly the unescaped characters there is room for and stops where the format says |
| Manifest.FindKeyAt | services/botpkg/src/manifest.c:92-115 | the search ends on every text and finds the value of the first quoted key that a colon follows, or none |
| Manifest.GetStringOf | services/botpkg/src/manifest.c:120-128 | the string of a key, or nothing when there is no such string |
| Manifest.GetArrayOf | services/botpkg/src/manifest.c:134-157 | the items the loop collects, or that it gets stuck, for every text |
| Manifest.ParseString | services/botpkg/src/manifest.c:201-254 | all fields, the default version, the missing name and the loop that never ends, as the format's functions give them |
| Manifest.Write | services/botpkg/src/manifest.c:256-297 | the piecewise writer produces the manifest text whenever it fits what was allocated |
| Sha256.Context.constructor | services/botpkg/src/sha256.c:67-77 | a new context has hashed the empty message |
| Sha256.Context.ProcessBlock | services/botpkg/src/sha256.c:33-65 | the in-place loops are the compression function of FIPS 180-4 section 6.2.2 on the buffered block |
| Sha256.BuildSchedule | services/botpkg/src/sha256.c:35-46 | all 64 words of the message schedule |
| Sha256.RunRounds | services/botpkg/src/sha256.c:48-61 | the shifted working variables after 64 rounds |
| Sha256.Context.Update | services/botpkg/src/sha256.c:79-95 | the message grows by exactly the data, and between calls the state is the fold over the whole blocks, the buffer the remainder, the counter the bits of the blocks |
| Sha256.Context.PadTo56 | services/botpkg/src/sha256.c:106-113 | the padding loop ends, after exactly the number of zero bytes the standard asks for |
| Sha256.Context.Final | services/botpkg/src/sha256.c:97-127 | the digest is that of FIPS 180-4 of everything hashed since the start |
| Sha256.HashChunks | services/botpkg/src/sha256.c:139-163 | hashing chunk by chunk, as a file is read, gives the digest of the concatenation, for every way of cutting |
| Sha256.PadDistance | services/botpkg/src/sha256.c:110-113 | the buffer holds 56 bytes after the standard's number of zeros and not before |
| Sha256.TotalBits | services/botpkg/src/sha256.c:102 | the 64-bit counter and the buffer together give the message length in bits, modulo 2^64 |
| Sha256.ByteAtBigEndian | services/botpkg/src/sha256.c:115-118 | byte by byte the length field is the big-endian number |
| Sha256.HashOneMore | services/botpkg/src/sha256.c:89-93 | the chained hash of one block more is one compression more |
| Fips180Facts.RoundConstantsAreCubeRoots | services/botpkg/src/sha256.c:14-25 | each constant is the first 32 bits of the fractional part of the cube root of its prime |
| Fips180Facts.InitialWordsAreSquareRoots | services/botpkg/src/sha256.c:69-74 | each initial word is the first 32 bits of the fractional part of a square root |
| Fips180Facts.PadIsStandard | services/botpkg/src/sha256.c:104-113 | counted in bits the padding is the smallest solution of section 5.1.1 |
| Fips180Facts.BigEndianValue | services/botpkg/src/sha256.c:115-118 | big-endian bytes denote the number they were made of whenever it fits them |
| Fips180Facts.PadEndsInLength | services/botpkg/src/sha256.c:115-119 | the last eight bytes of the padded message denote its length in bits, modulo 2^64 |
| Fips180Facts.ChChooses | services/botpkg/src/sha256.c:53 | Ch takes the bits of its second word where the first is set and those of the third elsewhere |
| Fips180Facts.MajIsMajority | services/botpkg/src/sha256.c:56 | Maj is what any two of its three words agree on, bit by bit |
| Fips180Facts.BigSigma0Sums | services/botpkg/src/sha256.c:55 | a bitwise sum over positions, with bit 0 going to bits 30, 19 and 10 |
| Fips180Facts.BigSigma1Sums | services/botpkg/src/sha256.c:52 | a bitwise sum over positions, with bit 0 going to bits 26, 21 and 7 |
| Fips180Facts.SmallSigma0Sums | services/botpkg/src/sha256.c:43 | a bitwise sum over positions, with bit 0 going to bits 25 and 14, bit 31 to 24, 13 and 28 |
| Fips180Facts.SmallSigma1Sums | services/botpkg/src/sha256.c:44 | a bitwise sum over positions, with bit 0 going to bits 15 and 13, bit 31 to 14, 12 and 21 |
| Fips180Facts.WordOfBytes | services/botpkg/src/sha256.c:36-41 | a schedule word is its four bytes, the first the most significant |
| Fips180Example.AbcDigest | tests/test_botpkg.c:68-77 | the digest of the message abc is the one published with the standard: schedule, rounds, constants, padding and output are wired as they should be |
| ShellParser.ParseInPlace | shell/src/parser.c:320-398 | for every line and every environment: it ends, every index is in bounds, and although it overwrites the line it returns the parse of the line it was given; a success has 1 to 8 commands of 1 to 63 arguments |
| ShellParser.StripInPlace | shell/src/parser.c:54-71 | the line is cut at the first hash sign outside quotes that is not escaped |
| ShellParser.UnescapeInPlace | shell/src/parser.c:195-212 | the write position never passes the read position and the unread text is untouched; what is written is the unescaped token |
| ShellParser.ReadDoubleQuoted | shell/src/parser.c:192-214 | the token becomes a C string in place, and reading goes on after the closing quote |
| ShellParser.ReadSingleQuoted | shell/src/parser.c:216-221 | the same for single quotes, without escapes |
| ShellParser.ReadBare | shell/src/parser.c:227-238 | shifting the rest of the line over each backslash leaves the unescaped token followed by the unread text |
| ShellParser.ReadUnquoted | shell/src/parser.c:223-245 | the token that is found, including the text a missing terminator adds to it |
| ShellParser.ReadToken | shell/src/parser.c:185-249 | one token for every unread text, and a strictly shorter unread text unless it stands at an operator or the end |
| ShellParser.ReadRedirections | shell/src/parser.c:253-298 | the whole run of redirections is read and each lands in its slot |
| ShellParser.ReadSegment | shell/src/parser.c:340-384 | one pipeline segment up to its pipe, with a strictly shorter line left |
| ShellGrammar.ParseLineLimits | shell/src/parser.c:335-398 | a successful parse of any line has 1 to 8 commands with 1 to 63 arguments each |
| ShellSpelling.QuotedEnds | shell/src/parser.c:192-214 | every double-quoted text: a backslash makes n a line break and t a tab and goes away before anything else; the word ends at its quote or with the line, and a lone backslash at the end stays |
| ShellSpelling.SingleEnds | shell/src/parser.c:216-221 | a single-quoted text is read as it stands up to its quote or the end of the line |
| ShellSpelling.UnquotedEnds | shell/src/parser.c:223-245 | a bare word loses its backslashes and keeps what they escape; it ends at each of the six blanks, which is dropped, or with the line |
| ShellSpelling.TokenRead | shell/src/parser.c:185-249 | however a word is written, and whatever follows it, the tokenizer reads what it means and then what follows |
| ShellSpelling.QuoteMeans | shell/src/parser.c:192-214 | every word can be written in double quotes, with line breaks and tabs as they are or as escapes |
| ShellSpelling.CommentCut | shell/src/parser.c:54-71 | a line ends at a hash sign outside quotes that no backslash precedes |
| ShellSpelling.BlankLine | shell/src/parser.c:320-334 | a line of blanks, with or without a comment, holds no command |
| ShellExpansion.WordExpands | shell/src/parser.c:80-147 | in every environment each variable of a word, in its three forms, is replaced by its value or by nothing, escaped dollar signs lose their backslash, the rest stands, and the result is cut at 4095 characters; values are not expanded again |
| ShellExpansion.HomeExpands | shell/src/parser.c:154-169 | a tilde alone or before a slash is HOME, or /root without it, in which variables are then expanded too |
| ShellExpansion.OtherTildes | shell/src/parser.c:154-169 | any other tilde, and a word without dollar signs, is left alone |
| ShellExpansion.TildeInPlace | shell/src/parser.c:154-169 | what is left in the shared buffer, or that the word stays where it is |
| ShellExpansion.VariablesInPlace | shell/src/parser.c:80-147 | the same also when the word stands in the buffer it is expanded into |
| ShellExpansion.ExpandToken | shell/src/parser.c:374-379 | tilde first, then variables, then the duplicate of what they leave |
| ShellRoundTrip.RoundTrip | shell/src/parser.c:320-398 | for every pipeline and every way of writing each of its words, in double quotes, in single quotes or bare with backslashes: the line parses to the pipeline meant, with arguments expanded, the first 63 arguments of each command and the first eight commands kept |
| ShellRoundTrip.CommentedRoundTrip | shell/src/parser.c:54-71 | and so it does with any comment after it |
| ShellRoundTrip.QuotedRoundTrip | shell/src/parser.c:320-398 | every pipeline of 1 to 8 commands with 1 to 63 arguments, redirections and background marks, printed in double quotes with line breaks and tabs as they are or as escapes, parses to itself with its arguments expanded |
| ShellRoundTrip.PlainRoundTrip | shell/src/parser.c:320-398 | without a dollar sign in or a tilde before an argument it parses to exactly itself, in every environment |
| ShellRoundTrip.PassesPipeline | shell/src/parser.c:54-71 | comment stripping leaves printed text alone, quoted and escaped hash signs included |
| ShellRoundTrip.SegmentCommand | shell/src/parser.c:340-384 | a printed command is read back with all three redirections and its background mark |
| ShellRoundTrip.UnquotedDelimited | shell/src/parser.c:227-245 | an unquoted word is read as itself if and only if no operator stands directly after it |
| ShellRoundTrip.WordRunsOn | shell/src/parser.c:240-241 | a word directly before an operator is read together with all that follows; with a space between it is not |
| ShellSpacing.TypedLine | shell/src/parser.c:185-398 | for every line of up to 8 commands of unquoted words, with or without spaces before its operators, the exact pipeline that is read: words that run into an operator take all that follows with them, and a 2 before > becomes the operator of standard error |
| ShellSpacing.ReadAsMeant | shell/src/parser.c:223-245 | such a line is read as the pipeline it means if and only if a space stands between every word and an operator after it |
| ShellSpacing.SegmentMeant | shell/src/parser.c:340-384 | the same for one command and its redirections |
| PipelineWiring.Shell.RunPipeline | shell/src/executor.c:221-340 | it fails exactly when the first failing call says so, and on every return path the shell has the table it started with; when it succeeds all stages run with exactly the wired tables if and only if there is one stage or the shell has standard input and output open |
| PipelineWiring.Shell.RunStage | shell/src/executor.c:244-336 | between stages the shell holds one pipe descriptor, the read end for the next stage |
| PipelineWiring.Shell.ChildTable | shell/src/executor.c:280-296 | dup2 and close leave the child with the wired standard descriptors and no other pipe end when the shell has both open; an end that landed on a standard number is lost |
| PipelineWiring.Shell.Pipe | shell/src/executor.c:248-255 | the two lowest descriptors the shell does not have open |
| PipelineWiring.Shell.SafeClose | shell/src/executor.c:146-152 | exactly this descriptor goes, and the variable forgets it |
| PipelineWiring.EndsHeldOnce | shell/src/executor.c:280-296 | each write end is held only as its stage's descriptor 1, each read end only as the next stage's descriptor 0; everything else is what the shell had there, and nothing is lost |
| Editor.InsertRefines | apps/editor/src/editor.c:224-233 | typing is insertion at the cursor of the flat text, unless the line is full |
| Editor.BreakRefines | apps/editor/src/editor.c:255-266 | Enter inserts a line break, unless the buffer is full |
| Editor.DeleteRefines | apps/editor/src/editor.c:235-253 | backspace removes the character before the cursor; nothing else is lost if and only if the joined line fits |
| Editor.JoinKeeps | apps/editor/src/editor.c:240-251 | of two joined lines exactly the first 511 characters stay |
| Editor.BackspaceUndoesInsert | apps/editor/src/editor.c:224-253 | backspace undoes a typed character if and only if the line was not full or there was nothing to delete |
| Editor.BackspaceUndoesEnter | apps/editor/src/editor.c:235-266 | backspace undoes Enter if and only if the buffer was not full or there was nothing to delete |
| Editor.RepeatRefines | apps/editor/src/editor.c:379-382 | a character typed n times, as four spaces for Tab, is inserted as often as the line has room for it, up to 510 characters |
| Editor.ClampedNearest | apps/editor/src/editor.c:211-222 | the cursor comes to stand in the nearest row and on the nearest position of that row; no line changes |
| Editor.SidesAreText | apps/editor/src/editor.c:198-199 | the two sides of the cursor make up the file as it is saved |
| Editor.TextDetermines | apps/editor/src/editor.c:198-199 | the saved text determines the lines |
| Editor.BufferDetermined | apps/editor/src/editor.c:46-50 | two buffers with the same text on both sides of the cursor are the same |
| Editor.TextEditor.InsertChar | apps/editor/src/editor.c:224-233 | the whole new buffer, which stays well formed |
| Editor.TextEditor.InsertNewline | apps/editor/src/editor.c:255-266 | the whole new buffer, which stays well formed |
| Editor.TextEditor.DeleteChar | apps/editor/src/editor.c:235-253 | the whole new buffer, which stays well formed |
| Editor.TextEditor.ClampCursor | apps/editor/src/editor.c:211-222 | the cursor goes to the nearest position it may stand on, and its row is visible |
| Editor.TextEditor.OnKey | apps/editor/src/editor.c:345-390 | every editing or moving key keeps the buffer well formed and the cursor visible, and does what it says |
| EditorFiles.Load | apps/editor/src/editor.c:157-182 | the rows the read loop produces |
| EditorFiles.LoadWellFormed | apps/editor/src/editor.c:157-182 | loading gives a usable buffer if and only if the file is not empty |
| EditorFiles.SaveLoad | apps/editor/src/editor.c:157-207 | for every buffer of up to 8192 lines loading the saved file gives the same lines if and only if each leaves room for its break and does not end in a carriage return, or the buffer is full and the first that does not leave room is followed by empty lines only |
| Terminal.Screen.WriteChar | apps/botterm/src/botterm.c:107-184 | for every state and character both grids stay the last 25 rows, and both scrollback arrays the newest 1000 rows above them, of one terminal that never forgets: characters and colours never get out of step |
| Terminal.Screen.ScrollGrid | apps/botterm/src/botterm.c:84-105 | scrolling adds one blank row to that terminal and loses nothing but what is over 1000 rows old, in characters and in colours |
| Terminal.Screen.WriteSequence | apps/botterm/src/botterm.c:146-183 | an escape sequence sets colours in order or clears the screen without touching history |
| Terminal.Screen.ClearScreen | apps/botterm/src/botterm.c:169-180 | the screen is blank in the default colour, the cursor at its corner and the history as it was |
| Terminal.Screen.ApplyColors | apps/botterm/src/botterm.c:156-168 | the parameters between semicolons apply in order, empty ones are skipped |
| Terminal.Screen.WriteAll | apps/botterm/src/botterm.c:107-184 | the same for every stretch of output |
| Terminal.Screen.Scroll | apps/botterm/src/botterm.c:281-296 | the view moves by one row within the scrollback |
| Terminal.Screen.Shown | apps/botterm/src/botterm.c:204-219 | at offset k the character and colour drawn are those k rows further up, always in bounds |
| Terminal.ScrollbackHolds | apps/botterm/src/botterm.c:84-96 | the scrollback is what scrolled off, newest last, or the last 1000 rows of it, in characters and in colours |
| Terminal.FeedWellFormed | apps/botterm/src/botterm.c:107-184 | the cursor never leaves the 25 by 80 screen |
| Terminal.FeedAllKeepsHistory | apps/botterm/src/botterm.c:84-105 | no output changes a row that has scrolled off |
| TerminalLaws.LineFeedGoesDown | apps/botterm/src/botterm.c:114-119 | a line feed goes down one row of all that was ever shown and keeps the column; a blank row is added exactly on the last row |
| TerminalLaws.ReturnGoesLeft | apps/botterm/src/botterm.c:120-121 | a carriage return goes to the first column |
| TerminalLaws.BackspaceStepsLeft | apps/botterm/src/botterm.c:122-123 | backspace and delete step left, stop at the first column and rub nothing out |
| TerminalLaws.TabStops | apps/botterm/src/botterm.c:124-126 | a tab goes to the next multiple of eight or to the last column |
| TerminalLaws.OthersDoNothing | apps/botterm/src/botterm.c:109-141 | no other control character and nothing beyond ASCII does anything |
| TerminalLaws.TextWritten | apps/botterm/src/botterm.c:127-140 | printable text of any length fills the cells from the cursor on in the current colour, wrapping from row to row; every other cell stays and new rows are blank |
| TerminalLaws.LinesListed | apps/botterm/src/botterm.c:107-141 | any number of lines of fewer than 80 characters appear one to a row, however far the screen scrolls; what they do not reach stays |
| TerminalLaws.FreshListing | apps/botterm/src/botterm.c:107-141 | on a new screen row i of the output is line i, padded with blanks, and the cursor stands behind the last |
| TerminalLaws.OtherEscapes | apps/botterm/src/botterm.c:142-147 | ESC and anything but an opening bracket shows nothing |
| TerminalLaws.ClearBlanks | apps/botterm/src/botterm.c:169-180 | J blanks the 25 rows in the default colour, whatever its parameters, and keeps the rows above and the current colour |
| TerminalLaws.OtherSequences | apps/botterm/src/botterm.c:155-182 | a sequence ended by any other letter than m and J shows nothing |
| TerminalLaws.InsideSequence | apps/botterm/src/botterm.c:148-155 | inside a sequence anything but digits, semicolons and letters is passed over |
| TerminalLaws.ColorSequence | apps/botterm/src/botterm.c:149-168 | m changes the colour and nothing else, and looks at 31 characters of parameters |
| TerminalLaws.OneColor | apps/botterm/src/botterm.c:159-166 | 0 is the default colour, 30 to 37 the first eight of the palette, 90 to 97 the other eight; every other number leaves the colour |
| TerminalLaws.ColorsCompose | apps/botterm/src/botterm.c:158-168 | parameters separated by a semicolon act as two sequences one after the other |
| WindowManager.Manager.MapRequest | apps/botdesk/src/botdesk.c:276-341 | a new client gets the first free slot, a frame around its size and the focus; any other request changes nothing |
| WindowManager.Manager.ConfigureRequest | apps/botdesk/src/botdesk.c:343-362 | the frame takes exactly the requested size, places, focus and other windows stay, and frames go on fitting if and only if the server did not refuse the size or the window is not managed |
| WindowManager.Manager.ClientResize | apps/botdesk/src/botdesk.c:310-314 | when a client changes its size on its own, count, focus and distinctness survive, and frames go on fitting if and only if the size of no managed client changed |
| WindowManager.Manager.RemoveManaged | apps/botdesk/src/botdesk.c:259-274 | the slot is freed, the count follows, and the first window left inherits the focus if this one had it |
| WindowManager.Manager.DestroyNotify | apps/botdesk/src/botdesk.c:364-368 | exactly the destroyed client's window goes |
| WindowManager.Manager.UnmapNotify | apps/botdesk/src/botdesk.c:370-377 | only an unmap reported relative to the window's own frame closes it |
| WindowManager.Manager.ButtonPress | apps/botdesk/src/botdesk.c:385-426 | a click focuses the frame and starts a resize on the grip, a drag on the title bar, nothing on the close box |
| WindowManager.Manager.StartGrab | apps/botdesk/src/botdesk.c:392-425 | the close box wins over the grip and the grip over the title bar; what is grabbed remembers where and at what size |
| WindowManager.Manager.Motion | apps/botdesk/src/botdesk.c:428-457 | a resize follows the pointer down to the minimum and wins over a drag, which keeps the grabbed point under the pointer; a grab ends with its frame |
| WindowManager.Manager.ButtonRelease | apps/botdesk/src/botdesk.c:459-464 | both grabs end, no window changes |
| WindowManager.Manager.SetFocus | apps/botdesk/src/botdesk.c:243-257 | the window gets the focus and every other used one loses it |
| WindowManager.Manager.CycleFocus | apps/botdesk/src/botdesk.c:470-495 | the scan around the table focuses the next used slot in table order, going round the end, and changes nothing else |
| WindowManager.FocusKeeps | apps/botdesk/src/botdesk.c:243-257 | focusing a managed window leaves exactly one focus and keeps the table consistent |
| WindowManager.AddKeeps | apps/botdesk/src/botdesk.c:319-340 | filling a free slot keeps windows distinct, frames fitting and the count right |
| WindowManager.RemoveKeeps | apps/botdesk/src/botdesk.c:259-265 | freeing a slot does too, and the one focus is lost only with its window |
| WindowManager.ResizeKeeps | apps/botdesk/src/botdesk.c:355-361 | changing a frame together with its client keeps frame and client sizes in step |
| WindowManager.DragFollows | apps/botdesk/src/botdesk.c:447-456 | after any run of pointer positions the grabbed point of the frame is under the pointer, and only the place of the frame has changed |
| WindowManager.ResizeFollows | apps/botdesk/src/botdesk.c:430-446 | after any run of pointer positions the lower right corner has moved as the pointer did, down to 200 by 150, and only the size of the frame has changed |
| WindowManager.GestureReturns | apps/botdesk/src/botdesk.c:428-457 | bringing the pointer back to where it pressed brings the frame back, when it was no smaller than the smallest size |
| WindowManager.OthersStay | apps/botdesk/src/botdesk.c:428-457 | a frame that is not held stays, also a dragged one while another is resized |
| WindowManager.HeldIsManaged | apps/botdesk/src/botdesk.c:430-452 | after pointer motion the grab that was acted on is one of a managed frame |
| WindowManager.ClickAreas | apps/botdesk/src/botdesk.c:392-416 | the close box is the 18 by 18 square in the middle of the 26 pixel title bar, 5 from the right, the grip the 14 by 14 corner; no click is on both |
| WindowManager.OpenedCascade | apps/botdesk/src/botdesk.c:301-306 | a new frame leaves 5 pixels beside and below its client and 26 above; of six opened in a row no two have the same corner |
| WindowManager.RemovedHeir | apps/botdesk/src/botdesk.c:259-274 | the first window left in the table gets the focus of the one that goes; otherwise the focus stays |
| WindowManager.NearestIsNeighbour | apps/botdesk/src/botdesk.c:479-488 | the used slot nearest around the table is the next in the ring of used slots |
| WindowManager.PressedStep | apps/botdesk/src/botdesk.c:470-495 | a run of presses is one cycling step after the other, each on the table it finds |
| WindowManager.OppositePressUndoes | apps/botdesk/src/botdesk.c:470-495 | a press and one the other way leave the table as it was |
| WindowManager.CycleReturns | apps/botdesk/src/botdesk.c:470-495 | as many presses as there are windows come back to the first window |
| WindowManager.TableReturns | apps/botdesk/src/botdesk.c:470-495 | with the very same table |
| WindowManager.CycleDistinct | apps/botdesk/src/botdesk.c:470-495 | no window is focused twice on the way |
| WindowManager.CycleReaches | apps/botdesk/src/botdesk.c:470-495 | and none is left out |

## Left out

- FloodFill.Fill: memory is always granted; the code gives up pushing when `realloc` fails and then leaves part of the component. Colours are compared as words, as the code does.
- CanvasLine.DrawLine: coordinates are unbounded integers; overflow of a 32-bit coordinate or error term is not modelled, here as in the circles and the window manager.
- Resolver.Resolve: manifests are a fixed function of the name; reading them from disk, cache or network is outside. Names come from 64-byte fields, so dependencies have at most 63 characters, and a longer root name is cut as the code cuts it. Of the cycle report only `cycle_to` is proved right: `cycle_from` is not restored after a dependency was visited and names some node of the search.
- PackageManager.InstallTheorem: for manifests that name themselves; one with another name is registered under that name. A root name of more than 63 characters is resolved under its full name and installed under the cut one, so for it only the exact condition is given and not that it holds. A database directory that cannot be opened, which the removal check takes as nothing depending on the package, is not modelled.
- PackageManager.Manager.Install: the database is an abstract map of manifests; the text of a registered manifest and its reading back are the subject of the manifest modules. What was fetched before is not told apart from what is fetched now.
- Manifest.GetArrayOf: the pass that does not move, which the code repeats for ever, ends with a flag.
- Manifest.Write: no text is given where text and terminator do not fit the buffer; the code does not test for that, and what it leaves in memory then is not modelled. The first formatted piece is one step.
- ManifestRoundTrip.RoundTrip: needs text without quotes and backslashes, for the writer escapes nothing.
- ManifestRoundTrip.ArrayReadEnds: a written name of more than 63 characters whose 64th is a space, a comma or a bracket is left to the condition for every text, ManifestArrays.ArrayLoopEnds.
- Sha256.Context.Final: messages are whole bytes; from 2^64 bits on, which the standard excludes, the length field is the length modulo 2^64 as in the code. The hexadecimal form and reading the file are left out.
- Fips180Facts.RoundConstantsAreCubeRoots: that the listed numbers are the first 64 primes is not proved.
- ShellParser.ParseInPlace: the duplicates kept in the pipeline are values, and so are the local copies that variable expansion makes of a word and of a name; the environment is a fixed function of the name.
- ShellExpansion.WordExpands: words with an unclosed brace or a name of more than 255 characters are covered by the function the code is proved against, not by this law.
- ShellRoundTrip.RoundTrip: each slot is redirected at most once, after the arguments; bare words hold no quotes and no hash sign without a backslash; lines hold no NUL where they are put into a C string. Wildcards are expanded elsewhere.
- ShellSpacing.ReadAsMeant: words hold no quotes, backslashes, hash or dollar signs, no argument starts with a tilde, each slot is redirected at most once, and a space is always typed before the operator `2>`.
- PipelineWiring.Shell.RunPipeline: pipelines without file redirections; process groups, signals, exec and waiting are left out. Tables and descriptors are values, one table a process.
- Editor.TextEditor.OnKey: the row array is one sequence field, so moving rows in memory is a sequence operation; the control, escape and dialog keys are left out, and so is editing the empty buffer an empty file leaves.
- EditorFiles.SaveLoad: NUL bytes in files are not modelled.
- Terminal.Screen.ApplyColors: numbers are unbounded, so the overflow of `atoi` on eleven digits or more is not modelled; the `strtok` calls are one loop over the characters.
- Terminal.Screen.Shown: drawing, the cursor bar and keyboard input are left out. Grids and scrollback arrays are sequence fields, so moving rows in memory is a sequence operation.
- WindowManager.Manager.ConfigureRequest: the X server is a map from clients to sizes. It gives every frame a new id and refuses empty sizes.
- WindowManager.Manager.MapRequest: mapping, reparenting and titles are calls into X and left out.
- WindowManager.Manager.ButtonPress: the close message to the client is left out.
- Everything drawn on top of the canvas, fonts, themes, toasts, the command palette and screenshots: user interface.
- `botpkg_update`, HTTP, TCP, the Python bridge and the runtime behind it: network and foreign calls.
- Shell `for`, `if` and `while` blocks, wildcards, job control and history: process control and environment.
- Games, calculator, dashboards, string helpers, pool allocator and event ring: they would only add easy members.
