# takeiteasy/graphics in Dafny

takeiteasy/graphics is a small software renderer written in C: surfaces are
arrays of packed 32-bit RGBA pixels, and every drawing routine (points,
spans, flood fills, blits, bitmap text, BMP writing) works on those arrays
through one hardware-abstraction header, `hal.h`. The C sources are built by a
Ruby script, `build.rb`, that chooses a window back-end and splits or
amalgamates the layer headers. The repository also keeps two earlier
generations of the library (`graphics.c` with `app.c`, and
`graphics/graphics.c`), a loader for BDF bitmap fonts (`extra/graphics_bdf.c`),
and a roguelike example whose dungeon generators (cellular-automaton caves,
flood-filled regions, room links and corridors), binary heap, stretchy buffer
and game-state engine are written against the library.

This project models that integer core. Pure code (header splitting, option
parsing, colour packing, Base64, UTF-8, the BDF tokeniser, the tile decoding)
becomes datatypes and functions with lemmas. Code that changes a buffer or an
object in place becomes a class or a method over an `array`, with `modifies`
clauses and loop invariants, and each such method is proved against a
function of its inputs that states what the C code computes. Where the C code
has a bug that a natural contract exposes, the model keeps the code as written
in one member, gives the input that shows the bug in a lemma beside it, and
uses the corrected version everywhere else (see "## Findings").

Two places where the sources disagree with each other are modelled as the code
that runs does it: `game_engine.hpp` passes `prev - curr` to a state's
`update` (the model's `Update` carries that difference) where `main.c` uses
`curr - prev`; and `dungeon.hpp` declares a `tile_t` with two fields while
`dungeon.cpp` writes a third, the kind, which `RogueTiles.Tile` carries.
EarlyGraphics.Surface.Xline is modelled as written: a segment whose ordered
start lies left of the surface draws nothing, even though the end is clamped
(EarlyGraphics.XlineDropsNegativeStart shows it). The newer `hal_hline`
clips both ends, but the older code may mean to reject such segments, so this
is not listed as a finding.

## Model

| member | source | states |
|---|---|---|
| BuildArgs.MatchAt | build.rb:60 | the option pattern matches at a position only on a dash followed by a key character; the key is a non-empty run of key characters and a value, when present, is non-empty |
| BuildArgs.FirstMatch | build.rb:60 | `scan` takes the leftmost match at or after the start, and finds none exactly when no position matches |
| BuildArgs.ParseArg | build.rb:60-75 | an argument is rejected exactly when the pattern never matches it; otherwise its key is the first match's key and its value that match's classified value |
| BuildArgs.Store | build.rb:59 | storing a pair keeps the keys distinct and adds the key; only a new key appends an entry |
| BuildArgs.StoreThenLookup | build.rb:59 | after storing (k, v), k looks up v and every other key keeps its value |
| BuildArgs.HashOfLookup | build.rb:59 | in `Hash[pairs]` every key maps to the value of its last pair |
| BuildArgs.Reject | build.rb:126 | `reject!` of a key removes exactly that key and leaves every other lookup alone |
| BuildArgs.ParseArgs | build.rb:59-76 | the argument vector parses exactly when each argument does, into a hash with distinct keys |
| BuildArgs.ParseKeyValue | build.rb:60-75 | `-k=v` and `--k=v` parse back to k with v classified |
| BuildArgs.ParseBareKey | build.rb:60-71 | a bare `-k` or `--k` parses to k set to true |
| BuildArgs.NoDashNoOption | build.rb:60 | an argument without a dash is rejected |
| BuildArgs.ClassifyInteger | build.rb:62-63 | a digit string reads as its integer |
| BuildArgs.ClassifyBooleans | build.rb:64-71 | `true`/`True` are true, `false`/`False` false, and a missing value true |
| BuildArgs.ClassifyList | build.rb:68-69 | a comma-joined list of comma-free, non-empty fields reads back as that list |
| BuildArgs.ClassifyString | build.rb:72-73 | any other value stays a string |
| BuildArgs.Flags | build.rb:213-223 | one flag per remaining option, in hash order |
| BuildArgs.ListFlagRoundTrip | build.rb:214-223 | the flag written for a list option re-parses as the same option and list |
| BuildScript.ParseBackend | build.rb:117-118 | the backend named is the one whose symbol equals the upcased string, or none when no symbol does |
| BuildScript.HostFamily | build.rb:87-113 | the host family test of `host_os`: Windows exactly on one of the seven substrings, Darwin only on `darwin` or `mac os` |
| BuildScript.HostFamilyCases | build.rb:87-113 | the tests run in the source's order: Windows exactly on a Windows substring; Darwin exactly on `darwin` or `mac os` without one; Unix exactly on `linux`, `solaris` or `bsd` without either; unknown exactly on none |
| BuildScript.DarwinBackends | build.rb:94-106 | OpenGL is always supported; Metal exactly when maj ≥ 10 and min > 11 (only the minor number is tested, so macOS 11.0 to 11.11 get no Metal), and then first; Carbon exactly when maj < 10 or min ≤ 13; the list is exactly Metal (if supported), OpenGL, Carbon (if supported), in that order |
| BuildScript.DarwinWarnings | build.rb:94-104 | a warning is printed exactly when maj < 10 or min ≤ 11, so macOS 11.0 to 11.11 and 12.0 to 12.11 are warned about too |
| BuildScript.BackendChoice | build.rb:115-129 | without the option, the first supported backend; a non-string option stops the run; a string is accepted exactly when it names a supported backend |
| BuildScript.Dependencies | build.rb:131-140 | Metal links four frameworks, OpenGL three, Carbon two, each list starting with Cocoa and AppKit |
| BuildScript.CcChoice | build.rb:142-151 | without the option the default compiler; a string option is lowercased and kept; anything else stops the run |
| BuildScript.CcWarnings | build.rb:145 | a warning is printed exactly for a compiler outside clang, msvc and gcc |
| BuildScript.AddH | build.rb:158-160 | the name ends in `.h`: unchanged if it already did, otherwise with `.h` appended |
| BuildScript.AddHIdempotent | build.rb:158-160 | `add_h` twice is `add_h` once |
| BuildScript.CheckLayers | build.rb:165-168 | a layer list is accepted exactly when every name with `.h` added is a valid layer on disk, and is then kept in order; otherwise the run stops with an invalid layer |
| BuildScript.ExistingLayers | build.rb:179 | the default layers are the valid ones that exist, kept in order |
| BuildScript.ExistingLayersSnoc | build.rb:179 | the defaults of a list with one more name are the old defaults followed by that name exactly when it exists: the filter keeps order |
| BuildScript.DefaultLayersAll | build.rb:179 | with every known layer on disk the default is the whole list |
| BuildScript.LayerChoice | build.rb:162-180 | the chosen layers are all valid; no option gives the existing defaults; a string s is accepted exactly when `add_h(s)` names a valid layer, giving `[add_h(s)]`, and otherwise stops with that name as the invalid layer; a list gives `CheckLayers` of it; a number or boolean stops the run |
| BuildScript.ModeChoice | build.rb:182-196 | `make` without the option; a string is accepted exactly when it lowercases to make, info or json, and gives that mode; a non-string stops the run |
| BuildScript.ConfigChoice | build.rb:198-211 | the config is used exactly when the option names a file that parses as JSON; a file that does not parse stops the run |
| BuildScript.LayerPathsDiffer | build.rb:258-260 | a layer's generated `.c` file and a layer header never have the same path |
| BuildScript.SplitAll | build.rb:249-261 | the split loop either writes two files per layer or stops with nothing to split or a crash |
| BuildScript.SplitAllWrites | build.rb:249-261 | when no layer stops the loop, layer i wrote exactly its two files, at positions 2i and 2i+1 |
| BuildScript.SplitAllStops | build.rb:256 | once a layer stops the loop, later layers write nothing |
| BuildScript.AmalgamationWrite | build.rb:226-247 | `build/hal_h.h` is always opened; it holds the expanded `hal.h` exactly when the expansion completes, and the step fails on a missing `hal.h`, a missing or short include |
| BuildScript.StatusOf | build.rb:41-53 | an abort exits with status 1; every other failure is a raised exception |
| BuildScript.Build.DetectHost | build.rb:87-113 | only a Darwin host continues, with its backend table, its warnings and the Objective-C flags; any other host stops with nothing changed |
| BuildScript.Build.ResolveBackend | build.rb:115-140 | on success the backend is set, its dependencies chosen and the option removed; on failure nothing changes |
| BuildScript.Build.ResolveCc | build.rb:142-151 | on success the compiler is set, the option removed and a warning printed for an unknown compiler; on failure nothing changes |
| BuildScript.Build.ResolveLayers | build.rb:162-180 | on success the chosen layers are appended and the option removed; on failure nothing changes |
| BuildScript.Build.ResolveMode | build.rb:182-196 | on success the mode is set and the option removed; on failure nothing changes |
| BuildScript.Build.ResolveFlags | build.rb:198-224 | a parsed config skips the flags; otherwise every remaining option becomes a flag; an unparsable config stops the run |
| BuildScript.Build.ResolveInputs | build.rb:87-196 | the host, backend, compiler, layer and mode checks in order: on success the host is Darwin, the backend is one it supports with its dependencies, the layers are valid, exactly the four consumed options are gone and the `config` option is untouched; nothing is written |
| BuildScript.Build.Resolve | build.rb:87-224 | every check in order: on success the host is Darwin, the backend is one it supports with its dependencies, the layers are valid, exactly the four consumed options are gone, and the flags are those of the remaining options unless a config was used |
| BuildScript.Build.WriteAmalgamation | build.rb:226-247 | appends the amalgamated header write and stops exactly as `AmalgamationWrite` does |
| BuildScript.Build.SplitLayers | build.rb:249-261 | appends exactly the writes of `SplitAll` over the layers and stops where it stops |
| BuildScript.Build.Output | build.rb:264-281 | `make` writes the Makefile and prints nothing; `info` prints the summary and writes nothing |
| BuildScript.Build.Execute | build.rb:78-285 | a non-Darwin host exits 1 having written nothing; a success has resolved a supported backend, valid layers and the flags, split every layer, and written exactly the amalgamation, then each layer's .c and .h in layer order, then the Makefile in `make` mode; a layers crash happens only under a parsed config |
| BuildScript.RejectAbsent | build.rb:126 | removing an absent key changes nothing |
| BuildScript.Run | build.rb:59-285 | a bad argument raises before anything else; a non-Darwin host exits 1 with no file written; success means every step completed and the files written are exactly the amalgamation, each layer's split in order, and the Makefile in `make` mode |
| HeaderSplit.LastWhere | build.rb:250-255 | the index found satisfies the test and no later line does; none is found exactly when no line does |
| HeaderSplit.ScanMarkers | build.rb:250-255 | the loop collects every line and leaves `ls`/`le` at the last begin and end marker, 0 where a marker is absent |
| HeaderSplit.SplitAt | build.rb:256-260 | the split aborts exactly on adjacent markers; otherwise it crashes exactly when the end marker lies before the begin marker or past the last line, and is written exactly when ls ≤ le < |lines|: the header loses lines `ls..le` and the source file is the two banner lines and the lines strictly between the markers |
| HeaderSplit.SplitAtRoundTrip | build.rb:258-260 | reinserting lines `ls..le` at `ls` into the written header gives the input back |
| HeaderSplit.SplitRoundTrip | build.rb:249-261 | reinserting the removed block at the last begin marker reproduces the layer header |
| HeaderSplit.SplitWellFormed | build.rb:249-261 | with both markers present and apart, the source file holds exactly the lines strictly between them and the header everything outside them |
| HeaderSplit.SplitAbortsIffAdjacent | build.rb:256 | the split aborts if and only if the marker indices are adjacent |
| HeaderSplit.SplitNoMarkersDropsFirstLine | build.rb:250-260 | a header without markers is not rejected: its first line is dropped and the source file gets only the banner |
| HeaderSplit.SplitNoMarkersExample | build.rb:250-260 | a two-line header without markers loses its first line |
| HeaderSplit.SplitChecked | build.rb:256 | the intended check: a written split has both markers; a missing marker aborts |
| HeaderSplit.SplitCheckedSound | build.rb:256-260 | a split that passes the intended check has real begin and end lines, in order, and keeps every input line in exactly one output |
| HeaderSplit.SplitLayer | build.rb:250-260 | scanning and cutting one layer gives exactly the split of its lines |
| HeaderSplit.SourceName | build.rb:258 | a `.h` name becomes the same stem with `.c`; any other name is unchanged |
| Amalgamate.BreakOf | build.rb:228 | the line break split off a line is CR, LF, or nothing, and ends the line |
| Amalgamate.IncludeTarget | build.rb:228 | a captured include name is non-empty and free of white space |
| Amalgamate.IncludeTargetOf | build.rb:228 | an include line built from a non-empty, space-free name and one line break captures that name |
| Amalgamate.StripNoGuard | build.rb:236-244 | a header without a C++ guard line is emitted unchanged |
| Amalgamate.StripGuardBlock | build.rb:236-244 | the guard line, everything after it and the next bare `#endif` are dropped; the lines before and after are emitted |
| Amalgamate.StripEmitsNoGuard | build.rb:236-244 | every emitted line is an input line and none of them opens a C++ guard |
| Amalgamate.StripGuards | tools/allforone.rb:15-24 | the `stop`-flag loop emits exactly the guard-stripped lines |
| Amalgamate.ExpandNoIncludes | build.rb:227-231 | lines without an include directive pass through unchanged and in order |
| Amalgamate.ExpandAppend | build.rb:227-246 | each `hal.h` line appends exactly its replacement, or stops the expansion on a missing or short header |
| Amalgamate.ExpandStopsAtMissing | build.rb:234 | once a header is missing or short, the lines after it change nothing |
| Amalgamate.StopsAtBy | build.rb:234 | the expansion of the whole file is the one that stopped at the first failing line |
| Amalgamate.ExpandOne | build.rb:232-245 | one pass of the outer loop computes exactly the replacement of one line |
| Amalgamate.AmalgamateBy | build.rb:227-246 | the outer loop, for any include test, computes the expansion line by line |
| Amalgamate.AmalgamateLines | build.rb:226-247 | the loop with the include pattern of line 228 computes the expansion |
| Amalgamate.PutsLine | tools/allforone.rb:7 | `puts` ends every line with LF and leaves a line that has one unchanged |
| Amalgamate.Puts | tools/allforone.rb:7 | each line printed is the `puts` form of the emitted line, in order |
| Amalgamate.AllForOneRun | tools/allforone.rb:3-27 | success prints the expansion and keeps `hal_h.h`; a missing header prints what came before, deletes `hal_h.h` and exits 1; a short header has no defined outcome (raises) |
| ChangeVersion.Modify | tools/change_version.rb:6-17 | a value with a digit replaces the field; one without digit, `inc` or `dec` keeps it |
| ChangeVersion.DowncaseDigits | tools/change_version.rb:7-8 | lower-casing keeps the digit test |
| ChangeVersion.IncThenDec | tools/change_version.rb:10-13 | an integer field stepped up and then down comes back |
| ChangeVersion.DigitWins | tools/change_version.rb:8-10 | the digit test takes priority over `inc` |
| ChangeVersion.ScanAll | tools/change_version.rb:19 | `scan` finds no option exactly when the pattern never matches |
| ChangeVersion.ReadVersion | tools/change_version.rb:3-4 | the version is read exactly when the first line has at least three dot-separated fields, and maj, min and rev are the first three of them (further fields are dropped); the line break is not stripped |
| ChangeVersion.ApplyOption | tools/change_version.rb:20-27 | keys other than maj/min/rev, in any case, leave the version alone; the step raises exactly on a recognised key without a value |
| ChangeVersion.ApplyEach | tools/change_version.rb:19-28 | the `each` loop applies every entry of the hash in order |
| ChangeVersion.ApplyAllNoneStep | tools/change_version.rb:19-28 | once an entry raises, the loop has raised |
| ChangeVersion.OtherKeysIgnored | tools/change_version.rb:19-28 | options with no recognised key leave the version unchanged |
| ChangeVersion.Change | tools/change_version.rb:1-32 | the script writes the version text the specification gives, or raises |
| ChangeVersion.JoinFields | tools/change_version.rb:3-31 | joining the dot-split fields with dots gives the line back |
| ChangeVersion.UnchangedVersion | tools/change_version.rb:3-32 | without maj/min/rev options a three-field first line is written back unchanged, line break included |
| Strings.DigitChar | tools/change_version.rb:11 | the digit character of a decimal digit reads back as that digit |
| Strings.NatToStringValue | tools/change_version.rb:11 | `to_s` of a natural number has that number as its decimal value |
| Strings.ToIOfNat | tools/change_version.rb:11 | `to_i` undoes `to_s` on natural numbers |
| Strings.Downcase | tools/change_version.rb:7 | `downcase` keeps the length and lowers each character |
| Strings.Upcase | build.rb:117 | `upcase` keeps the length and raises each character |
| Strings.FieldsOfJoin | tools/change_version.rb:3 | splitting sep-joined separator-free parts gives the parts back |
| Strings.DigitRun | tools/change_version.rb:11 | the leading digit run is all digits and is maximal |
| HalConfig.PlatformOf | include/hal.h:60-71 | the first platform test that holds picks the platform, in the order Emscripten, Linux, macOS, Windows, none |
| HalConfig.AllocatorOf | include/hal.h:73-83 | the allocator is accepted exactly when all of malloc and free with one realloc, or none of the four, are defined; the default is libc |
| HalConfig.OnlyRules | include/hal.h:134-154 | with no `HAL_ONLY_*` nothing is switched off; only layers without their own `HAL_ONLY_*` get `HAL_NO_*` |
| HalConfig.OnlyDisablesOthers | include/hal.h:134-154 | with some `HAL_ONLY_*` defined, every layer without one is switched off |
| HalConfig.Preprocess | include/hal.h:58-158 | the header is rejected exactly on a partial allocator; otherwise `HAL_METAL` and the chosen platform macro are defined, graphics.h is included exactly without `HAL_NO_GRAPHICS`, and nothing the caller defined is lost |
| HalConfig.OnePlatform | include/hal.h:60-71 | exactly one platform macro ends up defined |
| HalConfig.OnlyLayerKept | include/hal.h:134-154 | a layer asked for with `HAL_ONLY_*` is never switched off |
| HalConfig.OnlyGraphics | include/hal.h:134-158 | `HAL_ONLY_GRAPHICS` alone keeps graphics.h and switches the other four layers off |
| HalConfig.OnlyAudioDropsGraphics | include/hal.h:134-158 | `HAL_ONLY_AUDIO` leaves graphics.h out |
| HalConfig.PartialAllocatorRejected | include/hal.h:73-77 | malloc and realloc without free is an `#error` |
| HalConfig.VersionInt | include/hal.h:118-127 | with byte-sized components, the three components read back from their bytes of `HAL_VERSION_INT` |
| HalConfig.VersionIntInjective | include/hal.h:127 | distinct byte-sized versions pack to distinct integers |
| HalConfig.VersionDefault | include/hal.h:118-127 | with no version macros the version integer is 0 |
| Colour.RgbaChannels | include/graphics.h:68-73 | each channel macro reads back the byte `RGBA` packed |
| Colour.ChannelValues | graphics/graphics.c:93-123 | `r_channel` and the other three functions invert `rgba` on the integer values C sees |
| Colour.ChannelsRgba | graphics/graphics.h:130-135 | packing a pixel's four channels gives the pixel back |
| Colour.RgbOpaque | include/graphics.h:69 | `RGB` keeps the three colour bytes and has alpha 255 |
| Colour.RChan | include/graphics.h:74 | the red byte is replaced and the other three kept |
| Colour.GChan | include/graphics.h:75 | the green byte is replaced and the other three kept |
| Colour.BChan | include/graphics.h:76 | the blue byte is replaced and the other three kept |
| Colour.AChan | include/graphics.h:77 | the alpha byte is replaced and the other three kept |
| Colour.ChanIsRepack | graphics/graphics.h:136-139 | each channel replacement equals repacking with that one channel changed |
| Colour.Rgb1 | include/graphics.h:78 | a grey: three channels `c`, alpha 255 |
| Colour.Rgba1 | include/graphics.h:79 | a grey with alpha `a` |
| Colour.Rgba1Fn | graphics/graphics.c:101-103 | the function `rgba1` sets all four channels, alpha included, to `c` |
| Colour.RgbaA | graphics/graphics.c:137-139 | as written, `rgba_a` clears red, keeps green and blue, and ORs the new alpha into the old |
| Colour.RgbaAClearsRed | graphics/graphics.c:137-139 | `rgba_a` of opaque red with alpha 0 gives opaque black, where `ACHAN` gives transparent red |
| Colour.RgbaACorrected | graphics/graphics.c:125-139 | the intended `rgba_a` replaces only the alpha byte, like `rgba_r`/`rgba_g`/`rgba_b` do for theirs |
| Colour.Signed | include/graphics.h:232 | the two's-complement reading of a 32-bit pattern, in the `int` range |
| Colour.ChromaKeyIsLime | include/graphics.h:228-234 | the numeric fallback chroma key is `LIME`, opaque `RGB(0, 255, 0)`, read as a signed int (graphics/graphics.h:290-296 shares it) |
| Colour.KeyModsAreBits | include/graphics.h:925-935 | each key modifier is one bit and no two share one |
| Colour.WindowFlagsAreBits | graphics/graphics.h:930-940 | each window flag is one bit, no two share one, and `NONE` has none |
| HalSurface.PixelAt | src/graphics.c:244-246 | a point on the surface reads its cell `y*w + x`; any other point reads 0 |
| HalSurface.GetAfterSet | src/graphics.c:220-224 | after `hal_pset`, reading gives the written colour at that point (when on the surface) and the old colour everywhere else |
| HalSurface.BlendChannelBound | src/graphics.c:226-241 | a blended channel stays between 0 and the larger input channel, so it fits its byte |
| HalSurface.BlendAlphaBound | src/graphics.c:226-241 | the blended alpha is at least the source alpha and at most 255 |
| HalSurface.BlendPixel | src/graphics.c:230-241 | an opaque source, or a fully transparent destination, is written unchanged |
| HalSurface.MixChannel | src/graphics.c:236-239 | the channel byte holds the `BLEND` value, which never exceeds the larger input |
| HalSurface.MixAlpha | src/graphics.c:240 | the alpha byte holds the blend alpha, at least the source's |
| HalSurface.BlendPixelMixes | src/graphics.c:230-241 | over a visible destination a translucent colour is mixed channel by channel by `BLEND`, and the alpha never drops below the source's |
| HalSurface.BlendNeverBrightens | src/graphics.c:230-241 | no blended channel is brighter than the brighter of the two colours |
| HalSurface.BlendAt | src/graphics.c:230-241 | a transparent source or a point off the surface leaves the buffer unchanged |
| HalSurface.Span | src/graphics.c:615-651 | the span is rejected exactly when its low end is past the extent; otherwise it is clamped into [0, extent-1] |
| HalSurface.HlineCovers | src/graphics.c:634-651 | a cell on the row is passed over exactly when the row is on the surface and the cell lies between the two endpoints |
| HalSurface.VlineCovers | src/graphics.c:615-632 | a cell on the column is passed over exactly when it lies between the two endpoints |
| HalSurface.HlineCellsAt | src/graphics.c:634-651 | `hal_hline` blends the colour into exactly the cells of the clamped span and leaves the others alone |
| HalSurface.VlineCellsAt | src/graphics.c:615-632 | `hal_vline` blends the colour into exactly the cells of the clamped span and leaves the others alone |
| HalSurface.RepaintedCount | src/graphics.c:165-208 | a repaint from one colour to another never increases the number of cells of the first colour |
| HalSurface.PaintCount | src/graphics.c:165-208 | painting one cell of the old colour lowers that colour's count by one |
| HalSurface.RepaintedTrans | src/graphics.c:165-208 | two repaints in a row are one repaint |
| HalSurface.RepaintedKeeps | src/graphics.c:165-208 | a cell already painted the new colour keeps it |
| HalSurface.Surface.constructor | src/graphics.c:130-141 | the surface is w·h zeroed pixels |
| HalSurface.Surface.Fill | src/graphics.c:158-161 | every one of the w·h pixels becomes `col` |
| HalSurface.Surface.Cls | src/graphics.c:216-218 | every pixel becomes 0 |
| HalSurface.Surface.Pset | src/graphics.c:220-224 | exactly one pixel is replaced when the point lies on the surface, nothing otherwise |
| HalSurface.Surface.Blend | src/graphics.c:228-241 | the buffer becomes the point's pixel blended with `c` |
| HalSurface.Surface.Hline | src/graphics.c:634-651 | the row cells between the clamped endpoints are blended with `col`, nothing else changes |
| HalSurface.Surface.Vline | src/graphics.c:615-632 | the column cells between the clamped endpoints are blended with `col`, nothing else changes |
| HalSurface.Surface.PaintRun | src/graphics.c:170-179 | one run paints cells of the old colour to the new one and nothing else, and the old colour's count never grows |
| HalSurface.Surface.FloodFn | src/graphics.c:165-208 | only cells of the old colour change, each to the new colour, and the start cell is painted |
| HalSurface.Surface.ScanRow | src/graphics.c:181-207 | a neighbour scan repaints only old-colour cells and keeps the count below what it was at the start |
| HalSurface.Surface.Flood | src/graphics.c:210-214 | nothing changes off the surface; otherwise only cells of the start colour change, each to `col`, and the start cell holds `col` |
| HalSurface.Pget | src/graphics.c:244-246 | a missing surface or buffer reads 0; otherwise the pixel, or 0 off the surface |
| OctreeHeap.Cmp | src/graphics.c:413-422 | nodes with fewer kids come first, then nodes with the smaller `count >> depth`; the result is -1, 0 or 1 |
| OctreeHeap.CmpAntisymmetric | src/graphics.c:413-422 | swapping the two nodes negates the comparison |
| OctreeHeap.LeTransitive | src/graphics.c:413-422 | `cmp_node(a, b) <= 0` is transitive |
| OctreeHeap.LeTotal | src/graphics.c:413-422 | any two nodes compare one way or the other |
| OctreeHeap.HeapMin | src/graphics.c:424-462 | the root of an ordered heap is no greater than any node in it |
| OctreeHeap.SmallerChild | src/graphics.c:428-432 | the child `down_heap` picks is no greater than either child |
| OctreeHeap.Grown | src/graphics.c:473-477 | the grown capacity exceeds `n`, by whole steps of 1024 |
| OctreeHeap.GrownSteps | src/graphics.c:473-477 | the buffer grows only when it must, and by the fewest whole steps of 1024 |
| OctreeHeap.FlagBits | src/graphics.c:471 | `flags |= 1` sets bit 1 and keeps the other bits |
| OctreeHeap.PopAsWritten | src/graphics.c:484-497 | as written, a heap with no node pops empty |
| OctreeHeap.PopLastNodeIsNullDeref | src/graphics.c:488-493 | popping the only node of the heap (n == 2) writes through the null it has just stored |
| OctreeHeap.PopAsWrittenOtherwise | src/graphics.c:484-497 | with two or more nodes the pop as written returns slot 1 |
| OctreeHeap.NodeHeap.constructor | src/graphics.c:400-404 | a heap with no slots over a pool of unflagged nodes |
| OctreeHeap.NodeHeap.DownHeap | src/graphics.c:424-444 | the node moves down past every smaller child; the heap keeps its members and every slot's `heap_idx`, and is ordered wherever the node moved |
| OctreeHeap.NodeHeap.PickChild | src/graphics.c:426-434 | the loop stops exactly when the node is no greater than the children; otherwise it names the smaller child, which the node is greater than |
| OctreeHeap.NodeHeap.DownStep | src/graphics.c:436-438 | the smaller child moves up into the hole and the hole moves down, keeping the members |
| OctreeHeap.NodeHeap.UpHeap | src/graphics.c:446-462 | the node moves up past every greater parent; the heap is then ordered, keeps its members and every slot's `heap_idx` |
| OctreeHeap.NodeHeap.UpStep | src/graphics.c:451-457 | the greater parent moves down into the hole and the hole moves up, keeping the members |
| OctreeHeap.NodeHeap.Add | src/graphics.c:464-482 | the node takes its new key and flag bit 1; a flagged node is re-sifted with the same members; a new one is added at the end (slot 0 unused, capacity grown in steps of 1024); the heap stays ordered and indexed |
| OctreeHeap.NodeHeap.Resift | src/graphics.c:465-469 | a flagged node with a new key is moved down then up: same members, heap ordered again |
| OctreeHeap.NodeHeap.Append | src/graphics.c:471-481 | a new node is flagged and added: one member more, heap ordered and indexed |
| OctreeHeap.NodeHeap.Store | src/graphics.c:471-480 | the node is flagged, room made and the node stored in the last slot, ready for `up_heap` |
| OctreeHeap.NodeHeap.Capacity | src/graphics.c:473-477 | the growth loop computes the grown capacity |
| OctreeHeap.NodeHeap.Pop | src/graphics.c:484-497 | the intended pop: null on an empty heap; otherwise the least node, which is removed, with the heap ordered after |
| OctreeHeap.NodeHeap.RemoveRoot | src/graphics.c:488-494 | the last node replaces the root and is sifted down: one member fewer, the old root gone |
| Utf8.ByteAt | src/graphics.c:1640 | a byte inside the string is read as it is; index |s| is the terminating 0 (reads further out are 0 in the model, see Left out) |
| Utf8.LeadLength | src/graphics.c:1636 | the length a lead byte announces is between 2 and 6 |
| Utf8.LeadLengthRanges | src/graphics.c:1636 | the announced length is the count of leading one bits of the lead byte, as in section 3 of RFC 3629 |
| Utf8.PayloadLowBits | src/graphics.c:1638 | the shift pair keeps exactly the low `7 - a` bits of the lead byte |
| Utf8.Decode | src/graphics.c:1633-1645 | 1 to 6 bytes are read; a byte that starts no sequence is returned alone through a signed char, and ASCII as itself |
| Utf8.Ctoi | src/graphics.c:1633-1645 | the decoding loop returns the length and code point of the decoding function |
| Utf8.DecodeEncode | src/graphics.c:1633-1645 | every well-formed sequence of section 3 of RFC 3629 decodes to its length and code point |
| Utf8.StrayContinuation | src/graphics.c:1634-1635 | a continuation byte read alone comes back negative |
| Utf8.NoSevenByteForm | src/graphics.c:1637 | the lead bytes 0xFE and 0xFF are returned alone, negative |
| Utf8.ExtraIndex | src/graphics.c:1664-1668 | the index found holds the code point and is the first that does; -1 exactly when none does |
| Utf8.GlyphIndex | src/graphics.c:1649-1670 | the glyph is in [0, 539]; printable ASCII maps to c - 32; a code point the font lacks maps to 0; an extra glyph is one of the ten extra code points |
| Utf8.LetterIndex | src/graphics.c:1649-1670 | the range tests and the search loop compute the glyph index |
| Utf8.GlyphIndexInjective | src/graphics.c:1649-1670 | no two code points the font draws share a glyph |
| Utf8.BacktickExtraUnused | src/graphics.c:1534-1545 | the extra entry 96 lies in the ASCII range, so glyph 537 is never drawn |
| Utf8.GlyphIndexOnto | src/graphics.c:1649-1670 | every other glyph from 0 to 539 is drawn for some code point |
| HalBmp.ReadStored | src/graphics.c:942-954 | storing a number one shift at a time and reading the field back gives the number reduced to the field's width |
| HalBmp.HeadersRoundTrip | src/graphics.c:926-954 | a reader gets back "BM", the size, the pixel offset 54, the info size 40, the width, the height, one plane and 24 bits per pixel |
| HalBmp.Pad | src/graphics.c:967 | the padding is 0 to 3 bytes and makes a row a multiple of 4 |
| HalBmp.LoopRowsAsWritten | src/graphics.c:917-918 | the loop visits the rows -1 to h - 2 |
| HalBmp.LoopRowsOffByOne | src/graphics.c:917-919 | the loop visits row -1, before the buffer, and never the top row h - 1 |
| HalBmp.LoopRows | src/graphics.c:916-924 | the intended loop visits every row 0 to h - 1 once |
| HalBmp.PackPixels | src/graphics.c:913-924 | with the corrected rows every pixel's blue, green and red bytes are stored at its offset |
| HalBmp.FileSize | src/graphics.c:907 | the file is at least as long as the size the source stores |
| HalBmp.FileSizeIgnoresPadding | src/graphics.c:907 | the stored size falls short of the file whenever rows are padded; a 1x1 image stores 57 for a 58-byte file |
| HalBmp.SaveBmp | src/graphics.c:906-968 | the file has the length its header stores; its headers read back the size, dimensions, planes and depth; each pixel's bytes sit in output row h - 1 - y |
| HalBmp.RowsPixel | src/graphics.c:965-968 | the row loop writes every pixel byte of the image in its place |
| HalBmp.FilePixel | src/graphics.c:963-968 | one pixel byte of the file traced back through both loops is that pixel's channel |
| HalBmp.FileOffset | src/graphics.c:963-968 | every pixel byte lies after the headers and inside the file |
| HalBmp.Gif.constructor | src/graphics.c:2166-2177 | a GIF of n frames starts at frame 0 |
| HalBmp.Gif.NextFrame | src/graphics.c:2166-2171 | the frame steps by one and wraps to 0 past the last, and is returned |
| HalBmp.Gif.SetFrame | src/graphics.c:2173-2177 | the frame becomes n when n is in [0, frames) and is unchanged otherwise |
| HalBmp.Advance | src/graphics.c:2166-2171 | any number of steps stays inside [0, frames) |
| HalBmp.AdvanceWraps | src/graphics.c:2166-2171 | k steps land on (frame + k) mod frames |
| HalBmp.AdvanceCycle | src/graphics.c:2166-2171 | `frames` steps come back to the starting frame |
| Base64.Sextet | graphics.c:30-57 | every table entry is a sextet below 64 |
| Base64.SextetOfAlphabet | graphics.c:30-57 | the table inverts the alphabet of section 4 of RFC 4648 |
| Base64.HiIsShifts | graphics.c:112 | the first output byte is `A << 2 | B >> 4` truncated to 8 bits |
| Base64.MidIsShifts | graphics.c:113 | the second output byte is `B << 4 | C >> 2` truncated to 8 bits |
| Base64.LoIsShifts | graphics.c:114 | the third output byte is `C << 6 | D` truncated to 8 bits |
| Base64.PadCount | graphics.c:94-97 | the pad count, one per `=` among the last two characters, is 0 to 2 |
| Base64.DecodeAsWritten | graphics.c:85-131 | as written, no buffer exactly for fewer than two characters; otherwise a buffer of `3*len/4 - pad` bytes and the bytes the loop and the tail write |
| Base64.DecodeAsWrittenOverflows | graphics.c:99-129 | "QQ=" allocates one byte and writes two |
| Base64.WritesFillBuffer | graphics.c:99-129 | for a length that is a multiple of four, the writes fill the buffer exactly |
| Base64.LoopTest | graphics.c:106 | the loop test holds at `n == 4k` exactly while whole quartets remain |
| Base64.DecodeQuartet | graphics.c:107-114 | one pass writes the three bytes of its quartet at `cb` |
| Base64.DecodeLoop | graphics.c:106-115 | the loop decodes every whole quartet, in order, and leaves `n` and `cb` after them |
| Base64.DecodeTail | graphics.c:117-129 | after the loop, two more bytes for one pad and one for two |
| Base64.Decode | graphics.c:85-131 | fewer than two characters or a length that is not a multiple of four give a null buffer and `flen` 0; otherwise a fresh buffer of `flen` bytes holding every write |
| Base64.Regroup | graphics.c:112-114 | the three decoding formulas undo the four encoding sextets |
| Base64.TripleInvertsGroup | graphics.c:106-115 | the alphabet table and the three formulas undo the encoding of each group of three bytes |
| Base64.PadOfEncode | graphics.c:94-97 | the pad count of an encoding is 0, 2 or 1 for 0, 1 or 2 leftover bytes |
| Base64.RoundTrip | graphics.c:85-131 | every non-empty byte string, encoded by section 4 of RFC 4648, is accepted and decoded back to itself, with `flen` its length |
| LegacyGraphics.Push | graphics/graphics.c:64-71 | the new head holds `data` and is followed by the old list |
| LegacyGraphics.Pop | graphics/graphics.c:72-91 | the walk unlinks the first node holding the datum |
| LegacyGraphics.RemoveAbsent | graphics/graphics.c:72-91 | the list is unchanged when no node holds the datum |
| LegacyGraphics.RemovePresent | graphics/graphics.c:72-91 | when some node holds the datum, exactly the first such node goes and the rest keep their order |
| LegacyGraphics.RemovePresentCount | graphics/graphics.c:72-91 | popping a present datum removes one node and one occurrence of it, and nothing else |
| LegacyGraphics.PopPush | graphics/graphics.c:64-91 | pushing then popping the same datum gives the old list back |
| LegacyGraphics.OpaqueOverwrites | graphics/graphics.c:228-250 | an opaque colour is written as it is in every mode |
| LegacyGraphics.MaskWritesOnlyOpaque | graphics/graphics.c:232-238 | MASK writes a colour exactly when it is opaque and falls through to NORMAL |
| LegacyGraphics.AlphaOverTransparent | graphics/graphics.c:239-246 | ALPHA over a transparent pixel writes the colour itself |
| LegacyGraphics.AlphaMixes | graphics/graphics.c:239-246 | ALPHA mixes a translucent colour over a visible pixel: alpha at least the colour's, no channel brighter than the brighter input |
| LegacyGraphics.PgetAfterPset | graphics/graphics.c:228-254 | reading after `pset` gives the mode's rewrite at the point (on the surface) and the old colour everywhere else |
| LegacyGraphics.Pset | graphics/graphics.c:228-250 | the point off the surface changes nothing; otherwise exactly its pixel is rewritten by the draw mode |
| LegacyGraphics.PasteColumnsAt | graphics/graphics.c:271-276 | every destination point inside the block holds its old colour rewritten by the mode with the source colour at the same offset (0 off the source); every other point keeps its colour |
| LegacyGraphics.SelfPasteColumnApart | graphics/graphics.c:273-274 | one block column pasted within one buffer equals the same column pasted from a snapshot, as long as the pixels it reads still hold the snapshot's |
| LegacyGraphics.SelfPasteApart | graphics/graphics.c:271-276 | `clip_paste(s, s, …)` whose source block does not overlap its destination block pastes exactly what a paste from an untouched copy of the surface would |
| LegacyGraphics.SelfPasteColumnLoop | graphics/graphics.c:273-274 | with one shared buffer, each `pget` of the inner loop reads the buffer as the earlier `pset`s left it |
| LegacyGraphics.ClipPaste | graphics/graphics.c:271-276 | with two buffers, every block point is rewritten from the source as it was (`PasteColumnsAt` says which points and how); with one shared buffer, the reads see the earlier writes, and `SelfPasteApart` says when that makes no difference |
| LegacyGraphics.Ratio | graphics/graphics.c:307-308 | the corrected 16.16 step never carries a read past the source extent |
| LegacyGraphics.ResizeReadsPastRow | graphics/graphics.c:307-317 | with the `+ 1`, a 1-pixel source scaled to 257 pixels reads column 1, past its row |
| LegacyGraphics.SrcCoordInRange | graphics/graphics.c:312-316 | with the corrected step every destination coordinate reads inside the source |
| LegacyGraphics.SrcCoordSameSize | graphics/graphics.c:306-321 | scaling to the same size copies |
| LegacyGraphics.SrcCoordMonotone | graphics/graphics.c:312-316 | later destination pixels never read earlier source pixels |
| LegacyGraphics.ResizeCell | graphics/graphics.c:310-319 | each destination cell takes the source cell at the scaled row and column, which lies inside the source |
| LegacyGraphics.Resize | graphics/graphics.c:306-321 | every destination pixel holds the source pixel at its scaled coordinates |
| LegacyGraphics.ResizeTo | graphics/graphics.c:323-328 | a fresh nw·nh surface holding the source scaled |
| LegacyGraphics.HlineAt | graphics/graphics.c:383-400 | `hline` rewrites exactly the points of the segment that lie on the surface, whichever way round the endpoints are, and no others |
| LegacyGraphics.VlineAt | graphics/graphics.c:364-381 | `vline` rewrites exactly the points of the segment that lie on the surface and no others |
| LegacyGraphics.Hline | graphics/graphics.c:383-400 | the buffer becomes the segment drawn point by point with `pset` |
| LegacyGraphics.Vline | graphics/graphics.c:364-381 | the buffer becomes the column segment drawn point by point with `pset` |
| LegacyGraphics.StrSize | graphics/graphics.c:1291-1320 | the cursor loop computes the measure of the string as written |
| LegacyGraphics.StrSizeAscii | graphics/graphics.c:1291-1320 | on ASCII text the height is 1 + the number of newlines and each line after the first is counted one wider, its newline included |
| LegacyGraphics.StrSizeCountsNewline | graphics/graphics.c:1298-1316 | "ab\ncd" measures three wide though no line has more than two characters |
| LegacyGraphics.StrSizeCharacters | graphics/graphics.c:1291-1320 | a multi-byte UTF-8 character counts once, and a stray continuation byte stops the measure |
| LegacyGraphics.StrSizeIntended | graphics/graphics.c:1291-1320 | the intended measure: on ASCII text, the longest line and 1 + the number of newlines |
| LegacyGraphics.LongestLineBounds | graphics/graphics.c:1291-1320 | every line is at most the longest line long |
| LegacyGraphics.LongestLineAttained | graphics/graphics.c:1291-1320 | some line is exactly the longest line long |
| EarlyGraphics.Surface.constructor | graphics.c:149-167 | a w·h surface whose pixels are all 0 |
| EarlyGraphics.Surface.Allocated | app.c:15-31 | a w·h surface whose pixels are left as allocated |
| EarlyGraphics.Surface.Fill | graphics.c:178-183 | every pixel becomes `col` |
| EarlyGraphics.Surface.Pset | graphics.c:185-192 | with the intended bounds test: true and exactly one pixel written on the surface, false and nothing changed off it |
| EarlyGraphics.Surface.Pget | graphics.c:194-200 | with the intended bounds test: the pixel on the surface, 0 off it |
| EarlyGraphics.Surface.Xline | graphics.c:249-269 | as written: drawn exactly when the row is on the surface and the ordered start is non-negative and inside the width; then the row from the start to the clamped end is set |
| EarlyGraphics.Surface.Yline | graphics.c:229-247 | as written: the same down a column |
| EarlyGraphics.AcceptsAsWrittenExactly | graphics.c:185-200 | the bounds test as written accepts the surface plus the column x == w and the row y == h |
| EarlyGraphics.PsetAcceptsPastEdge | graphics.c:185-192 | `pset(s, w, 0, c)` writes pixel (0, 1) and `pset(s, w, h-1, c)` writes one past the buffer |
| EarlyGraphics.XlineSpan | graphics.c:229-269 | a span exists exactly when the ordered start is in [0, extent), and then runs from it to the end clamped to extent - 1 |
| EarlyGraphics.XlineSpanIsSpan | graphics.c:229-269 | with a start on the surface the span is the clamped span of `hal_hline` |
| EarlyGraphics.XlineDropsNegativeStart | graphics.c:249-269 | a segment from -1 to 3 on an 8-wide surface draws nothing, though the clamp means 0 to 3 |
| EarlyGraphics.FillColumnsAll | graphics.c:178-183 | all columns filled leave every cell `c` |
| EarlyGraphics.XlineAt | graphics.c:249-269 | `xline` colours exactly the points of the row from its start to its clamped end |
| EarlyGraphics.ReadableCell | graphics.c:222-225 | every cell a block read raw reads lies inside the source buffer |
| EarlyGraphics.BlitColumnsAt | graphics.c:202-227 | after `blit` every destination point of the block holds the source cell at the same offset; every other keeps its colour |
| EarlyGraphics.Blit | graphics.c:202-227 | false with nothing written when the block does not fit the destination; otherwise true and the block copied |
| EarlyGraphics.LineEnds | graphics.c:271-325 | the line starts at (x1, y1) and its last pixel is (x2, y2) |
| EarlyGraphics.LineInBox | graphics.c:271-325 | every pixel lies in the box the endpoints span |
| EarlyGraphics.LineSteps | graphics.c:271-325 | consecutive pixels are distinct neighbours |
| EarlyGraphics.LineDistinct | graphics.c:271-325 | no pixel is written twice, so the line has max(dx, dy) + 1 pixels |
| EarlyGraphics.LineCellsAt | graphics.c:271-325 | after k writes exactly the first k pixels of the line hold the colour |
| EarlyGraphics.LineOnSurface | graphics.c:271-275 | with both endpoints on the surface every pixel is on it |
| EarlyGraphics.Line | graphics.c:271-325 | false with nothing written unless both endpoints are on the surface; otherwise true and exactly the max(dx, dy) + 1 pixels of the line written |
| EarlyGraphics.CircleFitsBox | graphics.c:327-331 | the test passes exactly when the box [xc-r, xc+r] × [yc-r, yc+r] lies on the surface |
| EarlyGraphics.StringSize | graphics.c:588-607 | 8 per character of the longest line across and 8 plus 10 per newline down; a null string gives 0 by 8 |
| EarlyGraphics.String | graphics.c:588-607 | a fresh surface of that size |
| EarlyApp.Rgb2IntIsRgba | app.c:11 | for bytes, `RGB2INT` is the packed colour with alpha 0 |
| EarlyApp.Rgb2IntChannels | app.c:11 | for bytes, the channels read back red, green and blue, and alpha is 0 |
| EarlyApp.Rgb2IntSpills | app.c:11 | nothing masks the arguments: a green of 256 lands in the red byte |
| EarlyApp.CreateSurface | app.c:15-31 | a fresh surface recording w and h, with w·h pixels not cleared |
| EarlyApp.FreeSurface | app.c:33-38 | the handle is null afterwards |
| EarlyApp.FillSurface | app.c:40-44 | every pixel becomes `RGB2INT(r, g, b)` |
| EarlyApp.AcceptsAsWrittenExactly | app.c:46-61 | app.c's test accepts what graphics.c's does: the surface, the column x == w and the row y == h |
| EarlyApp.PsetWritesPastBuffer | app.c:46-53 | `pset(s, w, h, …)` is accepted and writes `buf[h*w + w]`, past the buffer |
| EarlyApp.Pset | app.c:46-53 | with the intended test: true and the pixel set on the surface, false and nothing written off it |
| EarlyApp.Pget | app.c:55-61 | with the intended test: the pixel as a signed int, 0 off the surface |
| EarlyApp.BlitSurface | app.c:63-93 | false with nothing written for a null surface or a block that does not fit; otherwise true and the block copied |
| BdfTokens.Unsigned | extra/graphics_bdf.c:64-69 | an `int` read into an `unsigned int` field keeps its value when non-negative and gains 2^32 when negative |
| BdfTokens.AsInt | extra/graphics_bdf.c:137-138 | an `unsigned int` assigned to an `int` lies in the 32-bit signed range and stores back to the same word |
| BdfTokens.IsIgnoresCase | extra/graphics_bdf.c:63 | a keyword matches whatever the ASCII case of either side, as `strcasecmp` compares |
| BdfTokens.DigitRun | extra/graphics_bdf.c:17-19 | `atoi` stops at the first character that is not a decimal digit |
| BdfTokens.DecimalValueOfDecimal | extra/graphics_bdf.c:17-19 | the decimal digits of a natural read back as that natural |
| BdfTokens.AtoiOfDecimal | extra/graphics_bdf.c:17-19 | `atoi` inverts the decimal writing of every integer, negative ones with their sign |
| BdfTokens.HtoiHex | extra/graphics_bdf.c:45-47 | every hex digit, upper or lower case, maps to its value 0 to 15 |
| BdfTokens.PairOfNibbles | extra/graphics_bdf.c:168-171 | two hex-digit characters make the byte 16·high + low |
| BdfTokens.PairHex | extra/graphics_bdf.c:168-171 | the written digits of a byte value, in either case, read back as that value |
| BdfBits.HalveMask | extra/graphics_bdf.c:212 | halving the bit mask from 128 visits the eight bits in order and then ends the loop with 0 |
| BdfBits.ShiftByteBit | extra/graphics_bdf.c:151-153 | bit j of a shifted byte is bit j − s of that byte, or bit 8 + j − s of the byte before it |
| BdfBits.Stride | extra/graphics_bdf.c:131 | the bytes per bitmap row are (w + 7) / 8 when the sum does not wrap |
| BdfBits.RowBytes | extra/graphics_bdf.c:165-180 | a row line of n characters writes ⌈n/2⌉ bytes, each from two characters, an odd last one from its single digit |
| BdfBits.RowBytesOfHex | extra/graphics_bdf.c:165-180 | a row of hex digits writes exactly the bytes its digit pairs spell |
| BdfBits.StoreFromAt | extra/graphics_bdf.c:173-177 | the stored row holds the line's bytes from `scanline * stride` on and every other byte of the bitmap is unchanged |
| BdfBits.StoreRow | extra/graphics_bdf.c:165-180 | the row loop leaves the bitmap equal to the line's bytes stored from the row's base, stores past the bitmap dropped |
| BdfBits.StoreNext | extra/graphics_bdf.c:177-178 | storing byte j extends the stored row by exactly that byte |
| BdfBits.Store | extra/graphics_bdf.c:177 | `cur[k] = i` changes byte k only, and only inside the buffer |
| BdfBits.RowStorePastBitmap | extra/graphics_bdf.c:173-177 | in an 8×1 font the second row line of a glyph aims at byte 1 of a 1-byte bitmap |
| BdfBits.ShiftedBit | extra/graphics_bdf.c:148-155 | after the ENDCHAR shift each pixel of a row has moved s to the right and the first s pixels of each row are blank |
| BdfBits.ColumnAdd | extra/graphics_bdf.c:150-151 | moving along a row moves along its byte columns |
| BdfBits.ShiftedRows | extra/graphics_bdf.c:148-155 | the shifted bitmap shifts every row independently |
| BdfBits.ShiftRow | extra/graphics_bdf.c:150-154 | the inner loop turns one row into the shifted row and leaves the rest of the bitmap |
| BdfBits.ShiftGlyph | extra/graphics_bdf.c:148-155 | the in-place loops leave the bitmap equal to `Shifted` of its old contents |
| BdfBits.ShiftRows | extra/graphics_bdf.c:148-155 | the outer loop shifts row after row until the whole bitmap is shifted |
| Bdf.HeaderFrom | extra/graphics_bdf.c:57-72 | the header scan from a line: the last FONTBOUNDINGBOX wins, CHARS sets the count and ends it, an empty line or the end of file ends it |
| Bdf.HeaderEndsAtChars | extra/graphics_bdf.c:68-70 | CHARS ends the header with its argument as the count, and the glyph loop starts on the next line |
| Bdf.HeaderKeepsBox | extra/graphics_bdf.c:63-67 | a bounding box followed only by ordinary lines is the header's box, whatever came before |
| Bdf.ScanHeader | extra/graphics_bdf.c:57-72 | the header loop returns the box, count and resume line that `HeaderFrom` defines |
| Bdf.StepShaped | extra/graphics_bdf.c:103-182 | no line of the glyph loop changes the count, the slots or the bitmap sizes |
| Bdf.StepFails | extra/graphics_bdf.c:112-122 | a line fails exactly when it is BITMAP with no slot left or no DWIDTH since the last glyph |
| Bdf.ParseResult | extra/graphics_bdf.c:74-94 | success means a nonempty box, a positive count, an encoding per glyph and every bitmap `((w + 7) / 8) * h` bytes; failure leaves the header's values or a destroyed font |
| Bdf.BeginBitmapOpens | extra/graphics_bdf.c:124-141 | a BITMAP that passes its checks widens the glyph to cover its box, clears its bitmap, records its encoding and starts at row 0 |
| Bdf.EndCharCloses | extra/graphics_bdf.c:142-160 | ENDCHAR closes the glyph and moves to the next slot unless the offset is above 7; only an offset of 1 to 7 shifts the bitmap |
| Bdf.RowWrites | extra/graphics_bdf.c:161-182 | a row line of an open glyph that fits writes exactly its bytes at `scanline * stride` and advances the scanline |
| Bdf.Font.constructor | extra/graphics_bdf.c:49 | a new font is zeroed: no glyphs, no table, an empty box |
| Bdf.Destroy | extra/graphics_bdf.c:25-43 | a font loses its bitmaps, glyphs and table and has count and box zeroed; NULL is left alone |
| Bdf.OpenGlyph | extra/graphics_bdf.c:124-141 | the font after a BITMAP line is the one `BeginBitmapOpens` describes, with a fresh cleared buffer |
| Bdf.CloseGlyph | extra/graphics_bdf.c:142-160 | the font after ENDCHAR is the one the model step gives, the shift done in place |
| Bdf.RowLine | extra/graphics_bdf.c:161-182 | the font after a row line is the one the model step gives, the bytes stored in place |
| Bdf.GlyphLine | extra/graphics_bdf.c:103-182 | one turn of the glyph loop matches the model step; a failing line leaves the font destroyed |
| Bdf.GlyphLoop | extra/graphics_bdf.c:96-184 | the glyph loop ends in the state the model run gives, and false exactly when some line fails |
| Bdf.Load | extra/graphics_bdf.c:49-187 | loading a file yields `Parse` of its lines, and so the guarantees of `ParseResult` |
| BdfDraw.FirstCode | extra/graphics_bdf.c:201-205 | the lookup gives slot 0 or a slot holding the code |
| BdfDraw.FirstCodeFirst | extra/graphics_bdf.c:201-205 | the slot found is the first holding the code, and slot 0 is the answer only when no slot holds it |
| BdfDraw.FindGlyph | extra/graphics_bdf.c:201-205 | the search loop returns the slot `FirstCode` picks for the code point as an `unsigned` |
| BdfDraw.PaintRunAt | extra/graphics_bdf.c:212-213 | colour c of a run lands on pixel px + c when that is on the surface, and nothing else changes |
| BdfDraw.PaintRowAt | extra/graphics_bdf.c:209-214 | with bytes advanced 8 columns, pixel x + c takes bit c % 8 of byte c / 8, and nothing else changes |
| BdfDraw.PaintRowAsWritten | extra/graphics_bdf.c:209-214 | as written, every byte of a row paints the same eight pixels from x, so the last byte wins |
| BdfDraw.PaintRowsAt | extra/graphics_bdf.c:208-215 | a box of rows of n bytes covers the 8n by m pixels from (x, y) bit by bit; every other pixel keeps its colour |
| BdfDraw.PaintRowsAsWritten | extra/graphics_bdf.c:208-215 | as written, each row shows only its last byte on the eight pixels from x, and nothing from x + 8 on is painted |
| BdfDraw.PaintedAt | extra/graphics_bdf.c:207-215 | a painted glyph sets the pixels of its box from bit c % 8 of byte c / 8 of each row; the rest of the surface keeps its colours |
| BdfDraw.PaintByte | extra/graphics_bdf.c:212-213 | the bit loop leaves the surface with the eight pixels of the byte painted from px |
| BdfDraw.PaintGlyphRow | extra/graphics_bdf.c:209-214 | the loop over xx leaves the surface with the glyph's row painted byte by byte |
| BdfDraw.PaintGlyph | extra/graphics_bdf.c:208-215 | the loop over yy leaves the surface with the glyph's box painted from (x, y) |
| BdfDraw.Character | extra/graphics_bdf.c:189-218 | the result is the byte length of the UTF-8 sequence, and the surface has the looked-up glyph's box painted at (x, y) |
| BdfDraw.LayoutNewline | extra/graphics_bdf.c:224-227 | a newline moves the pen back to x and down one line and paints nothing |
| BdfDraw.LayoutGlyph | extra/graphics_bdf.c:228-230 | any other byte paints its glyph at the pen and leaves the rest of the text, a sequence on and 8 columns right |
| BdfDraw.GlyphStep | extra/graphics_bdf.c:228-230 | one turn of the writeln loop consumes at least one byte and keeps the layout still to paint equal to the whole layout |
| BdfDraw.WriteFrom | extra/graphics_bdf.c:223-232 | the loop leaves the surface with every glyph of the layout painted in order |
| BdfDraw.Writeln | extra/graphics_bdf.c:220-233 | NULL writes nothing; a string has the glyphs of its layout from (x, y) painted in order |
| BdfDraw.LayoutAscii | extra/graphics_bdf.c:220-233 | a plain line paints glyph k, the one encoding byte k, at (x + 8k, y), one per byte |
| RogueCommon.Min | examples/roguelike/roguelike/common.h:22 | the result is one of the two and no larger than either |
| RogueCommon.Max | examples/roguelike/roguelike/common.h:23 | the result is one of the two and no smaller than either |
| RogueCommon.Abs | examples/roguelike/roguelike/common.h:24 | the result is non-negative and is the value or its negation |
| RogueCommon.Clamp | examples/roguelike/roguelike/common.h:25 | a value in range is kept, one above is `high`, and the result lies in a non-empty range |
| RogueCommon.ClampIdempotent | examples/roguelike/roguelike/common.h:25 | clamping twice into the same range is clamping once |
| RogueCommon.Sign | examples/roguelike/roguelike/common.h:27 | the sign is -1, 0 or 1, zero exactly for 0, and times the value gives its magnitude |
| RogueCommon.CDiv | examples/roguelike/roguelike/common.h:15 | C's quotient has magnitude \|a\| / \|b\| and is positive only when the signs agree |
| RogueCommon.CRem | examples/roguelike/roguelike/common.h:15 | C's remainder completes the quotient, is smaller than the divisor and has the dividend's sign |
| RogueCommon.CDivRem | examples/roguelike/roguelike/common.h:15 | the remainder is the magnitude remainder carrying the dividend's sign |
| RogueCommon.CDivNatural | examples/roguelike/roguelike/common.h:15 | for a non-negative dividend and positive divisor C's division is the mathematical one |
| RogueCommon.CRemNegative | examples/roguelike/roguelike/common.h:15 | C's -1 % 8 is -1 where the Euclidean remainder is 7 |
| RogueCommon.RndRange | examples/roguelike/roguelike/common.h:15 | for a non-negative `rand()` result the value lies in [a, b] |
| RogueCommon.RndRangeOnto | examples/roguelike/roguelike/common.h:15 | every value of [a, b] comes out of some `rand()` result |
| RogueCommon.GrowCap | examples/roguelike/roguelike/common.h:47-50 | the new capacity covers the count plus the increment and at least doubles a present buffer, and is one of the two |
| RogueCommon.Stretchy.constructor | examples/roguelike/roguelike/common.h:33-41 | a NULL buffer: no header, no items |
| RogueCommon.Stretchy.Count | examples/roguelike/roguelike/common.h:35 | the count is the number of items, 0 for NULL |
| RogueCommon.Stretchy.Grow | examples/roguelike/roguelike/common.h:45-61 | growing leaves a buffer with the `GrowCap` capacity and the same items |
| RogueCommon.Stretchy.Push | examples/roguelike/roguelike/common.h:34 | push appends exactly v, growing the capacity only when `stb__sbneedgrow` says so |
| RogueCommon.Stretchy.Add | examples/roguelike/roguelike/common.h:36 | add returns the old count as the first new index and appends n slots |
| RogueCommon.PushesAmortized | examples/roguelike/roguelike/common.h:43-50 | after k pushes into NULL the capacity lies between k and 2k |
| RogueHeap.LeTransitive | examples/roguelike/roguelike/heap.c:53 | under a sane comparator "does not beat" is transitive |
| RogueHeap.LeTotal | examples/roguelike/roguelike/heap.c:53 | under a sane comparator one of any two does not beat the other, and nothing beats itself |
| RogueHeap.Parent | examples/roguelike/roguelike/heap.c:52 | the parent slot of i > 0 is below it and has i as a child |
| RogueHeap.RootBeatsAll | examples/roguelike/roguelike/heap.c:39-41 | no live element of an ordered heap beats the root |
| RogueHeap.AppendUpReady | examples/roguelike/roguelike/heap.c:27-37 | appending to an ordered heap leaves it ready for `sift` at the new slot |
| RogueHeap.UpSwap | examples/roguelike/roguelike/heap.c:53-55 | swapping a slot that beats its parent moves the only exception up to the parent |
| RogueHeap.DownSwap | examples/roguelike/roguelike/heap.c:69-71 | swapping with the child that beats most moves the only exception down to that child |
| RogueHeap.Pick | examples/roguelike/roguelike/heap.c:60-67 | `sift_down` picks i or one of its two children, never past slot `len` |
| RogueHeap.DownDone | examples/roguelike/roguelike/heap.c:69 | when no child beats the slot, a heap ready there is ordered |
| RogueHeap.DownStep | examples/roguelike/roguelike/heap.c:64-71 | a swap of `sift_down` keeps the live elements, picks a live child under a sane comparator, and moves readiness to it |
| RogueHeap.PickBeats | examples/roguelike/roguelike/heap.c:64-67 | the picked child beats the slot and no sibling beats the picked child |
| RogueHeap.OrderedPrefix | examples/roguelike/roguelike/heap.c:59-73 | heap order depends only on the live prefix |
| RogueHeap.RemoveReady | examples/roguelike/roguelike/heap.c:86 | moving the last of the elements to the root leaves a heap ready for `sift_down` at 0 |
| RogueHeap.SwapMultiset | examples/roguelike/roguelike/heap.c:43-47 | swapping two live slots keeps the live elements |
| RogueHeap.Heap.constructor | examples/roguelike/roguelike/heap.c:11-20 | a new heap has `len` 0 and `size` slots, and is ordered |
| RogueHeap.Heap.Insert | examples/roguelike/roguelike/heap.c:27-37 | insert fails exactly when full and the `realloc` fails, leaving everything; otherwise it appends n, doubling a full array |
| RogueHeap.Heap.Peek | examples/roguelike/roguelike/heap.c:39-41 | NULL exactly for an empty heap, else the root, which no live element of an ordered heap beats |
| RogueHeap.Heap.PeekBeatsAll | examples/roguelike/roguelike/heap.c:39-41 | the root of an ordered heap is beaten by no live element |
| RogueHeap.Heap.Swap | examples/roguelike/roguelike/heap.c:43-47 | the two slots exchange values and nothing else changes |
| RogueHeap.Heap.Sift | examples/roguelike/roguelike/heap.c:49-57 | sift permutes the live elements, leaves an ordered heap alone, and orders a heap whose only exception is slot i |
| RogueHeap.Heap.SiftDown | examples/roguelike/roguelike/heap.c:59-73 | sift_down permutes the live elements and orders a heap whose only exception is slot i |
| RogueHeap.Heap.AddAsWritten | examples/roguelike/roguelike/heap.c:75-80 | as written a successful add appends the element unsifted; a failed one changes only the order |
| RogueHeap.AddAsWrittenBreaksOrder | examples/roguelike/roguelike/heap.c:75-80 | adding 5 to the max-heap [1] as written leaves [1, 5], which is not heap-ordered |
| RogueHeap.Heap.Add | examples/roguelike/roguelike/heap.c:75-80 | the add with its sift on success: the element joins the live ones and an ordered heap stays ordered |
| RogueHeap.Heap.Remove | examples/roguelike/roguelike/heap.c:82-89 | remove returns the old root (NULL when empty), drops exactly it from the live elements and keeps the heap ordered |
| RogueHeap.Heap.RemoveLive | examples/roguelike/roguelike/heap.c:86 | moving the last element to the root drops exactly the old root from the live ones |
| RogueGrid.Get | examples/roguelike/roguelike/dungeon.c:47 | the cell at (x, y) of a map inside it is the element at its index, which lies inside the cells |
| RogueGrid.TileGrid.At | examples/roguelike/roguelike/dungeon.c:47 | `GRID_AT` reads the cell `Get` defines |
| RogueGrid.TileGrid.constructor | examples/roguelike/roguelike/dungeon.c:28-45 | a fresh w·h map with every cell 0 |
| RogueGrid.Rule | examples/roguelike/roguelike/dungeon.c:228-231 | more walls than `hi` make a wall, fewer than `lo` (and not above `hi`) floor, otherwise the cell stays |
| RogueGrid.VisitOrder | examples/roguelike/roguelike/dungeon.c:214-215 | the t-th cell the column-by-column loops visit is (t / h, t % h), inside the map |
| RogueGrid.VisitIndex | examples/roguelike/roguelike/dungeon.c:214-215 | cell (i, j) is visited (i·h + j)-th and the next visit is its successor in the loops |
| RogueGrid.Initial | examples/roguelike/roguelike/dungeon.c:209-211 | the starting map is w·h cells, each as `InitCell` says: a wall on the border, else as `filled` |
| RogueGrid.InitialWalled | examples/roguelike/roguelike/dungeon.c:209-211 | the starting map holds only 0 and 1 and its border is walled |
| RogueGrid.WallCountTerms | examples/roguelike/roguelike/dungeon.c:216-226 | the wall count is the sum of the nine terms of the neighbour loops, the cell itself counting 0 |
| RogueGrid.BorderCount | examples/roguelike/roguelike/dungeon.c:218-226 | on a 0/1 map with a walled border, a border cell counts at least 5 walls |
| RogueGrid.UpdateWalled | examples/roguelike/roguelike/dungeon.c:228-231 | with `hi` below 5 one update keeps the map 0/1 with a walled border |
| RogueGrid.SweepStep | examples/roguelike/roguelike/dungeon.c:214-232 | updating cell (i, j) in place is the step from the (i·h + j)-th map of a pass to the next |
| RogueGrid.PassesWalled | examples/roguelike/roguelike/dungeon.c:213-234 | with `hi` below 5 every pass keeps the cells 0 or 1 and the border walled |
| RogueGrid.CountWalls | examples/roguelike/roguelike/dungeon.c:216-226 | the neighbour loops count the walls `WallCount` defines, outside cells counting as walls |
| RogueGrid.Pass | examples/roguelike/roguelike/dungeon.c:214-233 | one pass leaves the map of every cell updated in place, column by column |
| RogueGrid.Seed | examples/roguelike/roguelike/dungeon.c:209-211 | the fill loops leave the starting map `Initial` |
| RogueGrid.Automaton | examples/roguelike/roguelike/dungeon.c:205-237 | a fresh w·h map equal to the starting map after `iterations` passes (none for a negative count) |
| RogueGrid.CelluarAutomata | examples/roguelike/roguelike/dungeon.c:205-237 | the dungeon generator's map with thresholds 4 and 3; it is 0/1 with a walled border |
| RogueGrid.CellularAutomata | examples/roguelike/roguelike/cave.cpp:3-46 | the cave generator's map with `survival` and `starve`; it is 0/1 with a walled border when `survival` is below 5 |
| RogueRegions.PathInRegion | examples/roguelike/roguelike/dungeon.c:55-85 | every cell reachable from the start over cells of its value is in the region |
| RogueRegions.RegionLeast | examples/roguelike/roguelike/dungeon.c:55-85 | any closed set holding the start holds the whole region |
| RogueRegions.RegionReach | examples/roguelike/roguelike/dungeon.c:239-256 | two regions of one kind that share a cell contain each other's starts |
| RogueRegions.MarksPush | examples/roguelike/roguelike/dungeon.c:70-74 | after flagging a cell the flagged cells are exactly the queued ones |
| RogueRegions.SearchPush | examples/roguelike/roguelike/dungeon.c:70-74 | queueing and flagging an unqueued admissible neighbour keeps the search invariant |
| RogueRegions.Offer | examples/roguelike/roguelike/dungeon.c:69-76 | a candidate is queued exactly when admissible and unflagged, keeping the invariant, and the measure drops when it is |
| RogueRegions.Nsew | examples/roguelike/roguelike/common.hpp:46-52 | `nsew` gives four cells |
| RogueRegions.NsewNeighbours | examples/roguelike/roguelike/common.hpp:46-52 | the four cells are exactly the 4-neighbours |
| RogueRegions.ClosedNext | examples/roguelike/roguelike/dungeon.c:63-80 | once a dequeued cell's admissible neighbours are queued, one more cell of the queue is closed |
| RogueRegions.ExpandColumn | examples/roguelike/roguelike/dungeon.c:68-78 | one column of the block queues every admissible neighbour in it, only appending to the queue |
| RogueRegions.ExpandPlus | examples/roguelike/roguelike/dungeon.c:67-79 | expanding a dequeued cell queues all its admissible 4-neighbours and keeps the invariant |
| RogueRegions.ExpandNsew | examples/roguelike/roguelike/cave.cpp:62-70 | the `nsew` loop queues all admissible 4-neighbours at least one in from the edge |
| RogueRegions.StartSearch | examples/roguelike/roguelike/dungeon.c:57-62 | the search starts with a fresh flag map where only the start is flagged and the queue holds the start |
| RogueRegions.RegionTiles | examples/roguelike/roguelike/dungeon.c:55-85 | the result is the region of the start: its 4-connected cells of the same value, each once |
| RogueRegions.FindRegionTiles | examples/roguelike/roguelike/cave.cpp:48-73 | the result is the region of the start over cells one in from the edge |
| RogueLabels.RegionCells | examples/roguelike/roguelike/dungeon.c:55-85 | every cell of a region is admissible for its kind |
| RogueLabels.FreshRegion | examples/roguelike/roguelike/dungeon.c:245-247 | a region whose start no earlier region covers is disjoint from all of them |
| RogueLabels.FlagAll | examples/roguelike/roguelike/dungeon.c:248-251 | the flagged cells afterwards are the old ones and the region's |
| RogueLabels.LabelledAppend | examples/roguelike/roguelike/dungeon.c:245-251 | appending a region and flagging it keeps the flags equal to the cells covered |
| RogueLabels.LabelCell | examples/roguelike/roguelike/dungeon.c:245-252 | the loop body flags cell (i, j), never clears a flag and keeps the labelling invariant |
| RogueLabels.GetRegions | examples/roguelike/roguelike/dungeon.c:239-256 | floors are the regions of 0, walls those of 1; each list is disjoint, and together they cover the map |
| RogueLabels.RegionsPartition | examples/roguelike/roguelike/dungeon.c:239-256 | a cell lies in exactly one region of its own value and in none of the other |
| RogueLabels.FindCell | examples/roguelike/roguelike/cave.cpp:80-87 | the loop body flags a cell of the kind, never clears a flag and keeps the invariant |
| RogueLabels.FindRegions | examples/roguelike/roguelike/cave.cpp:75-89 | the regions of the kind are disjoint and cover every admissible cell |
| RogueRooms.Repeat | examples/roguelike/roguelike/dungeon.c:291 | k copies of p |
| RogueRooms.SweptPlus | examples/roguelike/roguelike/dungeon.c:288-290 | the nine-cell scan counts exactly the nonzero cells of the plus around p |
| RogueRooms.ReadCell | examples/roguelike/roguelike/dungeon.c:290 | the read gives the cell the model defines, 0 off the cells |
| RogueRooms.PushEdges | examples/roguelike/roguelike/dungeon.c:287-291 | p is appended once for every nonzero cell of the plus around it |
| RogueRooms.EdgesOfTiles | examples/roguelike/roguelike/dungeon.c:286-292 | a point is an edge exactly when it is a tile whose plus holds a nonzero cell |
| RogueRooms.RoomEdges | examples/roguelike/roguelike/dungeon.c:286-292 | the edge loop produces `EdgesOf` the room's tiles |
| RogueRooms.FillInCell | examples/roguelike/roguelike/dungeon.c:265-268 | filling in sets exactly the cells of the tiles to 8 |
| RogueRooms.FillRegion | examples/roguelike/roguelike/dungeon.c:265-268 | the loop leaves the map filled in over the tiles |
| RogueRooms.Rooms | examples/roguelike/roguelike/dungeon.c:262-295 | one room per region of at least 10 tiles, numbered from 0 in order, holding that region's tiles |
| RogueRooms.FilledCell | examples/roguelike/roguelike/dungeon.c:263-269 | tiles of regions under 10 tiles hold 8, every other cell is as before |
| RogueRooms.FirstLargestAppend | examples/roguelike/roguelike/dungeon.c:280-283 | a new room becomes the first largest only when strictly larger |
| RogueRooms.PickMain | examples/roguelike/roguelike/dungeon.c:280-283 | the main-room update picks the first largest room and tracks its size |
| RogueRooms.FillOne | examples/roguelike/roguelike/dungeon.c:263-294 | after region i the map and rooms are those of the first i + 1 regions |
| RogueRooms.FillRooms | examples/roguelike/roguelike/dungeon.c:258-297 | small regions are filled in, the rooms are `Rooms`, and the main room is the first largest (unchanged when there are none) |
| RogueRooms.DungeonIn | examples/roguelike/roguelike/dungeon.c:109-111 | NULL exactly off the map, otherwise the index of the cell |
| RogueRooms.DungeonSolid | examples/roguelike/roguelike/dungeon.c:113-116 | solid exactly for a cell on the map that is not floor |
| RogueLinks.UnmarkedMono | examples/roguelike/roguelike/dungeon.c:299-306 | marking never raises the count of unmarked rooms, and marking a new one lowers it |
| RogueLinks.ReachedAppend | examples/roguelike/roguelike/dungeon.c:302-304 | rooms reached through a joined room extend the reached order |
| RogueLinks.UpdateMainConnections | examples/roguelike/roguelike/dungeon.c:299-306 | marks are only added, r ends marked, and every room joined to a newly marked one is marked |
| RogueLinks.WalkMarked | examples/roguelike/roguelike/dungeon.c:299-306 | a walk from r through rooms unmarked before ends at a marked room (completeness) |
| RogueLinks.ReachedWalk | examples/roguelike/roguelike/dungeon.c:299-306 | every room the marking reached has a walk to it from r through reached rooms (soundness) |
| RoguePath.LineOf | examples/roguelike/roguelike/dungeon.c:315-329 | the long axis is y exactly when \|dx\| < \|dy\|; `longest` is the larger magnitude and `shortest` lies between 0 and it |
| RoguePath.FiredStep | examples/roguelike/roguelike/dungeon.c:350-357 | a step adds `shortest` to the accumulator, and exactly when it reaches `longest` a short-axis step is taken and `longest` subtracted |
| RoguePath.FiredStart | examples/roguelike/roguelike/dungeon.c:332 | the accumulator starts at `longest / 2` with no short-axis step |
| RoguePath.FiredEnd | examples/roguelike/roguelike/dungeon.c:333-358 | after `longest` steps exactly `shortest` short-axis steps were taken |
| RoguePath.FiredBounds | examples/roguelike/roguelike/dungeon.c:333-358 | the short-axis steps so far lie between 0 and `shortest` |
| RoguePath.CentreEnds | examples/roguelike/roguelike/dungeon.c:333-358 | the walk starts at a and after `longest` steps ends at b |
| RoguePath.CentreStep | examples/roguelike/roguelike/dungeon.c:345-357 | consecutive points of the walk are neighbours, diagonals included, so the corridor has no gap |
| RoguePath.Advance | examples/roguelike/roguelike/dungeon.c:345-357 | the loop's update of x, y and the accumulator takes the walk from point i to point i + 1 |
| RoguePath.CentreInBox | examples/roguelike/roguelike/dungeon.c:333-358 | every point of the walk lies in the box spanned by a and b |
| RoguePath.PartialAt | examples/roguelike/roguelike/dungeon.c:334-343 | partway through the disc loops a cell holds 9 exactly when an offset visited so far paints it |
| RoguePath.PartialStep | examples/roguelike/roguelike/dungeon.c:335-341 | visiting one offset paints at most its one cell, and only when the guard holds |
| RoguePath.PartialColumn | examples/roguelike/roguelike/dungeon.c:334-335 | finishing column cx is starting column cx + 1 |
| RoguePath.PartialNone | examples/roguelike/roguelike/dungeon.c:334 | before the first offset nothing is painted |
| RoguePath.PaintDisc | examples/roguelike/roguelike/dungeon.c:334-343 | the disc loops leave the map `Disc` of the old one: the guarded cells within radius r set to 9 |
| RoguePath.Stride | examples/roguelike/roguelike/dungeon.c:345-357 | the stepping half of the loop body moves the pen to the next pen of the line |
| RoguePath.TrailClosed | examples/roguelike/roguelike/dungeon.c:333-358 | step by step the pen passes through the closed-form points, its accumulator the remainder of the progress |
| RoguePath.WalkCentre | examples/roguelike/roguelike/dungeon.c:333-358 | the walk's points are the closed-form ones and lie in the box of a and b |
| RoguePath.WalkSnoc | examples/roguelike/roguelike/dungeon.c:333-358 | one more point of the walk is one more disc painted |
| RoguePath.CorridorStep | examples/roguelike/roguelike/dungeon.c:334-357 | one loop pass paints the disc at the pen and moves the pen to the next point |
| RoguePath.Corridor | examples/roguelike/roguelike/dungeon.c:332-358 | the loop leaves the map with a disc painted at each of the `longest` points of the walk, in order |
| RoguePath.DrawConnectionPath | examples/roguelike/roguelike/dungeon.c:314-359 | the dungeon corridor from a to b with radius `RND_RANGE(1, 3)` |
| RoguePath.DrawConnection | examples/roguelike/roguelike/cave.cpp:142-185 | the cave corridor from a to b with its guard, for the drawn radius |
| RoguePath.DungeonCorridor | examples/roguelike/roguelike/dungeon.c:339-340 | after the dungeon's discs a cell holds 9 exactly when it lies in one of them, and is unchanged otherwise |
| RoguePath.CaveCorridorChanges | examples/roguelike/roguelike/cave.cpp:165-166 | a cell the cave corridor changes becomes 9, lies in a disc and is at least one in from the left and top |
| RoguePath.CaveCorridorPaints | examples/roguelike/roguelike/cave.cpp:165-166 | every disc cell whose cave guard held beforehand becomes 9 |
| RogueConnect.SqDist | examples/roguelike/roguelike/dungeon.c:374 | the squared distance is non-negative |
| RogueConnect.ScanAppend | examples/roguelike/roguelike/dungeon.c:372-384 | scanning two runs of candidates is scanning them one after the other |
| RogueConnect.ScanNearest | examples/roguelike/roguelike/dungeon.c:375-382 | the scan keeps nothing only with no candidate, else a candidate or the start no farther than any candidate |
| RogueConnect.EdgeMatches | examples/roguelike/roguelike/dungeon.c:373-383 | one candidate per edge of the other room, in order, with its squared distance |
| RogueConnect.PairMatchesAre | examples/roguelike/roguelike/dungeon.c:372-384 | the candidates between two rooms are exactly their edge pairs |
| RogueConnect.MatchPair | examples/roguelike/roguelike/dungeon.c:366-385 | every candidate of a row is a pair of edge tiles of the two rooms |
| RogueConnect.RoomMatchesAre | examples/roguelike/roguelike/dungeon.c:366-385 | the candidates of a row are the edge pairs of the rooms it may join: not itself, not already linked |
| RogueConnect.NearestIsNearest | examples/roguelike/roguelike/dungeon.c:364-385 | no pair exactly when no room may be joined; otherwise a candidate no farther than any other |
| RogueConnect.ScanEdge | examples/roguelike/roguelike/dungeon.c:373-383 | the innermost loop scans the candidates of one edge |
| RogueConnect.ScanPair | examples/roguelike/roguelike/dungeon.c:372-384 | the two edge loops scan the candidates of one room pair |
| RogueConnect.NearestPair | examples/roguelike/roguelike/dungeon.c:365-385 | the room loop finds the nearest joinable pair |
| RogueConnect.CorridorNines | examples/roguelike/roguelike/dungeon.c:339-340 | every cell a corridor changes becomes 9 |
| RogueConnect.Join | examples/roguelike/roguelike/dungeon.c:387-396 | the pair is linked both ways and no other pair, the marks spread across it, and the corridor is dug |
| RogueConnect.MarkAcross | examples/roguelike/roguelike/dungeon.c:388-391 | marks only grow, and when either end was marked both end marked |
| RogueConnect.Link | examples/roguelike/roguelike/dungeon.c:392-393 | the two rooms are linked both ways and no other link changes |
| RogueConnect.Joinable | examples/roguelike/roguelike/dungeon.c:387 | a row joins its nearest pair exactly when it lies within the squared distance 50 |
| RogueConnect.ConnectRow | examples/roguelike/roguelike/dungeon.c:364-397 | one row joins its nearest joinable pair within the distance, or changes nothing |
| RogueConnect.ConnectClosestRooms | examples/roguelike/roguelike/dungeon.c:361-398 | links and marks are only added, each new link runs both ways between rooms within the distance, and the map only gains 9s |
| RogueConnect.JoinedNear | examples/roguelike/roguelike/dungeon.c:387 | a pair a row joins links rooms with edge tiles within the joining distance |
| RogueCave.FirstLargestOf | examples/roguelike/roguelike/cave.cpp:114 | the first largest region, 0 for none |
| RogueCave.CaveEdgesAre | examples/roguelike/roguelike/cave.cpp:119-127 | an edge is a tile touching a wall, and every such tile is an edge |
| RogueCave.CaveEdgesShorter | examples/roguelike/roguelike/cave.cpp:119-127 | thanks to the `break` no tile is an edge twice |
| RogueCave.CaveRooms | examples/roguelike/roguelike/cave.cpp:115-129 | region i becomes room i with its tiles and its edges |
| RogueCave.IsEdge | examples/roguelike/roguelike/cave.cpp:120-126 | the `nsew` test with its `break` says whether the tile touches a wall |
| RogueCave.CaveRoomEdges | examples/roguelike/roguelike/cave.cpp:119-127 | the loop over a room's tiles yields its edges in order |
| RogueCave.OpenAround | examples/roguelike/roguelike/cave.cpp:264-268 | between 0 and 3 open cells among the up-left, left and up neighbours |
| RogueCave.CountOpen | examples/roguelike/roguelike/cave.cpp:264-268 | the loops count the open cells `OpenAround` defines |
| RogueCave.Walled | examples/roguelike/roguelike/cave.cpp:258-259 | every 1 becomes 8 and every other cell stays |
| RogueCave.ShadedValues | examples/roguelike/roguelike/cave.cpp:262-271 | shading adds no 1, leaves every edge tile between 5 and 8, and changes no other cell |
| RogueCave.AllEdgesOnMap | examples/roguelike/roguelike/cave.cpp:262-263 | the edges of all rooms lie on the map when each room's do |
| RogueCave.FinalizedMap | examples/roguelike/roguelike/cave.cpp:257-271 | after `finalize_map` no cell is 1 and every room's edge tile holds 5 to 8 |
| RogueCave.EdgeInAll | examples/roguelike/roguelike/cave.cpp:262-263 | each room's edges are among all the edges |
| RogueCave.ShadedAppend | examples/roguelike/roguelike/cave.cpp:262-271 | shading one run of edges after another is shading their concatenation |
| RogueCave.ChosenSize | examples/roguelike/roguelike/cave.cpp:281-287 | the map size is never 0: a size given as 0 is drawn from 50 to 200, the width first, and a given size is kept |
| RogueCave.Cave.constructor | examples/roguelike/roguelike/cave.cpp:280-292 | the generation parameters and depth are stored, the size is `ChosenSize`, the cave has no rooms, and "Generating map at WxH" is appended to the info list when there is one |
| RogueCave.Cave.GetRooms | examples/roguelike/roguelike/cave.cpp:91-138 | the floors found are 4-connected floor regions of the map inside its one-tile border, pairwise disjoint and covering every floor tile there; the main room is the first largest of them and the rooms gain `CaveRooms` of them |
| RogueCave.Cave.MakeRooms | examples/roguelike/roguelike/cave.cpp:114-131 | each floor region becomes a room in order, and the main room is the first largest region |
| RogueCave.Cave.ShadeRoom | examples/roguelike/roguelike/cave.cpp:263-270 | the edge loop shades the room's edges in order |
| RogueCave.Cave.FinalizeMap | examples/roguelike/roguelike/cave.cpp:257-271 | the map becomes its walled form shaded at every room's edges, room after room |
| RogueTiles.Decode | examples/roguelike/roguelike/dungeon.cpp:28-42 | 0 is walkable floor, 1 to 9 solid walls whose glyph gives back the value, 10 a walkable exit, anything else solid abyss |
| RogueTiles.GlyphsDrawn | examples/roguelike/roguelike/dungeon.hpp:15-27 | every glyph the decoding writes has a drawing except the exit's '?', and walls 1 to 8 are drawn as that many '#' |
| RogueTiles.Resize | examples/roguelike/roguelike/dungeon.cpp:23-26 | `resize` gives n elements and keeps the first ones |
| RogueTiles.DecodeRow | examples/roguelike/roguelike/dungeon.cpp:27-43 | a row of values becomes the row of their decoded tiles |
| RogueTiles.UidCounter.constructor | examples/roguelike/roguelike/dungeon.cpp:5 | the shared counter starts at 0 |
| RogueTiles.Dungeon.constructor | examples/roguelike/roguelike/dungeon.cpp:3-7 | a new dungeon takes the counter's value as its id and advances the counter by one |
| RogueTiles.Dungeon.FillMap | examples/roguelike/roguelike/dungeon.cpp:21-45 | the map takes the grid's shape row by row, each tile decoded from its value, and `size` is the row count and first row's length |
| RogueTiles.BuildDungeons | examples/roguelike/roguelike/dungeon.cpp:3-7 | dungeons built one after another from a fresh counter get the ids 0, 1, 2, … |
| RogueMain.Entity.constructor | examples/roguelike/roguelike/main.c:40-43 | an entity holds its glyph and position |
| RogueMain.Target | examples/roguelike/roguelike/main.c:46-47 | the target lies on a non-empty map, and is the moved position whenever that is on the map |
| RogueMain.MoveEntity | examples/roguelike/roguelike/main.c:45-54 | the entity moves to the clamped target exactly when that is a different, non-solid tile; it never leaves the map and only steps on floor |
| RogueMain.Panel.constructor | examples/roguelike/roguelike/main.c:56-59 | a panel starts at (0, 0) |
| RogueMain.SetPanelPos | examples/roguelike/roguelike/main.c:61-66 | a non-null panel ends at (x, y) |
| RogueMain.Aligned | examples/roguelike/roguelike/main.c:78 | the camera coordinate rounded toward zero to a multiple of 8, less than 8 away and no larger in magnitude |
| RogueMain.SetVec2Relative | examples/roguelike/roguelike/main.c:72-75 | the camera puts tile `pos`'s corner half a view (in C's division) from the view's corner |
| RogueMain.GetVec2Relative | examples/roguelike/roguelike/main.c:77-80 | the tile returned for a non-negative screen pixel is the one whose 8-pixel cell holds that pixel plus the aligned camera |
| RogueMain.GridToScreen | examples/roguelike/roguelike/main.c:82-85 | a tile's screen position is a multiple of 8 |
| RogueMain.CDivEight | examples/roguelike/roguelike/common.h:15 | C's division of a multiple of 8 by 8 is exact with remainder 0 |
| RogueMain.AlignedMultiple | examples/roguelike/roguelike/main.c:78 | an aligned camera coordinate is a multiple of 8 |
| RogueMain.CDivNonNegative | examples/roguelike/roguelike/main.c:78 | on a non-negative pixel C's division by 8 is the mathematical one |
| RogueMain.ScreenRoundTrip | examples/roguelike/roguelike/main.c:77-85 | `get_vec2_relative` of `grid_to_screen` gives back the tile, whatever the camera |
| RogueMain.PixelInTile | examples/roguelike/roguelike/main.c:77-85 | every pixel of a tile drawn at non-negative screen coordinates reads back as that tile |
| RogueMain.CameraCentres | examples/roguelike/roguelike/main.c:72-85 | with the camera of `set_vec2_relative` the player is drawn at the centre of a view whose half sizes are whole tiles |
| RogueMain.CentredAxis | examples/roguelike/roguelike/main.c:72-85 | on one axis the aligned camera places the player half a view in |
| RogueMain.GameViewCentre | examples/roguelike/roguelike/main.c:147-152 | in the 480·480 game view the player is drawn at (240, 240) |
| RogueEngine.KeyAsWritten | examples/roguelike/roguelike/game_engine.hpp:28-33 | as written a key code is stored exactly when it is below `KB_KEY_LAST`, in its own slot |
| RogueEngine.MenuKeyPastEnd | examples/roguelike/roguelike/game_engine.hpp:28-33 | the menu key has no slot in the declared array |
| RogueEngine.PressAsWritten | examples/roguelike/roguelike/game_engine.hpp:21-38 | as written button b is stored in slot b − 1, and only for b from 1 to 7 |
| RogueEngine.IsBtnDownAsWritten | examples/roguelike/roguelike/game_engine.hpp:164-166 | as written `is_btn_down(b)` reads slot b, and only for b below 7 |
| RogueEngine.LastButtonNoSlot | examples/roguelike/roguelike/game_engine.hpp:21-38 | as written the eighth button has no slot: its press is stored past the seven slots and `is_btn_down(7)` reads past them |
| RogueEngine.UntouchedKey | examples/roguelike/roguelike/game_engine.hpp:32-35 | a key no callback touches keeps its state through the frame |
| RogueEngine.UntouchedButton | examples/roguelike/roguelike/game_engine.hpp:37-40 | a button no callback touches keeps its state through the frame |
| RogueEngine.KeysUntouched | examples/roguelike/roguelike/game_engine.hpp:32-35 | every key no callback touches keeps its state |
| RogueEngine.ButtonsUntouched | examples/roguelike/roguelike/game_engine.hpp:37-40 | every button no callback touches keeps its state |
| RogueEngine.Settled | examples/roguelike/roguelike/game_engine.hpp:127-128 | the end of a frame zeroes wheel and modifier and keeps buttons and position |
| RogueEngine.AppliedSize | examples/roguelike/roguelike/game_engine.hpp:63-66 | the stack after an update's pushes and pops grows by at most one per request; pushes alone keep the old stack below the new states |
| RogueEngine.EffectCallsNoRender | examples/roguelike/roguelike/game_engine.hpp:63-66 | pushes and pops call only `enter` and `exit` |
| RogueEngine.FrameCallsShape | examples/roguelike/roguelike/game_engine.hpp:119-124 | a frame first calls `update` on the top state, and then, when active, `render` on the top of the stack as that update's pushes and pops left it; nothing with no state, and no `render` when inactive or when the stack ends empty |
| RogueEngine.FrameStackSize | examples/roguelike/roguelike/game_engine.hpp:119-124 | the stack after a frame is the one the top state's update asked for; an empty stack stays empty and a frame without pops never shrinks it |
| RogueEngine.PushThenPop | examples/roguelike/roguelike/game_engine.hpp:63-66 | a push asked for in one frame and a pop in the next give back the stack |
| RogueEngine.MenuUpdate | examples/roguelike/roguelike/menu_state.cpp:9-12 | the menu asks for a push of the game state exactly when SPACE is pressed, and for nothing otherwise |
| RogueEngine.PlayingUpdate | examples/roguelike/roguelike/main_state.cpp:45-48 | while playing the game state asks for a pop exactly when SPACE is pressed |
| RogueEngine.MenuToGameAndBack | examples/roguelike/roguelike/menu_state.cpp:9-12 | pressing SPACE on the menu enters the game state and renders it in the same frame; pressing SPACE while playing exits it and renders the menu again |
| RogueEngine.Pushed | examples/roguelike/roguelike/game_engine.hpp:63-66 | pushing puts the state on top and keeps the rest |
| RogueEngine.Popped | examples/roguelike/roguelike/game_engine.hpp:137-142 | popping an empty stack leaves it empty, otherwise it removes exactly the top |
| RogueEngine.PopUndoesPush | examples/roguelike/roguelike/game_engine.hpp:63-66 | popping undoes pushing |
| RogueEngine.Engine.constructor | examples/roguelike/roguelike/game_engine.hpp:69-95 | built for the given platform (macOS or not), running and active, a 640·480 window, no key or button down, and the menu state pushed and entered |
| RogueEngine.Engine.OnKeyboard | examples/roguelike/roguelike/game_engine.hpp:32-35 | key `sym` reads as `down`, the modifier is set, and no other key changes |
| RogueEngine.Engine.OnMouseButton | examples/roguelike/roguelike/game_engine.hpp:37-40 | button b (1 to 8) reads as `down` through `is_btn_down(b - 1)`, the modifier is set, and no other button changes |
| RogueEngine.Engine.OnScroll | examples/roguelike/roguelike/game_engine.hpp:47-50 | the wheel is (dx, dy), the modifier is set, and the buttons are kept |
| RogueEngine.Engine.OnActive | examples/roguelike/roguelike/game_engine.hpp:52-54 | the window is active exactly when focused |
| RogueEngine.Engine.OnResize | examples/roguelike/roguelike/game_engine.hpp:56-58 | the screen size becomes (w, h) |
| RogueEngine.Engine.Dispatch | examples/roguelike/roguelike/game_engine.hpp:72-85 | one event's callback updates keyboard, mouse, focus and size as the step functions say |
| RogueEngine.Engine.Push | examples/roguelike/roguelike/game_engine.hpp:63-66 | the state is entered and becomes the top |
| RogueEngine.Engine.Pop | examples/roguelike/roguelike/game_engine.hpp:137-142 | the top state is exited and removed; an empty stack is left alone |
| RogueEngine.Engine.ApplyEffects | examples/roguelike/roguelike/game_engine.hpp:63-66 | an update's requests are made in order through `push` and `pop`: the stack and the calls become `Applied` and `EffectCalls` |
| RogueEngine.Engine.Request | examples/roguelike/roguelike/game_engine.hpp:63-66 | one request goes through `push` (calling `enter` on the new state) or `pop` (calling `exit` on the old top): the stack and the calls grow by exactly that step |
| RogueEngine.Engine.UpdateTop | examples/roguelike/roguelike/game_engine.hpp:119-124 | `update` on the top state only, its requests in order, then `render` on the new top when active: the stack becomes `FrameStack` and the calls grow by `FrameCalls` |
| RogueEngine.Engine.IsKeyDown | examples/roguelike/roguelike/game_engine.hpp:144-146 | slot `key` of the current keyboard; its meaning is stated by `OnKeyboard` (the key reads as the last event left it) and `Frame` |
| RogueEngine.Engine.LastKeyDown | examples/roguelike/roguelike/game_engine.hpp:148-150 | slot `key` of the snapshot; `Frame` states the snapshot is the keyboard before the frame's events |
| RogueEngine.Engine.KeyPressed | examples/roguelike/roguelike/game_engine.hpp:160-162 | down at the snapshot and up now; `Frame` states it holds exactly when the key went up this frame |
| RogueEngine.Engine.IsBtnDown | examples/roguelike/roguelike/game_engine.hpp:164-166 | slot `btn` (0 to 7) of the current mouse; `OnMouseButton` states button btn + 1 sets it |
| RogueEngine.Engine.LastBtnDown | examples/roguelike/roguelike/game_engine.hpp:168-170 | slot `btn` of the snapshot; `Frame` states the snapshot is the mouse before the frame's events |
| RogueEngine.Engine.BtnPressed | examples/roguelike/roguelike/game_engine.hpp:172-174 | down at the snapshot and up now; `Frame` states it holds exactly when the button went up this frame |
| RogueEngine.Engine.Poll | examples/roguelike/roguelike/game_engine.hpp:110 | the frame's events are applied in order |
| RogueEngine.Engine.Frame | examples/roguelike/roguelike/game_engine.hpp:106-128 | the snapshots are the old input, the events are applied, the platform's quit keys (Super with Q or W on macOS, Alt with F4 elsewhere) stop the loop, the top state is updated, the pushes and pops it asks for change the stack, the new top is rendered when active, and `key_pressed(k)` and `btn_pressed(b)` hold exactly when that key or button was down at the snapshot and is up now, never for one no event touched |
| RogueEngine.Engine.EndFrame | examples/roguelike/roguelike/game_engine.hpp:112-128 | the platform's quit keys clear `running`, the stack becomes what the update asked for, the frame's calls are made and the mouse is settled |
| RogueEngine.Engine.Run | examples/roguelike/roguelike/game_engine.hpp:102-131 | the loop runs frames until the window closes or the quit keys stop it, returns `EXIT_SUCCESS`, and leaves the stack the frames run asked for |

## Left out

- Window back-ends, the GPU layers, the event loop of `sgl_poll`, threads and clocks are foreign calls; the model receives their results (events, tick counts) as parameters.
- Floating point is not modelled: the antialiased and scaled drawing routines, the mouse-move scaling of `on_mouse_move` in game_engine.hpp, the wheel offsets (kept as `real` and never computed on), and the float distances of cave.cpp's `connect_closest_rooms` (its `< 50.f` test) are left out.
- A* path finding of the roguelike (`heuristic`, `get_neighbours`, `visit_neighbours`, `astar`) is left out because it works on float costs.
- GIF decoding (the LZW decoder) and the BMP and image readers are left out; only the BMP writer and the GIF frame bookkeeping are modelled. The built-in font table is data, not logic, and is not copied.
- `dungeon_t::draw_to`, `draw_dungeon`, the panel surfaces, the `on_resize` redrawing, the `sgl_*` drawing calls and main.c's main loop are drawing and window code and are left out; RogueMain.Panel keeps only the panel's position.
- The generator compositions are left out as wholes: `new_cave` and `dungeon_connect_rooms` (dungeon.c:400-476), `cave_t::generate` and `connect_rooms` (cave.cpp:236-255, 294-301), `fill_entities` and `dungeon_fill`. Each calls modelled steps with random numbers, but they also do steps of their own that no member models: `new_cave` clears every wall region of fewer than 50 tiles and shades the other wall tiles as 8 less their open neighbours (dungeon.c:450-475); and both generators split the rooms by `mci` into connected and unconnected ones and connect those two lists a second time (dungeon.c:415-423, cave.cpp:242-250).
- The keyboard modifier getters and the `key_mod` helpers only return a stored field and have no member.
- RoguePath.DrawConnectionPath: the radius `RND_RANGE(1, 3)` that `rand()` gives is the parameter `roll`.
- RogueGrid.Seed: the random fill that `rand()` decides is the parameter `filled`.
- RogueConnect.ConnectClosestRooms: the random numbers it draws are the parameter `rolls`.
- BuildScript.Run: the macOS version that `sw_vers` prints is the parameters `maj` and `min`, and the files on disk are a map.
- Strings.Downcase and Strings.Upcase change only the ASCII letters; Ruby's `downcase` and `upcase` also map other Unicode letters.
- Base64.Sextet reads a byte of 128 or more as 0; graphics.c:107-110 indexes the table with a signed `char`, which reads before the table, and the model does not model that read.
- Base64.Decode: a failing `malloc` is not modelled; the buffer is always allocated.
- LegacyGraphics.Push: a failing `malloc` (which returns NULL) is not modelled. The list is a sequence of its data, so node identity and `free` are not modelled either.
- LegacyGraphics.Pop: the list is a sequence of its data; node identity and `free` are not modelled.
- RogueHeap.Heap.constructor: a failing `malloc` is not modelled. It requires 0 < n: after `heap_new(0)` an insert doubles a capacity of 0 and writes past the empty buffer, and the model does not model that write.
- RogueCommon.Stretchy.Push: a failing `realloc` is not modelled.
- EarlyApp.CreateSurface: a failing `malloc` is not modelled; the surface is always created.
- EarlyGraphics.Blit and EarlyApp.BlitSurface require `Readable` (every cell the block reads lies in the source buffer) and separate source and destination buffers; the C code checks neither, so a block past the end of the source reads outside it, and a surface blitted onto itself can be overwritten while it is read.
- Amalgamate.AllForOneRun returns None (no outcome) for an included header shorter than 57 lines; the script raises on `nil.each`, exits with status 1 after printing part of the output, and leaves `hal_h.h` on disk.
- BuildScript.Build.Output — `json` mode's `puts $info.to_json` (build.rb:282-283) is not modelled: Output prints nothing in that mode, because the JSON text of `$info` (with its `ver`, `os` and `str` members) is not part of BuildInfo.
- Strings.ToI reads the leading digits only; Ruby's `to_i` also skips `_` between digits, so "1_0" reads as 10 there and 1 here.
- BdfTokens.Arg reads a missing token as 0; extra/graphics_bdf.c hands NULL to `atoi` there, which is undefined behaviour.
- HalBmp.SaveBmp always produces the file: the `false` returns of src/graphics.c when `fopen` or `malloc` fails are not modelled.
- Bdf.Load: a failing `malloc` of the glyph table or of a bitmap is not modelled.
- OctreeHeap.NodeHeap.Pop — on a heap holding one node (n == 2), pop is modelled as intended: it returns the node and leaves the heap empty. src/graphics.c:489-493 instead writes through the `buf[1]` it has just set to null; OctreeHeap.PopAsWritten and OctreeHeap.PopLastNodeIsNullDeref model that (see "## Findings").
- RogueEngine.Engine.OnKeyboard: a key code must lie in 0 to 348. `KB_KEY_UNKNOWN` (-1) would write `keys[-1]`, before the array, and is not modelled. The model also gives the engine one slot per key code, 349, where game_engine.hpp:28 declares 348 (see "## Findings").
- RogueEngine.Engine.OnMouseButton: a button must lie in 1 to 8; the model gives the eight slots `MOUSE_LAST` calls for, where game_engine.hpp:21 declares seven (see "## Findings"). Button b goes to slot b - 1 and `is_btn_down` reads slot b, as the source does: `MOUSE_LEFT` is `MOUSE_BTN_0`, so the queries number the buttons from 0.
- RogueEngine.Engine.Frame: the states' own `update` and `render` code is not run. The pushes and pops an update asks for arrive as the parameter `effs`; RogueEngine.MenuUpdate and RogueEngine.PlayingUpdate give them for the two updates that push or pop (menu_state.cpp:9-12, main_state.cpp:45-48).
- RogueEngine.Engine.constructor: the `last_*` snapshots start as copies of the empty input; the source leaves them uninitialised until the first frame.
- RogueRooms.ReadCell and RogueRooms.PushEdges read a cell outside the map as 0; dungeon.c:290 reads `GRID_AT` without a `GRID_IN` test, which reads outside the buffer at the border, and the model does not model that read.
- RogueLabels.FindRegions: the regions that cave.cpp finds on separate threads are found one after another; thread scheduling is not modelled.
- RogueTiles.Dungeon.constructor: the shared `s_id` counter is modelled for one thread; concurrent construction is not modelled.
- RogueMain.MoveEntity takes the dungeon as its tile values `vs`, and the entity's glyph is not drawn.
- RogueTiles.Dungeon.FillMap requires a non-empty grid: dungeon.cpp:22 reads `_map[0]` of an empty grid, which is undefined, and the model does not model that read.
- Bdf: `fopen`, `fgets` and `strtok` are I/O; the model takes the font file as its sequence of lines. `atoi` overflow is not modelled, and the `bdf_last_error` message strings are not kept (a failure is a `false`).
- Utf8.ByteAt reads every index outside the string as 0. Index |s| is the terminating NUL in C too, but a read further out (the `c[l++]` of `ctoi`, src/graphics.c:1639-1640, after a truncated multi-byte sequence) lies past the string in C, and the model does not model what it reads there.
- LegacyGraphics.SizeWalk stops at the end of the bytes. The C loop steps `s += 2`, `3` or `4` over a multi-byte lead byte (graphics/graphics.c:1307-1312) and can step past the NUL of a truncated sequence, reading beyond the string; the model does not model those reads.
- Bdf.Start starts every glyph slot as a blank record; extra/graphics_bdf.c:84-89 allocates `chars` with `malloc` and does not zero it, so a slot no glyph fills holds whatever was in memory.
- Bdf.SetGlyph drops a store past the allocated slots, and Bdf.GlyphAt reads a slot past them as a blank record; the `BBX` store into `out->chars[n]` (extra/graphics_bdf.c:108-111) has no bound on n and writes past `chars[n_chars]` in C, and the matching reads of `chars[n]` read past it. Neither out-of-bounds access is modelled.
- BdfDraw.BitmapByte reads a byte outside a glyph's bitmap, or of a glyph with no bitmap, as 0; in C such a read lies outside the allocated bitmap (or goes through NULL), and the model does not model what it reads there.
- OctreeHeap.NodeHeap.constructor: the pool is taken as zeroed, so every node starts with its flags 0. `node_new` (src/graphics.c:499-513) carves nodes from a `HAL_MALLOC` block that is never cleared and sets only `kid_idx`, `depth` and `parent`, so in C a fresh node's `flags`, `heap_idx` and `n_kids` hold whatever was in memory, and `heap_add` (src/graphics.c:465-471) may take the re-sift path for a node that is not in the heap. That path is not modelled.
- HalSurface.Surface.constructor always succeeds: the `false` returns after `error_handle` when either `malloc` fails (src/graphics.c:131-134, 139-142) are not modelled. It also requires w·h < 2^31; the C buffer size `w * h * sizeof(u32) + 1` computes `w * h` in 32-bit unsigned arithmetic, which wraps once w·h reaches 2^32 and then allocates too small a buffer. Sizes from 2^31 up, that wrap included, are not modelled.
- RogueLabels.GetRegions, RogueLabels.FindRegions and RogueCave.Cave.GetRooms do not state the order of the regions. The scans emit them column by column, by first cell, and that order decides the room numbers and which of two equally large rooms `FirstLargestOf` picks; the model proves which regions are found, not their order.
- EarlyGraphics.Line returns false on a surface of width or height 0. The C surface's `w` and `h` are unsigned (graphics.h:167), so `s->w - 1` wraps and the bounds test of graphics.c:272 passes; the `x % s->w` of graphics.c:314 then divides by zero. That path is not modelled.
- LegacyGraphics.Resize requires both source sides below 32768: beyond that `a->w << 16` (graphics/graphics.c:306-307) overflows a 32-bit `int`, and the wrapped ratio is not modelled.
- BdfBits.StoreRow drops the stores that fall past the bitmap; extra/graphics_bdf.c:173-177 writes there without a bound (see "## Findings").

## Findings

| source | as written | input that shows it | evidently intended | confidence | as-written member | corrected member |
|---|---|---|---|---|---|---|
| build.rb:250-260 | a header without the begin and end markers is split at index 0, so its first line is dropped and the source file gets only the banner | any header without markers, such as a two-line one | a header without both markers is rejected | not executed | HeaderSplit.SplitNoMarkersDropsFirstLine, HeaderSplit.SplitNoMarkersExample | HeaderSplit.SplitChecked, HeaderSplit.SplitCheckedSound |
| graphics/graphics.c:137-139 | `rgba_a` masks with the red byte's mask and ORs the new alpha into the old one | opaque red with alpha 0 gives opaque black | replace only the alpha byte, like `rgba_r`, `rgba_g` and `rgba_b` | not executed | Colour.RgbaA, Colour.RgbaAClearsRed | Colour.RgbaACorrected |
| src/graphics.c:488-493 | popping the last node nulls `buf[1]` and then writes its `heap_idx` | a heap holding one node (n == 2) | return the node and leave the heap empty | not executed | OctreeHeap.PopAsWritten, OctreeHeap.PopLastNodeIsNullDeref | OctreeHeap.NodeHeap.Pop |
| graphics.c:99-129 | the buffer has `3*len/4 - pad` bytes, but for a length that is not a multiple of four the padded tail writes more than that | "QQ=" allocates one byte and writes two | reject input whose length is not a multiple of four | not executed | Base64.DecodeAsWritten, Base64.DecodeAsWrittenOverflows | Base64.Decode, Base64.RoundTrip |
| examples/roguelike/roguelike/heap.c:75-80 | `heap_add` appends the element without sifting it up | adding 5 to the max-heap [1] leaves [1, 5] | sift the new element up so the heap stays ordered | not executed | RogueHeap.Heap.AddAsWritten, RogueHeap.AddAsWrittenBreaksOrder | RogueHeap.Heap.Add |
| src/graphics.c:907 | the stored file size counts unpadded rows | a 1x1 image stores 57 for a 58-byte file | store the length of the file written | not executed | HalBmp.FileSizeIgnoresPadding | HalBmp.FileSize, HalBmp.SaveBmp |
| src/graphics.c:917-919 | the row loop runs from -1 to h - 2 | any image: row -1 lies before the buffer and row h - 1 is never written | visit every row 0 to h - 1 | not executed | HalBmp.LoopRowsAsWritten, HalBmp.LoopRowsOffByOne | HalBmp.LoopRows, HalBmp.PackPixels |
| graphics/graphics.c:307-317 | the 16.16 step of `resize` has `+ 1` added | a 1-pixel source scaled to 257 pixels reads column 1, past its row | every destination pixel reads inside the source | not executed | LegacyGraphics.ResizeReadsPastRow | LegacyGraphics.Ratio, LegacyGraphics.SrcCoordInRange |
| graphics/graphics.c:1298-1316 | `str_size` counts each newline into the width of the next line | "ab\ncd" measures three wide | the width of the longest line | not executed | LegacyGraphics.StrSize, LegacyGraphics.StrSizeCountsNewline | LegacyGraphics.StrSizeIntended |
| graphics.c:185-200 | the bounds test of `pset` and `pget` accepts x == w and y == h | `pset(s, w, h-1, c)` writes one past the buffer | accept only 0 <= x < w and 0 <= y < h | not executed | EarlyGraphics.AcceptsAsWrittenExactly, EarlyGraphics.PsetAcceptsPastEdge | EarlyGraphics.Surface.Pset, EarlyGraphics.Surface.Pget |
| app.c:46-53 | the bounds test of `pset` accepts x == w and y == h | `pset(s, w, h, c)` writes `buf[h*w + w]` | accept only points on the surface | not executed | EarlyApp.AcceptsAsWrittenExactly, EarlyApp.PsetWritesPastBuffer | EarlyApp.Pset |
| examples/roguelike/roguelike/game_engine.hpp:28-33 | the key array has `KB_KEY_LAST` slots, but `KB_KEY_LAST` is itself a key code | the menu key (348) writes past the array | one slot per key code, `KB_KEY_LAST + 1` | not executed | RogueEngine.KeyAsWritten, RogueEngine.MenuKeyPastEnd | RogueEngine.Engine.OnKeyboard |
| examples/roguelike/roguelike/game_engine.hpp:21 | the button array has `MOUSE_LAST - 1` = 7 slots for the 8 buttons | pressing button 8 stores slot 7, and `is_btn_down(7)` reads slot 7, both past the array | `MOUSE_LAST` slots, one per button | not executed | RogueEngine.PressAsWritten, RogueEngine.LastButtonNoSlot | RogueEngine.Engine.OnMouseButton |
| extra/graphics_bdf.c:208-215 | every byte of a glyph row is painted at x, so each row shows only its last byte | any glyph wider than 8 pixels | byte k of a row is painted at x + 8k | not executed | BdfDraw.PaintRowsAsWritten | BdfDraw.PaintRowsAt, BdfDraw.Character |
| extra/graphics_bdf.c:173-177 | the row lines of a glyph are stored without a bound on the bitmap | an 8x1 font whose glyph has two row lines stores byte 1 of a 1-byte bitmap | stop at the end of the bitmap | not executed | BdfBits.RowStorePastBitmap | BdfBits.StoreRow |
