// build.rb past the tokenizer: the host and backend tables, the checks on
// the `backend`, `cc`, `layers`, `mode` and `config` options (each one that
// is recognised is removed from `$args`), the flags made of what is left,
// the amalgamation, the layer split and the Makefile or info text.
module BuildScript {
  import opened Wrappers
  import opened Strings
  import opened BuildArgs
  import Amalgamate
  import HeaderSplit

  datatype Backend = METAL | OPENGL | CARBON

  /** The symbol's name, as interpolated into `-DHAL_#{backend}`. */
  function BackendName(b: Backend): string {
    match b
    case METAL => "METAL"
    case OPENGL => "OPENGL"
    case CARBON => "CARBON"
  }

  /** `upcase.to_sym` followed by a comparison with the backend symbols. */
  function ParseBackend(s: string): (r: Option<Backend>)
    ensures r.Some? ==> BackendName(r.value) == Upcase(s)
    ensures r.None? ==> Upcase(s) != BackendName(METAL) && Upcase(s) != BackendName(OPENGL) && Upcase(s) != BackendName(CARBON)
  {
    var u := Upcase(s);
    if u == "METAL" then Some(METAL)
    else if u == "OPENGL" then Some(OPENGL)
    else if u == "CARBON" then Some(CARBON)
    else None
  }

  /** The host families of build.rb:87-113, tested in that order. */
  datatype Host = Windows | Darwin | Unix | Unknown

  /** The substrings of the `when` pattern of each family. */
  predicate WindowsName(os: string) {
    Contains(os, "mswin") || Contains(os, "msys") || Contains(os, "mingw") || Contains(os, "cygwin") ||
    Contains(os, "bccwin") || Contains(os, "wince") || Contains(os, "emc")
  }

  predicate DarwinName(os: string) { Contains(os, "darwin") || Contains(os, "mac os") }

  predicate UnixName(os: string) { Contains(os, "linux") || Contains(os, "solaris") || Contains(os, "bsd") }

  function HostFamily(os: string): (h: Host)
    ensures h == Windows <==> WindowsName(os)
    ensures h == Darwin ==> DarwinName(os)
  {
    if WindowsName(os) then Windows
    else if DarwinName(os) then Darwin
    else if UnixName(os) then Unix
    else Unknown
  }

  /**
   * The `case` on `host_os` takes the first `when` whose pattern matches,
   * so each family is decided by its own substrings and the absence of
   * every earlier family's.
   */
  lemma HostFamilyCases(os: string)
    ensures HostFamily(os) == Windows <==> WindowsName(os)
    ensures HostFamily(os) == Darwin <==> !WindowsName(os) && DarwinName(os)
    ensures HostFamily(os) == Unix <==> !WindowsName(os) && !DarwinName(os) && UnixName(os)
    ensures HostFamily(os) == Unknown <==> !WindowsName(os) && !DarwinName(os) && !UnixName(os)
  {
  }

  /** The backends a macOS version supports, in order of preference (build.rb:94-106). */
  function DarwinBackends(maj: int, min: int): (r: seq<Backend>)
    ensures |r| >= 2 && OPENGL in r
    ensures METAL in r <==> maj >= 10 && min > 11
    ensures CARBON in r <==> maj < 10 || min <= 13
    ensures METAL in r ==> r[0] == METAL
    ensures forall i, j :: 0 <= i < j < |r| ==> r[i] != r[j]
    ensures r == (if METAL in r then [METAL] else []) + [OPENGL] + (if CARBON in r then [CARBON] else [])
  {
    if maj < 10 then [OPENGL, CARBON]
    else if min > 13 then [METAL, OPENGL]
    else if min > 11 then [METAL, OPENGL, CARBON]
    else [OPENGL, CARBON]
  }

  /** The text of `puts_warning msg`. */
  function Warning(msg: string): string { "! \U{001B}[33mWARNING\U{001B}[0m: " + msg }

  /** The warnings printed while the backend table is chosen. */
  function DarwinWarnings(maj: int, min: int): (w: seq<string>)
    ensures |w| <= 1
    ensures w == [] <==> maj >= 10 && min > 11
  {
    if maj < 10 then [Warning("Mac OS X < 10.0 is unsupported")]
    else if min > 11 then []
    else [Warning("Mac OS X > 10.0 & < 10.11 is unsupported at the moment")]
  }

  /** Why a run ends early. */
  datatype Failure =
    | BadArgument(arg: string)          // `k[1]` on the nil of a non-matching argument
    | UnsupportedHost(os: string)
    | UnsupportedBackend(given: string)
    | BackendNotString
    | CcNotString
    | InvalidLayer(layer: string)
    | LayersNotStrings
    | InvalidMode(mode: string)
    | ModeNotString
    | ConfigNotJson(path: string)
    | NoHal                             // `File.readlines("hal.h")` raises
    | MissingHeader(header: string)
    | ShortHeader(header: string)       // `nil.each` on a header shorter than 57 lines
    | ConfigLayers                      // a parsed config has no `:layers`: `nil.each`
    | NothingToSplit(layer: string)
    | SplitCrash(layer: string)         // `Array#+` with the nil of `[][1..-2]`

  /** Failures that are uncaught Ruby exceptions rather than `puts_abort`. */
  predicate Raises(f: Failure) {
    f.BadArgument? || f.NoHal? || f.ShortHeader? || f.ConfigLayers? || f.SplitCrash?
  }

  datatype Step<T> = Go(value: T) | Stop(failure: Failure)

  /** build.rb:115-129: the backend option, or the first supported backend. */
  function BackendChoice(args: Args, supported: seq<Backend>): (r: Step<Backend>)
    requires |supported| > 0
    ensures r.Go? ==> r.value in supported
    ensures r.Stop? ==> !Raises(r.failure)
    ensures Lookup(args, "backend").None? ==> r == Go(supported[0])
    ensures Lookup(args, "backend").Some? && !Lookup(args, "backend").value.StrVal? ==> r == Stop(BackendNotString)
    ensures Lookup(args, "backend").Some? && Lookup(args, "backend").value.StrVal? ==>
      (r.Go? <==> exists b :: b in supported && BackendName(b) == Upcase(Lookup(args, "backend").value.s))
  {
    match Lookup(args, "backend")
    case None => Go(supported[0])
    case Some(v) =>
      if !v.StrVal? then Stop(BackendNotString)
      else match ParseBackend(v.s)
        case Some(b) => if b in supported then Go(b) else Stop(UnsupportedBackend(v.s))
        case None => Stop(UnsupportedBackend(v.s))
  }

  /** The frameworks each backend links against (build.rb:131-140). */
  function Dependencies(b: Backend): (r: seq<string>)
    ensures |r| == (match b case METAL => 4 case OPENGL => 3 case CARBON => 2)
    ensures r[..2] == ["-framework Cocoa", "-framework AppKit"]
  {
    match b
    case METAL => ["-framework Cocoa", "-framework AppKit", "-framework Metal", "-framework MetalKit"]
    case OPENGL => ["-framework Cocoa", "-framework AppKit", "-framework OpenGL"]
    case CARBON => ["-framework Cocoa", "-framework AppKit"]
  }

  const KnownCompilers: seq<string> := ["clang", "msvc", "gcc"]

  /** build.rb:142-151: a String `cc` is lowercased and kept even when it is not a known compiler. */
  function CcChoice(args: Args, default: string): (r: Step<string>)
    ensures Lookup(args, "cc").None? ==> r == Go(default)
    ensures r.Stop? ==> r.failure == CcNotString
    ensures Lookup(args, "cc").Some? ==>
      (r.Go? <==> Lookup(args, "cc").value.StrVal?) &&
      (r.Go? ==> r.value == Downcase(Lookup(args, "cc").value.s))
  {
    match Lookup(args, "cc")
    case None => Go(default)
    case Some(v) => if v.StrVal? then Go(Downcase(v.s)) else Stop(CcNotString)
  }

  /** The warning for a compiler outside the known three. */
  function CcWarnings(cc: string): (w: seq<string>)
    ensures w == [] <==> cc in KnownCompilers
  {
    if cc in KnownCompilers then [] else [Warning("Unsupported C compiler \"" + cc + "\"")]
  }

  const ValidLayers: seq<string> := ["graphics.h", "audio.h", "threads.h", "sockets.h", "filesystem.h"]

  /** `is_layer_valid?`: a known layer that exists as a file. */
  predicate IsLayerValid(x: string, files: set<string>) { x in ValidLayers && x in files }

  /** `add_h`: append `.h` unless it is already there. */
  function AddH(x: string): (r: string)
    ensures EndsWith(r, ".h")
    ensures EndsWith(x, ".h") ==> r == x
    ensures !EndsWith(x, ".h") ==> r == x + ".h"
  {
    if EndsWith(x, ".h") then x else x + ".h"
  }

  lemma AddHIdempotent(x: string)
    ensures AddH(AddH(x)) == AddH(x)
  {
  }

  /** The explicit layer list of build.rb:165-168, stopping at the first invalid one. */
  function CheckLayers(names: seq<string>, files: set<string>): (r: Step<seq<string>>)
    ensures r.Go? ==> |r.value| == |names| && forall i :: 0 <= i < |names| ==> r.value[i] == AddH(names[i])
    ensures r.Go? ==> forall i :: 0 <= i < |r.value| ==> IsLayerValid(r.value[i], files)
    ensures r.Go? <==> forall i :: 0 <= i < |names| ==> IsLayerValid(AddH(names[i]), files)
    ensures r.Stop? ==> r.failure.InvalidLayer? && exists i :: 0 <= i < |names| && r.failure.layer == AddH(names[i]) && !IsLayerValid(r.failure.layer, files)
  {
    if names == [] then Go([])
    else
      var l := AddH(names[0]);
      if !IsLayerValid(l, files) then Stop(InvalidLayer(l))
      else match CheckLayers(names[1..], files)
        case Go(rest) => Go([l] + rest)
        case Stop(f) => Stop(f)
  }

  /** `$valid_layers.reject { |x| !is_layer_valid? x }`, keeping the list order. */
  function ExistingLayers(names: seq<string>, files: set<string>): (r: seq<string>)
    ensures |r| <= |names|
    ensures forall x :: x in r <==> x in names && x in files
  {
    if names == [] then []
    else if names[0] in files then [names[0]] + ExistingLayers(names[1..], files)
    else ExistingLayers(names[1..], files)
  }

  /**
   * The filter walks the list front to back: one more name at the end adds
   * it at the end exactly when it exists, so the kept names stay in list order.
   */
  lemma {:induction false} ExistingLayersSnoc(names: seq<string>, x: string, files: set<string>)
    ensures ExistingLayers(names + [x], files) == ExistingLayers(names, files) + (if x in files then [x] else [])
  {
    if names == [] {
      assert names + [x] == [x];
      assert [x][1..] == [];
    } else {
      assert (names + [x])[1..] == names[1..] + [x];
      ExistingLayersSnoc(names[1..], x, files);
    }
  }

  /** build.rb:162-180. */
  function LayerChoice(args: Args, files: set<string>): (r: Step<seq<string>>)
    ensures r.Go? ==> forall i :: 0 <= i < |r.value| ==> IsLayerValid(r.value[i], files)
    ensures r.Stop? ==> r.failure.InvalidLayer? || r.failure == LayersNotStrings
    ensures Lookup(args, "layers").None? ==> r == Go(ExistingLayers(ValidLayers, files))
    ensures Lookup(args, "layers").Some? && Lookup(args, "layers").value.StrVal? ==>
      (r.Go? <==> IsLayerValid(AddH(Lookup(args, "layers").value.s), files))
    ensures Lookup(args, "layers").Some? && Lookup(args, "layers").value.StrVal? ==>
      var l := AddH(Lookup(args, "layers").value.s);
      (r.Go? ==> r.value == [l]) && (r.Stop? ==> r.failure == InvalidLayer(l))
    ensures Lookup(args, "layers").Some? && Lookup(args, "layers").value.ListVal? ==>
      r == CheckLayers(Lookup(args, "layers").value.items, files)
    ensures Lookup(args, "layers").Some? && (Lookup(args, "layers").value.IntVal? || Lookup(args, "layers").value.BoolVal?) ==>
      r == Stop(LayersNotStrings)
  {
    match Lookup(args, "layers")
    case None => Go(ExistingLayers(ValidLayers, files))
    case Some(v) =>
      match v
      case ListVal(items) => CheckLayers(items, files)
      case StrVal(s) =>
        var l := AddH(s);
        if IsLayerValid(l, files) then Go([l]) else Stop(InvalidLayer(l))
      case _ => Stop(LayersNotStrings)
  }

  /** A list whose every entry exists is kept whole, in order. */
  lemma {:induction false} ExistingLayersAll(names: seq<string>, files: set<string>)
    requires forall i :: 0 <= i < |names| ==> names[i] in files
    ensures ExistingLayers(names, files) == names
  {
    if names != [] {
      ExistingLayersAll(names[1..], files);
      assert [names[0]] + names[1..] == names;
    }
  }

  /** With every known layer on disk the default is the whole list, in order. */
  lemma DefaultLayersAll(files: set<string>)
    requires forall i :: 0 <= i < |ValidLayers| ==> ValidLayers[i] in files
    ensures ExistingLayers(ValidLayers, files) == ValidLayers
  {
    ExistingLayersAll(ValidLayers, files);
  }

  datatype Mode = Make | Info | Json

  /** build.rb:182-196: `:make` unless a String `mode` names one of the three. */
  function ModeChoice(args: Args): (r: Step<Mode>)
    ensures Lookup(args, "mode").None? ==> r == Go(Make)
    ensures r.Stop? ==> r.failure.InvalidMode? || r.failure == ModeNotString
    ensures Lookup(args, "mode").Some? && Lookup(args, "mode").value.StrVal? ==>
      var m := Downcase(Lookup(args, "mode").value.s);
      (r.Go? <==> m == "make" || m == "info" || m == "json") &&
      (r == Go(Info) <==> m == "info") && (r == Go(Json) <==> m == "json")
    ensures Lookup(args, "mode").Some? && !Lookup(args, "mode").value.StrVal? ==> r == Stop(ModeNotString)
  {
    match Lookup(args, "mode")
    case None => Go(Make)
    case Some(v) =>
      if !v.StrVal? then Stop(ModeNotString)
      else
        var m := Downcase(v.s);
        if m == "make" then Go(Make)
        else if m == "info" then Go(Info)
        else if m == "json" then Go(Json)
        else Stop(InvalidMode(m))
  }

  /** What build.rb:198-211 makes of a `config` option. */
  datatype ConfigUse = NoConfig | Parsed | Unparsable(path: string)

  function ConfigChoice(args: Args, files: set<string>, json: set<string>): (r: ConfigUse)
    ensures r == Parsed <==> exists p :: Lookup(args, "config") == Some(StrVal(p)) && p in files && p in json
    ensures r.Unparsable? ==> Lookup(args, "config") == Some(StrVal(r.path)) && r.path in files && r.path !in json
  {
    match Lookup(args, "config")
    case Some(v) =>
      if !v.StrVal? || v.s !in files then NoConfig
      else if v.s in json then Parsed
      else Unparsable(v.s)
    case None => NoConfig
  }

  /** The resolved fields of `$info` that the output uses. */
  datatype BuildInfo = BuildInfo(
    supported: seq<Backend>, backend: Option<Backend>, dependencies: seq<string>,
    cc: string, layers: seq<string>, flags: seq<string>)

  /** The generated Makefile (build.rb:266-273). */
  function MakefileText(i: BuildInfo): string
    requires i.backend.Some?
  {
    "# Generated by build.rb\nCC=" + i.cc + "\nDEPS=" + Join(i.dependencies, " ") +
    "\nFLAGS=" + Join(i.flags, " ") + "\nBACKEND=-DHAL_" + BackendName(i.backend.value) +
    "\nLAYERS=" + Join(i.layers, " ") + "\n"
  }

  /** The text `mode=info` prints (build.rb:275-281). */
  function InfoText(i: BuildInfo): string
    requires i.backend.Some?
  {
    "CC      = " + i.cc + "\nDEPS    = " + Join(i.dependencies, " ") +
    "\nFLAGS   = " + Join(i.flags, " ") + "\nBACKEND = " + BackendName(i.backend.value) +
    "\nLAYERS  = " + Join(i.layers, " ") + "\n" +
    i.cc + " " + Join(i.flags, " ") + " " + Join(i.dependencies, " ")
  }

  /** `ll * ''`: the text of a list of lines. */
  function Text(lines: seq<string>): string { Join(lines, "") }

  /** One file written by the run, by what it holds. */
  datatype FileWrite =
    | Amalgamation(lines: seq<string>)                 // build/hal_h.h
    | LayerSource(layer: string, lines: seq<string>)   // build/<layer>.c
    | LayerHeader(layer: string, lines: seq<string>)   // build/<layer>.h
    | Makefile(text: string)

  function PathOf(w: FileWrite): string {
    match w
    case Amalgamation(_) => "build/hal_h.h"
    case LayerSource(f, _) => "build/" + HeaderSplit.SourceName(f)
    case LayerHeader(f, _) => "build/" + f
    case Makefile(_) => "Makefile"
  }

  function TextOf(w: FileWrite): string {
    match w
    case Makefile(t) => t
    case _ => Text(w.lines)
  }

  /** A layer's .c file and its .h file never share a path. */
  lemma LayerPathsDiffer(f: string, g: string, c: seq<string>, h: seq<string>)
    requires EndsWith(f, ".h") && EndsWith(g, ".h")
    ensures PathOf(LayerSource(f, c)) != PathOf(LayerHeader(g, h))
  {
    var p, q := PathOf(LayerSource(f, c)), PathOf(LayerHeader(g, h));
    assert p[|p| - 1] == 'c';
    assert q[|q| - 1] == g[|g| - 1] == 'h';
  }

  /** The two files one successful split writes: build/<layer>.c, then build/<layer>.h. */
  function SplitWrites(f: string, source: seq<string>, header: seq<string>): seq<FileWrite> {
    [LayerSource(f, source), LayerHeader(f, header)]
  }

  /** The split of each layer, in order: `Split` of the layer's lines. */
  function LayerSplits(layers: seq<string>, files: map<string, seq<string>>): (r: seq<HeaderSplit.SplitResult>)
    requires forall i :: 0 <= i < |layers| ==> layers[i] in files
    ensures |r| == |layers|
  {
    if layers == [] then []
    else LayerSplits(layers[..|layers| - 1], files) + [HeaderSplit.Split(files[layers[|layers| - 1]], layers[|layers| - 1])]
  }

  lemma {:induction false} LayerSplitsAt(layers: seq<string>, files: map<string, seq<string>>, i: nat)
    requires forall j :: 0 <= j < |layers| ==> layers[j] in files
    requires i < |layers|
    ensures LayerSplits(layers, files)[i] == HeaderSplit.Split(files[layers[i]], layers[i])
  {
    var n := |layers| - 1;
    if i < n {
      LayerSplitsAt(layers[..n], files, i);
    }
  }

  /**
   * The `$info[:layers].each` loop of build.rb:249-261 given each layer's
   * split: the files written and where it stopped, if it did.
   */
  function SplitAll(layers: seq<string>, splits: seq<HeaderSplit.SplitResult>): (r: (seq<FileWrite>, Option<Failure>))
    requires |splits| == |layers|
    ensures r.1.None? ==> |r.0| == 2 * |layers|
    ensures r.1.Some? ==> r.1.value.NothingToSplit? || r.1.value.SplitCrash?
    decreases |layers|
  {
    if layers == [] then ([], None)
    else
      var prev := SplitAll(layers[..|layers| - 1], splits[..|layers| - 1]);
      if prev.1.Some? then prev
      else
        var f := layers[|layers| - 1];
        match splits[|layers| - 1]
        case Aborted => (prev.0, Some(NothingToSplit(f)))
        case Crashed => (prev.0, Some(SplitCrash(f)))
        case Written(c, h) => (prev.0 + SplitWrites(f, c, h), None)
  }

  /** One more layer of the split loop: `SplitAll` of a prefix grows by that layer's outcome. */
  lemma SplitAllStep(layers: seq<string>, splits: seq<HeaderSplit.SplitResult>, i: nat)
    requires |splits| == |layers| && i < |layers|
    requires SplitAll(layers[..i], splits[..i]).1.None?
    ensures var prev := SplitAll(layers[..i], splits[..i]).0;
      SplitAll(layers[..i + 1], splits[..i + 1]) ==
        match splits[i]
        case Aborted => (prev, Some(NothingToSplit(layers[i])))
        case Crashed => (prev, Some(SplitCrash(layers[i])))
        case Written(c, h) => (prev + SplitWrites(layers[i], c, h), None)
  {
    assert layers[..i + 1][..i] == layers[..i] && splits[..i + 1][..i] == splits[..i];
  }

  /** Every layer split without stopping: each one wrote exactly its two files, in layer order. */
  lemma {:induction false} SplitAllWrites(layers: seq<string>, splits: seq<HeaderSplit.SplitResult>, i: nat)
    requires |splits| == |layers|
    requires SplitAll(layers, splits).1.None? && i < |layers|
    ensures splits[i].Written?
    ensures SplitAll(layers, splits).0[2 * i..2 * i + 2] == SplitWrites(layers[i], splits[i].source, splits[i].header)
    decreases |layers|
  {
    var n := |layers| - 1;
    var prev := SplitAll(layers[..n], splits[..n]);
    assert prev.1.None?;
    if i < n {
      SplitAllWrites(layers[..n], splits[..n], i);
      var w := SplitAll(layers, splits).0;
      assert w == prev.0 + SplitWrites(layers[n], splits[n].source, splits[n].header);
      assert w[2 * i..2 * i + 2] == prev.0[2 * i..2 * i + 2];
    }
  }

  /** A split loop that stopped stays stopped, whatever layers follow. */
  lemma {:induction false} SplitAllStops(layers: seq<string>, splits: seq<HeaderSplit.SplitResult>, k: nat)
    requires |splits| == |layers| && k <= |layers|
    requires SplitAll(layers[..k], splits[..k]).1.Some?
    ensures SplitAll(layers, splits) == SplitAll(layers[..k], splits[..k])
    decreases |layers| - k
  {
    if k < |layers| {
      var n := |layers| - 1;
      assert layers[..n][..k] == layers[..k] && splits[..n][..k] == splits[..k];
      SplitAllStops(layers[..n], splits[..n], k);
    } else {
      assert layers[..k] == layers && splits[..k] == splits;
    }
  }

  /** `File.open "build/hal_h.h", "w"` followed by the amalgamation: what the file holds and how the step ends. */
  function AmalgamationWrite(files: map<string, seq<string>>): (r: (FileWrite, Option<Failure>))
    ensures r.0.Amalgamation?
    ensures r.1.Some? ==> r.1.value.NoHal? || r.1.value.MissingHeader? || r.1.value.ShortHeader?
    ensures r.1.None? <==> "hal.h" in files && Amalgamate.Expand(files["hal.h"], files).Done?
    ensures r.1.None? ==> r.0.lines == Amalgamate.Expand(files["hal.h"], files).out
    ensures "hal.h" !in files ==> r == (Amalgamation([]), Some(NoHal))
  {
    if "hal.h" !in files then (Amalgamation([]), Some(NoHal))
    else match Amalgamate.Expand(files["hal.h"], files)
      case Done(out) => (Amalgamation(out), None)
      case Missing(h, partial) => (Amalgamation(partial), Some(MissingHeader(h)))
      case TooShort(h, partial) => (Amalgamation(partial), Some(ShortHeader(h)))
  }

  datatype Status = Success | Exit1(reason: Failure) | Raised(reason: Failure)

  function StatusOf(f: Failure): (s: Status)
    ensures s.Exit1? <==> !Raises(f)
    ensures s.Exit1? || s.Raised?
  {
    if Raises(f) then Raised(f) else Exit1(f)
  }

  /**
   * The mutable state of one build.rb run: `$args`, `$info`, `$mode`,
   * `$skip_flags`, the files it writes (in order; a later write to the
   * same path replaces an earlier one) and
   * what it prints.
   */
  class Build {
    var args: Args
    var info: BuildInfo
    var mode: Mode
    var skipFlags: bool
    var writes: seq<FileWrite>
    var stdout: seq<string>

    /** build.rb:59-86 and 183, 198: the parsed arguments and the initial `$info`. */
    constructor(a: Args)
      requires KeysDistinct(a)
      ensures args == a && info == BuildInfo([], None, [], "cc", [], [])
      ensures mode == Make && !skipFlags && writes == [] && stdout == []
    {
      args := a;
      info := BuildInfo([], None, [], "cc", [], []);
      mode := Make;
      skipFlags := false;
      writes := [];
      stdout := [];
    }

    /** build.rb:87-113: only a Darwin host gets a backend table; the `-x objective-c` flags are replaced later. */
    method DetectHost(os: string, maj: int, min: int) returns (stop: Option<Failure>)
      modifies this
      ensures HostFamily(os) != Darwin ==> stop == Some(UnsupportedHost(os)) && info == old(info) && stdout == old(stdout)
      ensures HostFamily(os) == Darwin ==> (stop == None &&
        info == old(info).(supported := DarwinBackends(maj, min), flags := ["-x objective-c", "-fno-common -fno-objc-arc"]) &&
        stdout == old(stdout) + DarwinWarnings(maj, min))
      ensures args == old(args) && mode == old(mode) && skipFlags == old(skipFlags) && writes == old(writes)
    {
      if HostFamily(os) != Darwin {
        return Some(UnsupportedHost(os));
      }
      stdout := stdout + DarwinWarnings(maj, min);
      info := info.(supported := DarwinBackends(maj, min), flags := ["-x objective-c", "-fno-common -fno-objc-arc"]);
      stop := None;
    }

    /** build.rb:115-140: resolve the backend, drop the option, set the dependencies. */
    method ResolveBackend() returns (stop: Option<Failure>)
      requires |info.supported| > 0 && KeysDistinct(args)
      modifies this
      ensures BackendChoice(old(args), old(info.supported)).Stop? ==>
        (stop == Some(BackendChoice(old(args), old(info.supported)).failure) && info == old(info) && args == old(args))
      ensures BackendChoice(old(args), old(info.supported)).Go? ==> (stop == None &&
        var b := BackendChoice(old(args), old(info.supported)).value;
        info == old(info).(backend := Some(b), dependencies := Dependencies(b)) &&
        args == Reject(old(args), "backend"))
      ensures KeysDistinct(args)
      ensures mode == old(mode) && skipFlags == old(skipFlags) && writes == old(writes) && stdout == old(stdout)
    {
      match BackendChoice(args, info.supported) {
        case Stop(f) =>
          return Some(f);
        case Go(b) =>
          if Lookup(args, "backend").Some? {
            args := Reject(args, "backend");
          } else {
            RejectAbsent(args, "backend");
          }
          info := info.(backend := Some(b), dependencies := Dependencies(b));
          stop := None;
      }
    }

    /** build.rb:142-151. */
    method ResolveCc() returns (stop: Option<Failure>)
      requires KeysDistinct(args)
      modifies this
      ensures CcChoice(old(args), old(info.cc)).Stop? ==> stop == Some(CcNotString) && info == old(info) && args == old(args)
      ensures CcChoice(old(args), old(info.cc)).Go? ==> (stop == None &&
        info == old(info).(cc := CcChoice(old(args), old(info.cc)).value) &&
        args == Reject(old(args), "cc") &&
        stdout == old(stdout) + (if Lookup(old(args), "cc").Some? then CcWarnings(info.cc) else []))
      ensures KeysDistinct(args)
      ensures mode == old(mode) && skipFlags == old(skipFlags) && writes == old(writes)
      ensures CcChoice(old(args), old(info.cc)).Stop? ==> stdout == old(stdout)
    {
      match Lookup(args, "cc") {
        case None =>
          RejectAbsent(args, "cc");
          stop := None;
        case Some(v) =>
          if !v.StrVal? {
            return Some(CcNotString);
          }
          var cc := Downcase(v.s);
          stdout := stdout + CcWarnings(cc);
          info := info.(cc := cc);
          args := Reject(args, "cc");
          stop := None;
      }
    }

    /** build.rb:162-180. */
    method ResolveLayers(files: set<string>) returns (stop: Option<Failure>)
      requires KeysDistinct(args)
      modifies this
      ensures LayerChoice(old(args), files).Stop? ==>
        (stop == Some(LayerChoice(old(args), files).failure) && info == old(info) && args == old(args))
      ensures LayerChoice(old(args), files).Go? ==> (stop == None &&
        info == old(info).(layers := old(info.layers) + LayerChoice(old(args), files).value) &&
        args == Reject(old(args), "layers"))
      ensures KeysDistinct(args)
      ensures mode == old(mode) && skipFlags == old(skipFlags) && writes == old(writes) && stdout == old(stdout)
    {
      var choice := LayerChoice(args, files);
      if choice.Stop? {
        return Some(choice.failure);
      }
      if Lookup(args, "layers").Some? {
        args := Reject(args, "layers");
        info := info.(layers := info.layers + choice.value);
      } else {
        // the default assigns the filtered list; `$info[:layers]` is still [] here
        RejectAbsent(args, "layers");
        info := info.(layers := info.layers + choice.value);
      }
      stop := None;
    }

    /** build.rb:182-196. */
    method ResolveMode() returns (stop: Option<Failure>)
      requires KeysDistinct(args)
      modifies this
      ensures ModeChoice(old(args)).Stop? ==> stop == Some(ModeChoice(old(args)).failure) && args == old(args) && mode == old(mode)
      ensures ModeChoice(old(args)).Go? ==> stop == None && mode == ModeChoice(old(args)).value && args == Reject(old(args), "mode")
      ensures KeysDistinct(args)
      ensures info == old(info) && skipFlags == old(skipFlags) && writes == old(writes) && stdout == old(stdout)
    {
      var choice := ModeChoice(args);
      if choice.Stop? {
        return Some(choice.failure);
      }
      if Lookup(args, "mode").Some? {
        args := Reject(args, "mode");
      } else {
        RejectAbsent(args, "mode");
      }
      mode := choice.value;
      stop := None;
    }

    /**
     * build.rb:198-224: a parsed config replaces `$info` and skips the flags;
     * otherwise every option still in `$args` becomes a flag, a `config`
     * that names no file included.
     */
    method ResolveFlags(files: set<string>, json: set<string>) returns (stop: Option<Failure>)
      modifies this
      ensures var c := ConfigChoice(old(args), files, json);
        (c.Unparsable? ==> stop == Some(ConfigNotJson(c.path)) && info == old(info) && skipFlags == old(skipFlags)) &&
        (c.Parsed? ==> stop == None && skipFlags && info == old(info)) &&
        (c.NoConfig? ==> (stop == None && skipFlags == old(skipFlags) &&
           info == old(info).(flags := if old(skipFlags) then old(info.flags) else Flags(old(args)))))
      ensures args == old(args) && mode == old(mode) && writes == old(writes) && stdout == old(stdout)
    {
      var c := ConfigChoice(args, files, json);
      match c {
        case Unparsable(p) =>
          return Some(ConfigNotJson(p));
        case Parsed =>
          skipFlags := true;
        case NoConfig =>
      }
      if !skipFlags {
        info := info.(flags := Flags(args));
      }
      stop := None;
    }

    /** build.rb:115-151: the backend, its dependencies and the compiler. */
    method ResolveToolchain() returns (stop: Option<Failure>)
      requires |info.supported| > 0 && KeysDistinct(args)
      modifies this
      ensures KeysDistinct(args) && writes == old(writes) && skipFlags == old(skipFlags)
      ensures stop.Some? ==> !Raises(stop.value)
      ensures info.supported == old(info.supported) && info.layers == old(info.layers)
      ensures stop.None? ==> info.backend.Some? && info.backend.value in info.supported
      ensures stop.None? ==> info.dependencies == Dependencies(info.backend.value)
      ensures stop.None? ==> KeySet(args) == KeySet(old(args)) - {"backend", "cc"}
      ensures forall k :: k != "backend" && k != "cc" ==> Lookup(args, k) == Lookup(old(args), k)
    {
      stop := ResolveBackend();
      if stop.Some? { return; }
      stop := ResolveCc();
    }

    /** build.rb:153-196: the layers and the mode. */
    method ResolveOutputs(files: set<string>) returns (stop: Option<Failure>)
      requires KeysDistinct(args) && info.layers == []
      modifies this
      ensures KeysDistinct(args) && writes == old(writes) && skipFlags == old(skipFlags)
      ensures stop.Some? ==> !Raises(stop.value)
      ensures info.supported == old(info.supported) && info.backend == old(info.backend)
      ensures info.dependencies == old(info.dependencies)
      ensures stop.None? ==> forall i :: 0 <= i < |info.layers| ==> IsLayerValid(info.layers[i], files)
      ensures stop.None? ==> KeySet(args) == KeySet(old(args)) - {"layers", "mode"}
      ensures forall k :: k != "layers" && k != "mode" ==> Lookup(args, k) == Lookup(old(args), k)
    {
      stop := ResolveLayers(files);
      if stop.Some? { return; }
      stop := ResolveMode();
    }

    /** build.rb:87-196: the host, the toolchain, the layers and the mode, in order. */
    method ResolveInputs(os: string, maj: int, min: int, files: set<string>) returns (stop: Option<Failure>)
      requires KeysDistinct(args) && info == BuildInfo([], None, [], "cc", [], []) && !skipFlags && writes == []
      modifies this
      ensures writes == [] && KeysDistinct(args) && !skipFlags
      ensures stop.Some? ==> !Raises(stop.value)
      ensures HostFamily(os) != Darwin ==> stop == Some(UnsupportedHost(os))
      ensures stop.None? ==> HostFamily(os) == Darwin && info.backend.Some? && info.backend.value in DarwinBackends(maj, min)
      ensures stop.None? ==> info.dependencies == Dependencies(info.backend.value)
      ensures stop.None? ==> forall i :: 0 <= i < |info.layers| ==> IsLayerValid(info.layers[i], files)
      ensures stop.None? ==> KeySet(args) == KeySet(old(args)) - {"backend", "cc", "layers", "mode"}
      ensures Lookup(args, "config") == Lookup(old(args), "config")
    {
      stop := DetectHost(os, maj, min);
      if stop.Some? { return; }
      stop := ResolveToolchain();
      if stop.Some? { return; }
      stop := ResolveOutputs(files);
    }

    /** build.rb:87-224: every option check in order; the first failure stops the run. */
    method Resolve(os: string, maj: int, min: int, files: set<string>, json: set<string>) returns (stop: Option<Failure>)
      requires KeysDistinct(args) && info == BuildInfo([], None, [], "cc", [], []) && !skipFlags && writes == []
      modifies this
      ensures writes == [] && KeysDistinct(args)
      ensures stop.Some? ==> !Raises(stop.value)
      ensures HostFamily(os) != Darwin ==> stop == Some(UnsupportedHost(os))
      ensures stop.None? ==> HostFamily(os) == Darwin && info.backend.Some? && info.backend.value in DarwinBackends(maj, min)
      ensures stop.None? ==> info.dependencies == Dependencies(info.backend.value)
      ensures stop.None? ==> forall i :: 0 <= i < |info.layers| ==> IsLayerValid(info.layers[i], files)
      ensures stop.None? ==> KeySet(args) == KeySet(old(args)) - {"backend", "cc", "layers", "mode"}
      ensures stop.None? ==> (skipFlags <==> ConfigChoice(old(args), files, json) == Parsed)
      ensures stop.None? && !skipFlags ==> info.flags == Flags(args)
    {
      ghost var a0 := args;
      stop := ResolveInputs(os, maj, min, files);
      if stop.Some? { return; }
      assert ConfigChoice(args, files, json) == ConfigChoice(a0, files, json);
      stop := ResolveFlags(files, json);
    }

    /** build.rb:226-247. */
    method WriteAmalgamation(files: map<string, seq<string>>) returns (stop: Option<Failure>)
      modifies this
      ensures writes == old(writes) + [AmalgamationWrite(files).0] && stop == AmalgamationWrite(files).1
      ensures args == old(args) && info == old(info) && mode == old(mode) && skipFlags == old(skipFlags) && stdout == old(stdout)
    {
      if "hal.h" !in files {
        writes := writes + [Amalgamation([])];
        return Some(NoHal);
      }
      var r := Amalgamate.AmalgamateLines(files["hal.h"], files);
      match r {
        case Done(out) =>
          writes := writes + [Amalgamation(out)];
          stop := None;
        case Missing(h, partial) =>
          writes := writes + [Amalgamation(partial)];
          stop := Some(MissingHeader(h));
        case TooShort(h, partial) =>
          writes := writes + [Amalgamation(partial)];
          stop := Some(ShortHeader(h));
      }
    }

    /** build.rb:249-261: split every layer, in order, stopping at the first that cannot be split. */
    method SplitLayers(files: map<string, seq<string>>) returns (stop: Option<Failure>)
      requires forall i :: 0 <= i < |info.layers| ==> info.layers[i] in files
      modifies this
      ensures args == old(args) && info == old(info) && mode == old(mode) && skipFlags == old(skipFlags) && stdout == old(stdout)
      ensures var r := SplitAll(info.layers, LayerSplits(info.layers, files)); writes == old(writes) + r.0 && stop == r.1
    {
      var layers := info.layers;
      ghost var splits := LayerSplits(layers, files);
      // the files written so far, in order
      var done: seq<FileWrite> := [];
      stop := None;
      var i := 0;
      while i < |layers|
        invariant 0 <= i <= |layers|
        invariant stop.None? ==> SplitAll(layers[..i], splits[..i]) == (done, None)
        invariant stop.Some? ==> i < |layers| && SplitAll(layers, splits) == (done, stop)
        modifies {}
      {
        var f := layers[i];
        var res := HeaderSplit.SplitLayer(files[f], f);
        LayerSplitsAt(layers, files, i);
        SplitAllStep(layers, splits, i);
        if !res.Written? {
          SplitAllStops(layers, splits, i + 1);
          stop := Some(if res.Aborted? then NothingToSplit(f) else SplitCrash(f));
          break;
        }
        done := done + SplitWrites(f, res.source, res.header);
        i := i + 1;
      }
      if stop.None? {
        assert layers[..i] == layers && splits[..i] == splits;
      }
      writes := writes + done;
    }

    /**
     * What a run that ends normally has done, from the arguments `args0` it
     * started with: a Darwin host, a supported backend with its frameworks,
     * valid layers, the recognised keys removed and the rest turned into
     * flags, and exactly these files written in this order: the
     * amalgamation, the .c and .h of every layer in layer order (each layer
     * split without stopping), and last the Makefile in `make` mode.
     */
    ghost predicate Completed(os: string, maj: int, min: int, files: map<string, seq<string>>, args0: Args)
      reads this
    {
      Resolved(os, maj, min, files.Keys, args0, info, args) &&
      "hal.h" in files && Amalgamate.Expand(files["hal.h"], files).Done? &&
      SplitAll(info.layers, LayerSplits(info.layers, files)).1.None? &&
      writes == [Amalgamation(Amalgamate.Expand(files["hal.h"], files).out)] +
        SplitAll(info.layers, LayerSplits(info.layers, files)).0 +
        (if mode == Make then [Makefile(MakefileText(info))] else []) &&
      (mode == Info ==> |stdout| > 0 && stdout[|stdout| - 1] == InfoText(info))
    }

    /**
     * build.rb:78-285 on the parsed arguments: after a successful resolve,
     * nothing but the writes and the printed text changes, so the resolved
     * state is carried through the rest of the run: resolve, amalgamate,
     * split the layers, write the output.
     */
    method Execute(os: string, maj: int, min: int, files: map<string, seq<string>>, json: set<string>) returns (status: Status)
      requires KeysDistinct(args) && info == BuildInfo([], None, [], "cc", [], []) && !skipFlags && writes == []
      modifies this
      ensures HostFamily(os) != Darwin ==> status == Exit1(UnsupportedHost(os)) && writes == []
      ensures status == Success ==> Completed(os, maj, min, files, old(args))
      ensures status == Raised(ConfigLayers) ==> ConfigChoice(old(args), files.Keys, json) == Parsed
    {
      var stop := Resolve(os, maj, min, files.Keys, json);
      if stop.Some? { return StatusOf(stop.value); }
      if skipFlags {
        stop := WriteAmalgamation(files);
        if stop.Some? { return StatusOf(stop.value); }
        // `$info` is now the parsed JSON: `$info[:layers]` is nil and `nil.each` raises
        return Raised(ConfigLayers);
      }
      ghost var (info1, args1) := (info, args);
      assert Resolved(os, maj, min, files.Keys, old(args), info1, args1);
      stop := WriteAmalgamation(files);
      if stop.Some? { return StatusOf(stop.value); }
      ghost var amalgamation := writes;
      assert amalgamation == [Amalgamation(Amalgamate.Expand(files["hal.h"], files).out)];
      stop := SplitLayers(files);
      if stop.Some? { return StatusOf(stop.value); }
      ghost var split := writes;
      assert split == amalgamation + SplitAll(info.layers, LayerSplits(info.layers, files)).0;
      Output();
      assert info == info1 && args == args1;
      status := Success;
    }

    /** build.rb:264-285: the Makefile or the info text; the JSON text `json` mode prints is not modelled. */
    method Output()
      requires info.backend.Some?
      modifies this
      ensures args == old(args) && info == old(info) && mode == old(mode) && skipFlags == old(skipFlags)
      ensures mode == Make ==> writes == old(writes) + [Makefile(MakefileText(info))] && stdout == old(stdout)
      ensures mode == Info ==> stdout == old(stdout) + [InfoText(info)] && writes == old(writes)
      ensures mode == Json ==> stdout == old(stdout) && writes == old(writes)
    {
      match mode {
        case Make => writes := writes + [Makefile(MakefileText(info))];
        case Info => stdout := stdout + [InfoText(info)];
        case Json =>
      }
    }
  }

  /**
   * What a resolve that succeeded leaves, from the arguments `args0` it
   * started with: a Darwin host, a supported backend with its frameworks,
   * valid layers, the recognised keys removed and the rest turned into flags.
   */
  ghost predicate Resolved(os: string, maj: int, min: int, files: set<string>, args0: Args, info: BuildInfo, args: Args) {
    HostFamily(os) == Darwin &&
    info.backend.Some? && info.backend.value in DarwinBackends(maj, min) &&
    info.dependencies == Dependencies(info.backend.value) &&
    (forall i :: 0 <= i < |info.layers| ==> IsLayerValid(info.layers[i], files)) &&
    KeySet(args) == KeySet(args0) - {"backend", "cc", "layers", "mode"} && info.flags == Flags(args)
  }

  /** Removing a key the hash does not have changes nothing. */
  lemma {:induction false} RejectAbsent(a: Args, key: string)
    requires KeysDistinct(a) && Lookup(a, key).None?
    ensures Reject(a, key) == a
  {
    if a != [] {
      RejectAbsent(a[1..], key);
    }
  }

  /**
   * One run of build.rb on a host described by `os` and the macOS version
   * `maj.min`, with `files` the readable files (as lines) and `json` those
   * that parse as JSON.
   */
  method Run(argv: seq<string>, os: string, maj: int, min: int, files: map<string, seq<string>>, json: set<string>)
    returns (b: Build?, status: Status)
    ensures b == null <==> ParseArgs(argv).Fail?
    ensures b == null ==> status == Raised(BadArgument(ParseArgs(argv).error.arg))
    ensures b != null && HostFamily(os) != Darwin ==> status == Exit1(UnsupportedHost(os)) && b.writes == []
    ensures status == Success ==> b != null && b.Completed(os, maj, min, files, ParseArgs(argv).value)
    ensures status == Raised(ConfigLayers) ==> b != null && ConfigChoice(ParseArgs(argv).value, files.Keys, json) == Parsed
  {
    var parsed := ParseArgs(argv);
    if parsed.Fail? {
      return null, Raised(BadArgument(parsed.error.arg));
    }
    b := new Build(parsed.value);
    status := b.Execute(os, maj, min, files, json);
  }
}
