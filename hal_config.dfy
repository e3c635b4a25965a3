// The preprocessor decisions of include/hal.h: which platform macro is
// defined, whether the allocator configuration is accepted, which layers
// are switched off by `HAL_ONLY_*`, and the packed version number. The
// set of macros defined before the header is read is the input.
module HalConfig {
  import opened Wrappers
  /** The optional layers of the library. */
  datatype Layer = Graphics | Audio | Threads | Sockets | Filesystem

  /** The macros the header tests or defines. */
  datatype Macro =
    | Emscripten2 | Emscripten                          // __EMSCRIPTEN__, EMSCRIPTEN
    | GnuLinux | Linux | Unix                           // __gnu_linux__, __linux__, __unix__
    | Macintosh | MacintoshCap | Apple | Mach           // macintosh, Macintosh, __APPLE__, __MACH__
    | Win32 | Win64 | Win32Alt | Windows                // _WIN32, _WIN64, __WIN32__, __WINDOWS__
    | HalEmcc | HalLinux | HalOsx | HalWindows | HalNoWindow
    | HalMetal
    | HalMalloc | HalFree | HalRealloc | HalReallocSized
    | Only(layer: Layer)                                // HAL_ONLY_<layer>
    | No(layer: Layer)                                  // HAL_NO_<layer>

  datatype Platform = Emcc | LinuxOs | Osx | WindowsOs | NoWindow

  function PlatformMacro(p: Platform): Macro {
    match p
    case Emcc => HalEmcc
    case LinuxOs => HalLinux
    case Osx => HalOsx
    case WindowsOs => HalWindows
    case NoWindow => HalNoWindow
  }

  /** The five platform macros of include/hal.h:60-71. */
  predicate IsPlatformMacro(m: Macro) {
    m == HalEmcc || m == HalLinux || m == HalOsx || m == HalWindows || m == HalNoWindow
  }

  predicate IsEmscripten(d: set<Macro>) { Emscripten2 in d || Emscripten in d }
  predicate IsLinux(d: set<Macro>) { GnuLinux in d || Linux in d || Unix in d }
  predicate IsMac(d: set<Macro>) { Macintosh in d || MacintoshCap in d || (Apple in d && Mach in d) }
  predicate IsWindows(d: set<Macro>) { Win32 in d || Win64 in d || Win32Alt in d || Windows in d }

  /** include/hal.h:60-71: the first test that holds picks the platform. */
  function PlatformOf(d: set<Macro>): (p: Platform)
    ensures IsEmscripten(d) <==> p == Emcc
    ensures p == LinuxOs <==> !IsEmscripten(d) && IsLinux(d)
    ensures p == Osx <==> !IsEmscripten(d) && !IsLinux(d) && IsMac(d)
    ensures p == WindowsOs <==> !IsEmscripten(d) && !IsLinux(d) && !IsMac(d) && IsWindows(d)
    ensures p == NoWindow <==> !IsEmscripten(d) && !IsLinux(d) && !IsMac(d) && !IsWindows(d)
  {
    if IsEmscripten(d) then Emcc
    else if IsLinux(d) then LinuxOs
    else if IsMac(d) then Osx
    else if IsWindows(d) then WindowsOs
    else NoWindow
  }

  /** The allocator the library calls: the caller's own, or the C library's. */
  datatype Allocator = UserAllocator(sized: bool) | LibcAllocator

  /**
   * include/hal.h:73-83: all of HAL_MALLOC and HAL_FREE with one of the two
   * realloc macros, or none of the four; anything in between is `#error`.
   */
  function AllocatorOf(d: set<Macro>): (r: Option<Allocator>)
    ensures r == Some(LibcAllocator) <==> HalMalloc !in d && HalFree !in d && HalRealloc !in d && HalReallocSized !in d
    ensures r.Some? && r.value.UserAllocator? ==> HalMalloc in d && HalFree in d && (HalRealloc in d || HalReallocSized in d)
    ensures r.None? <==> (HalMalloc in d || HalFree in d || HalRealloc in d || HalReallocSized in d) &&
                         !(HalMalloc in d && HalFree in d && (HalRealloc in d || HalReallocSized in d))
  {
    if HalMalloc in d && HalFree in d && (HalRealloc in d || HalReallocSized in d) then
      Some(UserAllocator(HalRealloc !in d))
    else if HalMalloc !in d && HalFree !in d && HalRealloc !in d && HalReallocSized !in d then
      Some(LibcAllocator)
    else None
  }

  const AllLayers: set<Layer> := {Graphics, Audio, Threads, Sockets, Filesystem}

  predicate AnyOnly(d: set<Macro>) {
    Only(Graphics) in d || Only(Audio) in d || Only(Threads) in d || Only(Sockets) in d || Only(Filesystem) in d
  }

  /** include/hal.h:134-154: the HAL_NO_* macros the header adds. */
  function OnlyRules(d: set<Macro>): (added: set<Macro>)
    ensures !AnyOnly(d) ==> added == {}
    ensures forall m :: m in added ==> m.No? && Only(m.layer) !in d
  {
    if !AnyOnly(d) then {}
    else set l <- AllLayers | Only(l) !in d :: No(l)
  }

  /** With some HAL_ONLY_* defined, every layer without its own HAL_ONLY_* gets HAL_NO_*. */
  lemma OnlyDisablesOthers(d: set<Macro>, l: Layer)
    requires AnyOnly(d) && Only(l) !in d
    ensures No(l) in OnlyRules(d)
  {
    match l
    case Graphics =>
    case Audio =>
    case Threads =>
    case Sockets =>
    case Filesystem =>
  }

  /** What the header leaves defined and whether it includes graphics.h. */
  datatype Outcome = Rejected | Configured(defined: set<Macro>, platform: Platform, allocator: Allocator, graphics: bool)

  /** The whole header read top to bottom over the macros defined beforehand. */
  function Preprocess(d: set<Macro>): (r: Outcome)
    ensures r.Rejected? <==> AllocatorOf(d).None?
    ensures r.Configured? ==> HalMetal in r.defined
    ensures r.Configured? ==> PlatformMacro(r.platform) in r.defined && r.platform == PlatformOf(d)
    ensures r.Configured? ==> (r.graphics <==> No(Graphics) !in r.defined)
    ensures r.Configured? ==> d <= r.defined
  {
    var alloc := AllocatorOf(d);
    if alloc.None? then Rejected
    else
      var p := PlatformOf(d);
      var defs := d + {HalMetal, PlatformMacro(p)} + OnlyRules(d);
      Configured(defs, p, alloc.value, No(Graphics) !in defs)
  }

  /** Exactly one platform macro ends up defined when the caller defined none of them. */
  lemma OnePlatform(d: set<Macro>)
    requires forall m :: m in d ==> !IsPlatformMacro(m)
    requires Preprocess(d).Configured?
    ensures forall m :: m in Preprocess(d).defined && IsPlatformMacro(m) <==> m == PlatformMacro(PlatformOf(d))
  {
    var r := Preprocess(d);
    var p := PlatformMacro(PlatformOf(d));
    assert r.defined == d + {HalMetal, p} + OnlyRules(d);
    forall m | m in r.defined && IsPlatformMacro(m) ensures m == p {
      assert m !in d;
      assert m !in OnlyRules(d);
    }
  }

  /** A layer the caller asked for with HAL_ONLY_* is never switched off by the header. */
  lemma OnlyLayerKept(d: set<Macro>, l: Layer)
    requires Only(l) in d && No(l) !in d
    requires Preprocess(d).Configured?
    ensures No(l) !in Preprocess(d).defined
  {
  }

  /** HAL_ONLY_GRAPHICS alone switches off the other four layers and keeps graphics.h. */
  lemma OnlyGraphics()
    ensures Preprocess({Only(Graphics)}).Configured?
    ensures Preprocess({Only(Graphics)}).graphics
    ensures forall l :: l != Graphics ==> No(l) in Preprocess({Only(Graphics)}).defined
  {
  }

  /** HAL_ONLY_AUDIO switches graphics off: graphics.h is not included. */
  lemma OnlyAudioDropsGraphics()
    ensures Preprocess({Only(Audio)}).Configured? && !Preprocess({Only(Audio)}).graphics
  {
    assert No(Graphics) in OnlyRules({Only(Audio)});
  }

  /** HAL_MALLOC without HAL_FREE is rejected. */
  lemma PartialAllocatorRejected()
    ensures Preprocess({HalMalloc, HalRealloc}).Rejected?
  {
  }


  /** A version component: the given value, or 0 when the macro is undefined. */
  function Component(v: Option<bv32>): bv32 { if v.Some? then v.value else 0 }

  /** include/hal.h:118-127: HAL_VERSION_INT. */
  function VersionInt(major: Option<bv32>, minor: Option<bv32>, rev: Option<bv32>): (r: bv32)
    ensures Component(major) < 256 && Component(minor) < 256 && Component(rev) < 256 ==>
      r >> 16 == Component(major) && (r >> 8) & 0xFF == Component(minor) && r & 0xFF == Component(rev)
  {
    (Component(major) << 16) | (Component(minor) << 8) | Component(rev)
  }

  /** Distinct versions with byte-sized components pack to distinct integers, so comparing packed integers tells them apart. */
  lemma VersionIntInjective(a: bv32, b: bv32, c: bv32, x: bv32, y: bv32, z: bv32)
    requires a < 256 && b < 256 && c < 256 && x < 256 && y < 256 && z < 256
    requires VersionInt(Some(a), Some(b), Some(c)) == VersionInt(Some(x), Some(y), Some(z))
    ensures a == x && b == y && c == z
  {
    assert a == VersionInt(Some(a), Some(b), Some(c)) >> 16;
  }

  /** No version macros at all: HAL_VERSION_INT is 0. */
  lemma VersionDefault()
    ensures VersionInt(None, None, None) == 0
  {
  }
}
