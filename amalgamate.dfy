// The amalgamation step shared by build.rb (lines 226-247) and
// tools/allforone.rb: every line of hal.h of the form `#include "X.h"`
// followed by a line break is replaced by the lines of X.h from index 57
// on, with each `#if defined(__cplusplus)` block (through the next bare
// `#endif`) removed; every other line is copied unchanged.
module Amalgamate {
  import opened Wrappers
  import opened Strings

  /** The first 57 lines of every included header are skipped (`[57..-1]`). */
  const Preface: nat := 57

  /** `[\r\n]$` on a line read by `readlines`: the line ends in LF, CR LF or a lone CR. */
  predicate IsBreak(t: string) { t == "\n" || t == "\r\n" || t == "\r" }

  /** The line break a line ends with, if any. */
  function BreakOf(l: string): (t: string)
    ensures t == "" || IsBreak(t)
    ensures EndsWith(l, t)
  {
    if EndsWith(l, "\r\n") then "\r\n"
    else if EndsWith(l, "\n") then "\n"
    else if EndsWith(l, "\r") then "\r"
    else ""
  }

  /** `l` is exactly `text` followed by a line break. */
  predicate IsLine(l: string, text: string) {
    var t := BreakOf(l);
    t != "" && l[..|l| - |t|] == text
  }

  const IncludeOpen: string := "#include \""
  const IncludeClose: string := ".h\""

  /** No whitespace character in `s` (`\S*`). */
  predicate NoSpace(s: string) {
    s == [] || (!IsSpace(s[0]) && NoSpace(s[1..]))
  }

  /** `/^#include "(?<p>\S+)\.h"[\r\n]$/`: the captured `p`, or nil. */
  function IncludeTarget(l: string): (p: Option<string>)
    ensures p.Some? ==> |p.value| > 0 && NoSpace(p.value)
  {
    var t := BreakOf(l);
    if t == "" then None
    else
      var body := l[..|l| - |t|];
      if IncludeOpen <= body && |body| > |IncludeOpen| + |IncludeClose| && EndsWith(body, IncludeClose) then
        var name := body[|IncludeOpen|..|body| - |IncludeClose|];
        if NoSpace(name) then Some(name) else None
      else None
  }

  /** An include line with a non-empty, space-free name and a line break yields that name. */
  lemma IncludeTargetOf(p: string, t: string)
    requires |p| > 0 && NoSpace(p) && IsBreak(t)
    ensures IncludeTarget(IncludeOpen + p + IncludeClose + t) == Some(p)
  {
    var body := IncludeOpen + p + IncludeClose;
    var l := body + t;
    assert l[|body| - 1] == '"';
    if t == "\r" {
      assert l[|l| - 2..] != "\r\n" by { assert l[|l| - 2..][0] == '"'; }
      assert !EndsWith(l, "\n") by { assert l[|l| - 1] == '\r'; }
    }
    assert BreakOf(l) == t;
    assert l[..|l| - |t|] == body;
    assert IncludeOpen <= body;
    assert body[|body| - |IncludeClose|..] == IncludeClose;
    assert body[|IncludeOpen|..|body| - |IncludeClose|] == p;
  }

  predicate IsGuardOpen(l: string) { IsLine(l, "#if defined(__cplusplus)") }
  predicate IsBareEndif(l: string) { IsLine(l, "#endif") }

  /**
   * The lines the `stop` loop emits, starting in state `stop`, for a line
   * test `opens` that starts a skipped block and `closes` that ends it.
   */
  function StripWith(lines: seq<string>, stop: bool, opens: string -> bool, closes: string -> bool): seq<string> {
    if lines == [] then []
    else if stop then StripWith(lines[1..], !closes(lines[0]), opens, closes)
    else if opens(lines[0]) then StripWith(lines[1..], true, opens, closes)
    else [lines[0]] + StripWith(lines[1..], false, opens, closes)
  }

  /** The C++-guard stripping of build.rb:235-244 and tools/allforone.rb:15-24. */
  function Strip(lines: seq<string>): seq<string> { StripWith(lines, false, IsGuardOpen, IsBareEndif) }

  lemma {:induction false} StripWithNone(lines: seq<string>, opens: string -> bool, closes: string -> bool)
    requires forall i :: 0 <= i < |lines| ==> !opens(lines[i])
    ensures StripWith(lines, false, opens, closes) == lines
  {
    if lines != [] {
      StripWithNone(lines[1..], opens, closes);
      assert [lines[0]] + lines[1..] == lines;
    }
  }

  lemma {:induction false} StripWithPrefix(pre: seq<string>, rest: seq<string>, opens: string -> bool, closes: string -> bool)
    requires forall i :: 0 <= i < |pre| ==> !opens(pre[i])
    ensures StripWith(pre + rest, false, opens, closes) == pre + StripWith(rest, false, opens, closes)
  {
    if pre != [] {
      var whole := pre + rest;
      assert whole[0] == pre[0];
      assert whole[1..] == pre[1..] + rest;
      StripWithPrefix(pre[1..], rest, opens, closes);
      assert [pre[0]] + (pre[1..] + StripWith(rest, false, opens, closes)) == pre + StripWith(rest, false, opens, closes);
    } else {
      assert pre + rest == rest;
    }
  }

  lemma {:induction false} StripWithSkip(mid: seq<string>, endif: string, post: seq<string>, opens: string -> bool, closes: string -> bool)
    requires forall i :: 0 <= i < |mid| ==> !closes(mid[i])
    requires closes(endif)
    ensures StripWith(mid + [endif] + post, true, opens, closes) == StripWith(post, false, opens, closes)
  {
    if mid == [] {
      assert [endif] + post == mid + [endif] + post;
      assert ([endif] + post)[1..] == post;
    } else {
      StripWithSkip(mid[1..], endif, post, opens, closes);
      assert (mid + [endif] + post)[1..] == mid[1..] + [endif] + post;
    }
  }

  lemma {:induction false} StripWithEmits(lines: seq<string>, stop: bool, opens: string -> bool, closes: string -> bool)
    ensures forall l :: l in StripWith(lines, stop, opens, closes) ==> l in lines && !opens(l)
  {
    if lines != [] {
      var next := if stop then !closes(lines[0]) else opens(lines[0]);
      StripWithEmits(lines[1..], next, opens, closes);
      StripWithEmits(lines[1..], false, opens, closes);
    }
  }

  /** A header without a C++ guard is emitted unchanged. */
  lemma StripNoGuard(lines: seq<string>)
    requires forall i :: 0 <= i < |lines| ==> !IsGuardOpen(lines[i])
    ensures Strip(lines) == lines
  {
    StripWithNone(lines, IsGuardOpen, IsBareEndif);
  }

  /**
   * The `#if defined(__cplusplus)` line, everything after it and the next
   * bare `#endif` are dropped; the lines before and after are emitted.
   */
  lemma StripGuardBlock(pre: seq<string>, open: string, mid: seq<string>, endif: string, post: seq<string>)
    requires forall i :: 0 <= i < |pre| ==> !IsGuardOpen(pre[i])
    requires IsGuardOpen(open)
    requires forall i :: 0 <= i < |mid| ==> !IsBareEndif(mid[i])
    requires IsBareEndif(endif)
    ensures Strip(pre + ([open] + (mid + [endif] + post))) == pre + Strip(post)
  {
    var tail := mid + [endif] + post;
    StripWithPrefix(pre, [open] + tail, IsGuardOpen, IsBareEndif);
    assert ([open] + tail)[1..] == tail;
    StripWithSkip(mid, endif, post, IsGuardOpen, IsBareEndif);
  }

  /** Every emitted line is an input line; none of them opens a C++ guard. */
  lemma StripEmitsNoGuard(lines: seq<string>)
    ensures forall l :: l in Strip(lines) ==> l in lines && !IsGuardOpen(l)
  {
    StripWithEmits(lines, false, IsGuardOpen, IsBareEndif);
  }

  /** The `stop`-flag loop of build.rb:235-244 and tools/allforone.rb:15-24. */
  method StripGuards(lines: seq<string>) returns (out: seq<string>)
    ensures out == Strip(lines)
  {
    out := [];
    var stop := false;
    var i := 0;
    while i < |lines|
      invariant 0 <= i <= |lines|
      invariant out + StripWith(lines[i..], stop, IsGuardOpen, IsBareEndif) == Strip(lines)
    {
      assert lines[i..][1..] == lines[i + 1..];
      var ll := lines[i];
      if stop {
        if IsBareEndif(ll) { stop := false; }
      } else if IsGuardOpen(ll) {
        stop := true;
      } else {
        out := out + [ll];
      }
      i := i + 1;
    }
    assert lines[i..] == [];
  }

  /** How an amalgamation ends: all lines out, or stopped at an include with the lines emitted so far. */
  datatype Outcome =
    | Done(out: seq<string>)
    | Missing(header: string, partial: seq<string>)   // `X.h` does not exist: the script gives up
    | TooShort(header: string, partial: seq<string>)  // `X.h` has fewer than 57 lines: `nil.each` raises

  /** The text that replaces one line of hal.h, or why there is none. */
  datatype Piece = Lines(ls: seq<string>) | NoFile(header: string) | Short(header: string)

  /**
   * The replacement of line `l` when `target` recognises include lines:
   * the line itself, or the guard-stripped lines of the named header from
   * index 57 on.
   */
  function ExpandLineBy(l: string, files: map<string, seq<string>>, target: string -> Option<string>): Piece {
    match target(l)
    case None => Lines([l])
    case Some(p) =>
      var header := p + ".h";
      if header !in files then NoFile(header)
      else if |files[header]| < Preface then Short(header)
      else Lines(Strip(files[header][Preface..]))
  }

  /** The amalgamation of hal.h's lines, given the readable files and the include test. */
  function ExpandBy(hal: seq<string>, files: map<string, seq<string>>, target: string -> Option<string>): Outcome
    decreases |hal|
  {
    if hal == [] then Done([])
    else match ExpandBy(hal[..|hal| - 1], files, target)
      case Done(out) =>
        (match ExpandLineBy(hal[|hal| - 1], files, target)
         case Lines(ls) => Done(out + ls)
         case NoFile(h) => Missing(h, out)
         case Short(h) => TooShort(h, out))
      case other => other
  }

  function ExpandLine(l: string, files: map<string, seq<string>>): Piece { ExpandLineBy(l, files, IncludeTarget) }

  /** The amalgamation of build.rb:226-247 with the include pattern of build.rb:229. */
  function Expand(hal: seq<string>, files: map<string, seq<string>>): Outcome { ExpandBy(hal, files, IncludeTarget) }

  lemma {:induction false} ExpandByNoIncludes(hal: seq<string>, files: map<string, seq<string>>, target: string -> Option<string>)
    requires forall i :: 0 <= i < |hal| ==> target(hal[i]).None?
    ensures ExpandBy(hal, files, target) == Done(hal)
    decreases |hal|
  {
    if hal != [] {
      var init, last := hal[..|hal| - 1], hal[|hal| - 1];
      ExpandByNoIncludes(init, files, target);
      assert target(last).None?;
      assert ExpandLineBy(last, files, target) == Lines([last]);
      assert init + [last] == hal;
    }
  }

  /** Lines with no include directive pass through unchanged and in order. */
  lemma ExpandNoIncludes(hal: seq<string>, files: map<string, seq<string>>)
    requires forall i :: 0 <= i < |hal| ==> IncludeTarget(hal[i]).None?
    ensures Expand(hal, files) == Done(hal)
  {
    ExpandByNoIncludes(hal, files, IncludeTarget);
  }

  lemma ExpandByAppend(hal: seq<string>, l: string, files: map<string, seq<string>>, target: string -> Option<string>)
    requires ExpandBy(hal, files, target).Done?
    ensures ExpandLineBy(l, files, target).Lines? ==>
      ExpandBy(hal + [l], files, target) == Done(ExpandBy(hal, files, target).out + ExpandLineBy(l, files, target).ls)
    ensures ExpandLineBy(l, files, target).NoFile? ==>
      ExpandBy(hal + [l], files, target) == Missing(ExpandLineBy(l, files, target).header, ExpandBy(hal, files, target).out)
    ensures ExpandLineBy(l, files, target).Short? ==>
      ExpandBy(hal + [l], files, target) == TooShort(ExpandLineBy(l, files, target).header, ExpandBy(hal, files, target).out)
  {
    assert (hal + [l])[..|hal|] == hal;
  }

  /** Each step of the expansion appends exactly the replacement of the next hal.h line. */
  lemma ExpandAppend(hal: seq<string>, l: string, files: map<string, seq<string>>)
    requires Expand(hal, files).Done?
    ensures ExpandLine(l, files).Lines? ==> Expand(hal + [l], files) == Done(Expand(hal, files).out + ExpandLine(l, files).ls)
    ensures ExpandLine(l, files).NoFile? ==> Expand(hal + [l], files) == Missing(ExpandLine(l, files).header, Expand(hal, files).out)
    ensures ExpandLine(l, files).Short? ==> Expand(hal + [l], files) == TooShort(ExpandLine(l, files).header, Expand(hal, files).out)
  {
    ExpandByAppend(hal, l, files, IncludeTarget);
  }

  lemma {:induction false} ExpandByStops(hal: seq<string>, rest: seq<string>, files: map<string, seq<string>>, target: string -> Option<string>)
    requires !ExpandBy(hal, files, target).Done?
    ensures ExpandBy(hal + rest, files, target) == ExpandBy(hal, files, target)
    decreases |rest|
  {
    if rest != [] {
      var init := rest[..|rest| - 1];
      ExpandByStops(hal, init, files, target);
      var whole := hal + rest;
      assert whole[..|whole| - 1] == hal + init;
      assert !ExpandBy(whole[..|whole| - 1], files, target).Done?;
    } else {
      assert hal + rest == hal;
    }
  }

  /** A missing or short header stops the amalgamation there, whatever follows. */
  lemma ExpandStopsAtMissing(hal: seq<string>, rest: seq<string>, files: map<string, seq<string>>)
    requires !Expand(hal, files).Done?
    ensures Expand(hal + rest, files) == Expand(hal, files)
  {
    ExpandByStops(hal, rest, files, IncludeTarget);
  }

  lemma StopsAtBy(hal: seq<string>, i: nat, files: map<string, seq<string>>, target: string -> Option<string>)
    requires i < |hal| && !ExpandBy(hal[..i + 1], files, target).Done?
    ensures ExpandBy(hal, files, target) == ExpandBy(hal[..i + 1], files, target)
  {
    ExpandByStops(hal[..i + 1], hal[i + 1..], files, target);
    assert hal[..i + 1] + hal[i + 1..] == hal;
  }

  /** One pass of the outer loop of build.rb:227-246: the replacement of one hal.h line. */
  method ExpandOne(l: string, files: map<string, seq<string>>, target: string -> Option<string>) returns (piece: Piece)
    ensures piece == ExpandLineBy(l, files, target)
  {
    var p := target(l);
    if p.None? {
      piece := Lines([l]);
    } else {
      var header := p.value + ".h";
      if header !in files {
        piece := NoFile(header);
      } else if |files[header]| < Preface {
        piece := Short(header);
      } else {
        var kept := StripGuards(files[header][Preface..]);
        piece := Lines(kept);
      }
    }
  }

  /** The outer loop of build.rb:227-246 for an include test `target`: lines are emitted as they are read. */
  method AmalgamateBy(hal: seq<string>, files: map<string, seq<string>>, target: string -> Option<string>) returns (r: Outcome)
    ensures r == ExpandBy(hal, files, target)
  {
    var out: seq<string> := [];
    var i := 0;
    while i < |hal|
      invariant 0 <= i <= |hal|
      invariant ExpandBy(hal[..i], files, target) == Done(out)
    {
      var l := hal[i];
      assert hal[..i + 1] == hal[..i] + [l];
      ExpandByAppend(hal[..i], l, files, target);
      var piece := ExpandOne(l, files, target);
      match piece {
        case Lines(ls) =>
          out := out + ls;
        case NoFile(h) =>
          r := Missing(h, out);
          StopsAtBy(hal, i, files, target);
          return;
        case Short(h) =>
          r := TooShort(h, out);
          StopsAtBy(hal, i, files, target);
          return;
      }
      i := i + 1;
    }
    assert hal[..i] == hal;
    r := Done(out);
  }

  /** build.rb:226-247: the amalgamation with the include pattern of line 229. */
  method AmalgamateLines(hal: seq<string>, files: map<string, seq<string>>) returns (r: Outcome)
    ensures r == Expand(hal, files)
  {
    r := AmalgamateBy(hal, files, IncludeTarget);
  }

  /** `puts l`: a line that does not end in LF gets one. */
  function PutsLine(l: string): (r: string)
    ensures EndsWith(r, "\n")
    ensures EndsWith(l, "\n") ==> r == l
  {
    if EndsWith(l, "\n") then l else l + "\n"
  }

  /** What tools/allforone.rb leaves behind. */
  datatype AllForOne = AllForOne(stdout: seq<string>, exitStatus: int, halHExists: bool)

  /**
   * tools/allforone.rb: the same expansion, but every emitted line goes to
   * standard output through `puts`; hal_h.h is created empty and is never
   * written, and a missing header deletes it and exits with status 1.
   */
  method AllForOneRun(hal: seq<string>, files: map<string, seq<string>>) returns (res: Option<AllForOne>)
    ensures res.None? <==> Expand(hal, files).TooShort?
    ensures res.Some? && Expand(hal, files).Done? ==>
      res.value == AllForOne(Puts(Expand(hal, files).out), 0, true)
    ensures res.Some? && Expand(hal, files).Missing? ==>
      res.value == AllForOne(Puts(Expand(hal, files).partial), 1, false)
  {
    var r := AmalgamateLines(hal, files);
    match r
    case Done(out) => res := Some(AllForOne(Puts(out), 0, true));
    case Missing(_, partial) => res := Some(AllForOne(Puts(partial), 1, false));
    case TooShort(_, _) => res := None;
  }

  function Puts(ls: seq<string>): (r: seq<string>)
    ensures |r| == |ls| && forall i :: 0 <= i < |ls| ==> r[i] == PutsLine(ls[i])
  {
    seq(|ls|, i requires 0 <= i < |ls| => PutsLine(ls[i]))
  }
}
