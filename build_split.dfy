// The layer split of build.rb:249-261: each layer header is cut at its
// `#if defined(HAL_IMPLEMENTATION)` / `#endif // HAL_IMPLEMENTATION`
// markers into build/<layer>.c (two banner lines and the implementation)
// and build/<layer>.h (everything else).
module HeaderSplit {
  import opened Wrappers
  import opened Strings

  const BeginMarker: string := "#if defined(HAL_IMPLEMENTATION)"
  const EndMarker: string := "#endif // HAL_IMPLEMENTATION"

  /** `/^#if defined\(HAL_IMPLEMENTATION\)$/` on a line read by `readlines` (`$` also matches before the final LF). */
  predicate IsBegin(l: string) { l == BeginMarker || l == BeginMarker + "\n" }

  /** `/^#endif \/\/ HAL_IMPLEMENTATION$/` on a line read by `readlines`. */
  predicate IsEnd(l: string) { l == EndMarker || l == EndMarker + "\n" }

  /** The index of the last line satisfying `p`, if any. */
  function LastWhere(lines: seq<string>, p: string -> bool): (r: Option<nat>)
    ensures r.Some? ==> r.value < |lines| && p(lines[r.value])
    ensures r.Some? ==> forall j :: r.value < j < |lines| ==> !p(lines[j])
    ensures r.None? ==> forall j :: 0 <= j < |lines| ==> !p(lines[j])
  {
    if lines == [] then None
    else if p(lines[|lines| - 1]) then Some(|lines| - 1)
    else LastWhere(lines[..|lines| - 1], p)
  }

  /** `ls`/`le` start at 0 and are overwritten on every matching line, so a missing marker reads as index 0. */
  function OrZero(o: Option<nat>): nat { if o.Some? then o.value else 0 }

  /**
   * The `each_with_index` loop of build.rb:250-255: the lines collected in
   * `ll` and the last begin and end marker indices, 0 where a marker is absent.
   */
  method ScanMarkers(lines: seq<string>) returns (ll: seq<string>, ls: nat, le: nat)
    ensures ll == lines
    ensures ls == OrZero(LastWhere(lines, IsBegin))
    ensures le == OrZero(LastWhere(lines, IsEnd))
  {
    ll, ls, le := [], 0, 0;
    var i := 0;
    while i < |lines|
      invariant 0 <= i <= |lines|
      invariant ll == lines[..i]
      invariant ls == OrZero(LastWhere(lines[..i], IsBegin))
      invariant le == OrZero(LastWhere(lines[..i], IsEnd))
    {
      var l := lines[i];
      assert lines[..i + 1][..i] == lines[..i];
      ll := ll + [l];
      if IsBegin(l) { ls := i; }
      if IsEnd(l) { le := i; }
      i := i + 1;
    }
    assert lines[..i] == lines;
  }

  /** How the split of one layer ends. */
  datatype SplitResult =
    | Aborted                                      // `puts_abort ... has nothing to split`
    | Crashed                                      // `slice!(ls..le)[1..-2]` is nil and `Array#+` raises
    | Written(source: seq<string>, header: seq<string>)

  /** The two banner lines that open every generated .c file. */
  function Banner(f: string): seq<string> {
    ["// Generated by build.rb\n", "#include \"" + f + "\"\n\n"]
  }

  /**
   * build.rb:256-260 for markers at `ls`/`le`: abort when they are adjacent;
   * otherwise `slice!(ls..le)` removes lines `ls..le` from `ll` and the .c
   * file gets the removed lines without their first and last.
   */
  function SplitAt(lines: seq<string>, ls: nat, le: nat, f: string): (r: SplitResult)
    ensures r.Aborted? <==> ls + 1 == le
    ensures ls + 1 != le ==> (r.Crashed? <==> le < ls || le >= |lines|)
    ensures r.Written? <==> ls + 1 != le && ls <= le < |lines|
    ensures r.Written? ==> r.header == lines[..ls] + lines[le + 1..]
    ensures r.Written? ==> |r.source| >= 2 && r.source[..2] == Banner(f)
    ensures r.Written? && ls < le ==> r.source[2..] == lines[ls + 1..le]
    ensures r.Written? && ls == le ==> |r.source| == 2
  {
    if ls + 1 == le then Aborted
    else if le < ls || le >= |lines| then Crashed
    else if ls == le then Written(Banner(f), lines[..ls] + lines[le + 1..])
    else Written(Banner(f) + lines[ls + 1..le], lines[..ls] + lines[le + 1..])
  }

  /** build.rb:249-261 for one layer file `f` with lines `lines`. */
  function Split(lines: seq<string>, f: string): SplitResult {
    SplitAt(lines, OrZero(LastWhere(lines, IsBegin)), OrZero(LastWhere(lines, IsEnd)), f)
  }

  /** Putting the removed block `ls..le` back at `ls` gives the input again. */
  lemma SplitAtRoundTrip(lines: seq<string>, ls: nat, le: nat, f: string)
    requires SplitAt(lines, ls, le, f).Written?
    ensures SplitAt(lines, ls, le, f).header[..ls] + lines[ls..le + 1] + SplitAt(lines, ls, le, f).header[ls..] == lines
  {
    var h := SplitAt(lines, ls, le, f).header;
    assert h[..ls] == lines[..ls];
    assert h[ls..] == lines[le + 1..];
    assert lines[..ls] + lines[ls..le + 1] + lines[le + 1..] == lines;
  }

  /** The split loses nothing: putting the removed block back at `ls` gives the input again. */
  lemma SplitRoundTrip(lines: seq<string>, f: string)
    requires Split(lines, f).Written?
    ensures var ls, le := OrZero(LastWhere(lines, IsBegin)), OrZero(LastWhere(lines, IsEnd));
      Split(lines, f).header[..ls] + lines[ls..le + 1] + Split(lines, f).header[ls..] == lines
  {
    SplitAtRoundTrip(lines, OrZero(LastWhere(lines, IsBegin)), OrZero(LastWhere(lines, IsEnd)), f);
  }

  /** With both markers present and apart, the .c file holds exactly the lines strictly between them. */
  lemma SplitWellFormed(lines: seq<string>, f: string, b: nat, e: nat)
    requires LastWhere(lines, IsBegin) == Some(b) && LastWhere(lines, IsEnd) == Some(e)
    requires b + 1 < e
    ensures Split(lines, f) == Written(Banner(f) + lines[b + 1..e], lines[..b] + lines[e + 1..])
  {
  }

  /** Markers on consecutive lines (an empty implementation) are the only abort. */
  lemma SplitAbortsIffAdjacent(lines: seq<string>, f: string)
    ensures Split(lines, f).Aborted? <==> OrZero(LastWhere(lines, IsBegin)) + 1 == OrZero(LastWhere(lines, IsEnd))
  {
  }

  /**
   * A header with neither marker reads as `ls == le == 0`: it is not
   * rejected, line 0 is removed from the .h file and the .c file gets only
   * the banner.
   */
  lemma SplitNoMarkersDropsFirstLine(lines: seq<string>, f: string)
    requires |lines| > 0
    requires forall j :: 0 <= j < |lines| ==> !IsBegin(lines[j]) && !IsEnd(lines[j])
    ensures Split(lines, f) == Written(Banner(f), lines[1..])
  {
  }

  /** A concrete instance: a two-line header without markers loses its first line. */
  lemma SplitNoMarkersExample()
    ensures Split(["#pragma once\n", "int x;\n"], "graphics.h") == Written(Banner("graphics.h"), ["int x;\n"])
  {
    var lines := ["#pragma once\n", "int x;\n"];
    assert !IsBegin(lines[0]) && !IsEnd(lines[0]) by { assert lines[0][1] != BeginMarker[1]; assert lines[0][1] != EndMarker[1]; }
    assert !IsBegin(lines[1]) && !IsEnd(lines[1]) by { assert lines[1][0] != BeginMarker[0]; }
    SplitNoMarkersDropsFirstLine(lines, "graphics.h");
  }

  /**
   * The check build.rb:256 evidently meant (`not ls or not le`, which can
   * never fire because 0 is truthy): a missing marker aborts too.
   */
  function SplitChecked(lines: seq<string>, f: string): (r: SplitResult)
    ensures r.Written? ==> LastWhere(lines, IsBegin).Some? && LastWhere(lines, IsEnd).Some?
    ensures LastWhere(lines, IsBegin).None? || LastWhere(lines, IsEnd).None? ==> r.Aborted?
  {
    match (LastWhere(lines, IsBegin), LastWhere(lines, IsEnd))
    case (Some(b), Some(e)) => SplitAt(lines, b, e, f)
    case _ => Aborted
  }

  /** With the check, a written split has both markers and keeps every input line in exactly one output. */
  lemma SplitCheckedSound(lines: seq<string>, f: string)
    requires SplitChecked(lines, f).Written?
    ensures var b, e := LastWhere(lines, IsBegin).value, LastWhere(lines, IsEnd).value;
      IsBegin(lines[b]) && IsEnd(lines[e]) && b <= e &&
      SplitChecked(lines, f).header[..b] + lines[b..e + 1] + SplitChecked(lines, f).header[b..] == lines
  {
    SplitAtRoundTrip(lines, LastWhere(lines, IsBegin).value, LastWhere(lines, IsEnd).value, f);
  }

  /** build.rb:250-260 for one layer: scan for the markers, then cut. */
  method SplitLayer(lines: seq<string>, f: string) returns (r: SplitResult)
    ensures r == Split(lines, f)
  {
    var ll, ls, le := ScanMarkers(lines);
    r := SplitAt(ll, ls, le, f);
  }

  /** `f.gsub(/\.h$/, '.c')`: the name of the generated source file. */
  function SourceName(f: string): (r: string)
    ensures EndsWith(f, ".h") ==> EndsWith(r, ".c") && r[..|r| - 2] == f[..|f| - 2]
    ensures !EndsWith(f, ".h") ==> r == f
  {
    if EndsWith(f, ".h") then f[..|f| - 2] + ".c" else f
  }
}
