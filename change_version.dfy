// tools/change_version.rb: read `maj.min.rev` from the first line of
// VERSION, apply every `-maj=…`, `-min=…`, `-rev=…` option found in the
// arguments (a number sets the field, `inc`/`dec` step it), and write the
// three fields back.
module ChangeVersion {
  import opened Wrappers
  import opened Strings
  import opened BuildArgs

  predicate HasDigit(s: string) { exists i :: 0 <= i < |s| && IsDigit(s[i]) }

  /**
   * `modify(a, b)`: `b` itself when it holds a digit; otherwise `a` stepped
   * by one when `b` (in lower case) contains `inc` or `dec`, tested in that
   * order; otherwise `a` unchanged.
   */
  function Modify(a: string, b: string): (r: string)
    ensures HasDigit(b) ==> r == b
    ensures !HasDigit(b) && !Contains(Downcase(b), "inc") && !Contains(Downcase(b), "dec") ==> r == a
  {
    if HasDigit(Downcase(b)) then b
    else if Contains(Downcase(b), "inc") then IntToString(ToI(a) + 1)
    else if Contains(Downcase(b), "dec") then IntToString(ToI(a) - 1)
    else a
  }

  /** Lower-casing keeps exactly the digits where they were. */
  lemma DowncaseDigits(b: string)
    ensures HasDigit(Downcase(b)) <==> HasDigit(b)
  {
    if HasDigit(b) {
      var i :| 0 <= i < |b| && IsDigit(b[i]);
      assert Downcase(b)[i] == b[i];
    }
    if HasDigit(Downcase(b)) {
      var i :| 0 <= i < |Downcase(b)| && IsDigit(Downcase(b)[i]);
      assert Downcase(b)[i] == Lower(b[i]);
    }
  }

  lemma {:induction false} ContainsAt(s: string, sub: string, i: nat)
    requires i + |sub| <= |s| && s[i..i + |sub|] == sub
    ensures Contains(s, sub)
    decreases i
  {
    if i == 0 {
      assert sub <= s;
    } else {
      assert s[1..][i - 1..i - 1 + |sub|] == s[i..i + |sub|];
      ContainsAt(s[1..], sub, i - 1);
    }
  }

  /** A field written by Integer#to_s, stepped up and then down, comes back unchanged. */
  lemma IncThenDec(n: int)
    ensures Modify(Modify(IntToString(n), "inc"), "dec") == IntToString(n)
  {
    assert !HasDigit("inc") && !HasDigit("dec");
    DowncaseDigits("inc");
    DowncaseDigits("dec");
    assert Downcase("inc") == "inc" && Downcase("dec") == "dec";
    ContainsAt("inc", "inc", 0);
    ContainsAt("dec", "dec", 0);
    assert !Contains("dec", "inc") by {
      assert "dec"[1..] == "ec" && "ec"[1..] == "c" && "c"[1..] == "";
      assert "dec"[0] != "inc"[0] && "ec"[0] != "inc"[0];
    }
    IntToStringToI(n);
    IntToStringToI(n + 1);
    assert Modify(IntToString(n), "inc") == IntToString(n + 1);
    assert Modify(IntToString(n + 1), "dec") == IntToString(n);
  }

  /** A value holding a digit wins over `inc`/`dec`: `-maj=inc2` sets the field to `inc2`. */
  lemma DigitWins(a: string)
    ensures Modify(a, "inc2") == "inc2"
  {
    assert IsDigit("inc2"[3]);
    DowncaseDigits("inc2");
  }

  /** Every option in a string, left to right, as `String#scan` finds them. */
  function ScanAll(s: string, from: nat): (r: seq<(string, Option<string>)>)
    requires from <= |s|
    ensures FirstMatch(s, from).None? <==> r == []
    decreases |s| - from
  {
    match FirstMatch(s, from)
    case None => []
    case Some(t) => [(t.key, t.raw)] + ScanAll(s, t.end)
  }

  /** `$*.flat_map { |s| s.scan(...) }`. */
  function AllOptions(argv: seq<string>): seq<(string, Option<string>)>
    decreases |argv|
  {
    if argv == [] then [] else AllOptions(argv[..|argv| - 1]) + ScanAll(argv[|argv| - 1], 0)
  }

  datatype Version = Version(maj: string, min: string, rev: string)

  /**
   * tools/change_version.rb:3-4: the first line split on `.`, its first
   * three fields taken and any further ones dropped; fewer than three
   * fields leave `rev` nil and `rev[-1]` raises. The strip compares a
   * character with the two-character string `\n` and never fires, so `rev`
   * keeps the line break.
   */
  function ReadVersion(lines: seq<string>): (r: Option<Version>)
    ensures r.None? <==> lines == [] || |Split(lines[0], '.')| < 3
    ensures r.Some? ==> VersionText(r.value) <= lines[0]
    ensures r.Some? ==> !HasChar(r.value.maj, '.') && !HasChar(r.value.min, '.') && !HasChar(r.value.rev, '.')
    ensures r.Some? && |Fields(lines[0], '.')| == 3 ==> VersionText(r.value) == lines[0]
    ensures r.Some? ==> var parts := Split(lines[0], '.');
      r.value.maj == parts[0] && r.value.min == parts[1] && r.value.rev == parts[2]
  {
    if lines == [] then None
    else
      var parts := Split(lines[0], '.');
      if |parts| < 3 then None
      else
        VersionFields(lines[0]);
        Some(Version(parts[0], parts[1], parts[2]))
  }

  /** No field of a split holds the separator. */
  lemma {:induction false} FieldsHaveNoSep(s: string, sep: char)
    ensures forall i :: 0 <= i < |Fields(s, sep)| ==> !HasChar(Fields(s, sep)[i], sep)
    decreases |s|
  {
    if s != [] {
      var rest := Fields(s[1..], sep);
      FieldsHaveNoSep(s[1..], sep);
      if s[0] != sep {
        var first := [s[0]] + rest[0];
        assert !HasChar(first, sep) by {
          forall j | 0 <= j < |first| ensures first[j] != sep {
            if j > 0 { assert first[j] == rest[0][j - 1]; }
          }
        }
        assert Fields(s, sep) == [first] + rest[1..];
        forall i | 1 <= i < |Fields(s, sep)| ensures !HasChar(Fields(s, sep)[i], sep) {
          assert Fields(s, sep)[i] == rest[i];
        }
      } else {
        assert Fields(s, sep) == [""] + rest;
        forall i | 1 <= i < |Fields(s, sep)| ensures !HasChar(Fields(s, sep)[i], sep) {
          assert Fields(s, sep)[i] == rest[i - 1];
        }
      }
    }
  }

  /** The first part of a join is where it starts. */
  lemma JoinStartsWith(xs: seq<string>, sep: string)
    requires |xs| >= 1
    ensures xs[0] <= Join(xs, sep)
  {
  }

  /**
   * The first three fields of a line with at least three, joined with `.`,
   * are where the line starts, none of them holds a `.`, and with exactly
   * three they are the whole line.
   */
  lemma VersionFields(s: string)
    requires |Split(s, '.')| >= 3
    ensures var ps := Split(s, '.'); ps[0] + "." + ps[1] + "." + ps[2] <= s
    ensures var ps := Split(s, '.'); !HasChar(ps[0], '.') && !HasChar(ps[1], '.') && !HasChar(ps[2], '.')
    ensures var ps := Split(s, '.'); |Fields(s, '.')| == 3 ==> ps[0] + "." + ps[1] + "." + ps[2] == s
  {
    var fs := Fields(s, '.');
    var ps := Split(s, '.');
    assert ps <= fs;
    assert ps[0] == fs[0] && ps[1] == fs[1] && ps[2] == fs[2];
    FieldsHaveNoSep(s, '.');
    JoinFields(s, '.');
    var tail := Join(fs[2..], ".");
    JoinThree(fs);
    JoinStartsWith(fs[2..], ".");
    PrefixAppend(fs[0] + "." + fs[1] + ".", fs[2], tail);
    if |fs| == 3 {
      assert fs[2..] == [fs[2]];
    }
  }

  /** A join of three or more parts opens with the first two and their separators. */
  lemma JoinThree(fs: seq<string>)
    requires |fs| >= 3
    ensures Join(fs, ".") == fs[0] + "." + fs[1] + "." + Join(fs[2..], ".")
  {
    var t, j := fs[1..], Join(fs[2..], ".");
    assert t[1..] == fs[2..];
    assert Join(t, ".") == fs[1] + "." + j;
    assert Join(fs, ".") == fs[0] + "." + (fs[1] + "." + j);
  }

  lemma PrefixAppend(a: string, b: string, c: string)
    requires b <= c
    ensures a + b <= a + c
  {
    assert (a + c)[..|a + b|] == a + c[..|b|];
  }


  /** One pass of the `each` loop (lines 19-28): `maj`, `min` and `rev` in any case; nil value raises. */
  function ApplyOption(v: Version, k: string, value: Option<string>): (r: Option<Version>)
    ensures var key := Downcase(k); key != "maj" && key != "min" && key != "rev" ==> r == Some(v)
    ensures r.None? <==> value.None? && (Downcase(k) == "maj" || Downcase(k) == "min" || Downcase(k) == "rev")
  {
    var key := Downcase(k);
    if key == "maj" then (if value.None? then None else Some(v.(maj := Modify(v.maj, value.value))))
    else if key == "min" then (if value.None? then None else Some(v.(min := Modify(v.min, value.value))))
    else if key == "rev" then (if value.None? then None else Some(v.(rev := Modify(v.rev, value.value))))
    else Some(v)
  }

  /** The whole `each` loop over the Hash's entries, in order. */
  function ApplyAll(v: Version, h: Hash<Option<string>>): Option<Version>
    decreases |h|
  {
    if h == [] then Some(v)
    else match ApplyAll(v, h[..|h| - 1])
      case None => None
      case Some(w) => ApplyOption(w, h[|h| - 1].0, h[|h| - 1].1)
  }

  /** The text written to VERSION. */
  function VersionText(v: Version): string { v.maj + "." + v.min + "." + v.rev }

  /** The whole script: the new VERSION text, or None where Ruby raises. */
  function ChangeSpec(lines: seq<string>, argv: seq<string>): Option<string> {
    match ReadVersion(lines)
    case None => None
    case Some(v) =>
      match ApplyAll(v, HashOf(AllOptions(argv)))
      case None => None
      case Some(w) => Some(VersionText(w))
  }

  /** Lines 19-28 as the loop they are: each entry of the Hash in turn. */
  method ApplyEach(v: Version, h: Hash<Option<string>>) returns (r: Option<Version>)
    ensures r == ApplyAll(v, h)
  {
    var cur := v;
    var i := 0;
    while i < |h|
      invariant 0 <= i <= |h|
      invariant ApplyAll(v, h[..i]) == Some(cur)
    {
      assert h[..i + 1][..i] == h[..i];
      var key := Downcase(h[i].0);
      var value := h[i].1;
      if key == "maj" || key == "min" || key == "rev" {
        if value.None? {
          ApplyAllStops(v, h, i + 1);
          return None;
        }
      }
      if key == "maj" {
        cur := cur.(maj := Modify(cur.maj, value.value));
      } else if key == "min" {
        cur := cur.(min := Modify(cur.min, value.value));
      } else if key == "rev" {
        cur := cur.(rev := Modify(cur.rev, value.value));
      }
      i := i + 1;
    }
    assert h[..i] == h;
    r := Some(cur);
  }

  lemma {:induction false} ApplyAllStops(v: Version, h: Hash<Option<string>>, k: nat)
    requires k <= |h| && ApplyAll(v, h[..k]).None?
    ensures ApplyAll(v, h).None?
    decreases |h| - k
  {
    if k == |h| {
      assert h[..k] == h;
    } else {
      assert h[..k + 1][..k] == h[..k];
      ApplyAllNoneStep(v, h[..k + 1]);
      ApplyAllStops(v, h, k + 1);
    }
  }

  /** One entry more after the loop has raised: still raised. */
  lemma ApplyAllNoneStep(v: Version, h: Hash<Option<string>>)
    requires h != [] && ApplyAll(v, h[..|h| - 1]).None?
    ensures ApplyAll(v, h).None?
  {
  }

  /** tools/change_version.rb as a whole: the text it writes to VERSION, or None where it raises. */
  method Change(lines: seq<string>, argv: seq<string>) returns (r: Option<string>)
    ensures r == ChangeSpec(lines, argv)
  {
    var v := ReadVersion(lines);
    if v.None? {
      return None;
    }
    var w := ApplyEach(v.value, HashOf(AllOptions(argv)));
    if w.None? {
      return None;
    }
    r := Some(VersionText(w.value));
  }

  /** Keys other than maj/min/rev, in any case, change nothing. */
  lemma {:induction false} OtherKeysIgnored(v: Version, h: Hash<Option<string>>)
    requires forall i :: 0 <= i < |h| ==> Downcase(h[i].0) != "maj" && Downcase(h[i].0) != "min" && Downcase(h[i].0) != "rev"
    ensures ApplyAll(v, h) == Some(v)
    decreases |h|
  {
    if h != [] {
      OtherKeysIgnored(v, h[..|h| - 1]);
    }
  }

  /** `Join` undoes `Fields`. */
  lemma {:induction false} JoinFields(s: string, sep: char)
    ensures Join(Fields(s, sep), [sep]) == s
    decreases |s|
  {
    if s != [] {
      var rest := Fields(s[1..], sep);
      JoinFields(s[1..], sep);
      if s[0] == sep {
        JoinCons("", rest, [sep]);
        assert [sep] + s[1..] == s;
      } else {
        var first := [s[0]] + rest[0];
        if |rest| == 1 {
          assert Fields(s, sep) == [first];
          assert first == [s[0]] + s[1..] == s;
        } else {
          assert Fields(s, sep) == [first] + rest[1..];
          JoinCons(first, rest[1..], [sep]);
          JoinCons(rest[0], rest[1..], [sep]);
          assert [rest[0]] + rest[1..] == rest;
          assert Join(rest, [sep]) == rest[0] + [sep] + Join(rest[1..], [sep]);
          assert [s[0]] + s[1..] == s;
        }
      }
    }
  }

  lemma JoinCons(x: string, xs: seq<string>, sep: string)
    requires |xs| >= 1
    ensures Join([x] + xs, sep) == x + sep + Join(xs, sep)
  {
    assert ([x] + xs)[0] == x;
    assert ([x] + xs)[1..] == xs;
  }

  /**
   * No maj/min/rev option: a first line of exactly three non-empty-ended
   * fields is written back unchanged, line break included.
   */
  lemma UnchangedVersion(lines: seq<string>, argv: seq<string>)
    requires |lines| > 0
    requires var fs := Fields(lines[0], '.'); |fs| == 3 && fs[2] != ""
    requires forall i :: 0 <= i < |AllOptions(argv)| ==>
      var k := Downcase(AllOptions(argv)[i].0); k != "maj" && k != "min" && k != "rev"
    ensures ChangeSpec(lines, argv) == Some(lines[0])
  {
    var fs := Fields(lines[0], '.');
    assert Split(lines[0], '.') == fs;
    var h := HashOf(AllOptions(argv));
    forall i | 0 <= i < |h|
      ensures Downcase(h[i].0) != "maj" && Downcase(h[i].0) != "min" && Downcase(h[i].0) != "rev"
    {
      HashOfKeys(AllOptions(argv), h[i].0, i);
    }
    var v := Version(fs[0], fs[1], fs[2]);
    assert ReadVersion(lines) == Some(v);
    OtherKeysIgnored(v, h);
    JoinFields(lines[0], '.');
    assert fs == [fs[0]] + ([fs[1]] + [fs[2]]);
    JoinCons(fs[0], [fs[1]] + [fs[2]], ".");
    JoinCons(fs[1], [fs[2]], ".");
    assert Join([fs[2]], ".") == fs[2];
    assert lines[0] == fs[0] + "." + (fs[1] + "." + fs[2]);
    assert VersionText(v) == lines[0];
  }

  /** Every key of `Hash[pairs]` is the key of some pair. */
  lemma {:induction false} HashOfKeys<V>(pairs: seq<(string, V)>, k: string, i: nat)
    requires i < |HashOf(pairs)| && HashOf(pairs)[i].0 == k
    ensures exists j :: 0 <= j < |pairs| && pairs[j].0 == k
    decreases |pairs|
  {
    var h := HashOf(pairs);
    assert k in KeySet(h) by { KeyAt(h, i); }
    var init := pairs[..|pairs| - 1];
    if k != pairs[|pairs| - 1].0 {
      var hi := HashOf(init);
      assert k in KeySet(hi);
      var m := KeyIndex(hi, k);
      HashOfKeys(init, k, m);
      var j :| 0 <= j < |init| && init[j].0 == k;
      assert pairs[j] == init[j];
    }
  }

  lemma {:induction false} KeyAt<V>(h: Hash<V>, i: nat)
    requires i < |h|
    ensures h[i].0 in KeySet(h)
  {
    if i > 0 {
      KeyAt(h[1..], i - 1);
    }
  }

  function KeyIndex<V>(h: Hash<V>, k: string): (i: nat)
    requires k in KeySet(h)
    ensures i < |h| && h[i].0 == k
  {
    if h[0].0 == k then 0 else 1 + KeyIndex(h[1..], k)
  }
}
