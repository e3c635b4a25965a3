// The command-line front end of build.rb: every argument is scanned with
// `/--?([^=\s]+)(?:=(\S+))?/`, the first match gives a key and an optional
// raw value, the raw value is classified (Integer, true/false, Array,
// true for a bare key, or the string itself), and the pairs are gathered
// into a Hash. Leftover options are later turned back into compiler flags.
module BuildArgs {
  import opened Wrappers
  import opened Strings

  /** The Ruby values an option can take after classification. */
  datatype Value = IntVal(n: nat) | BoolVal(b: bool) | ListVal(items: seq<string>) | StrVal(s: string)

  /** One match of the option pattern: the key, the optional `=value`, and where the match ends. */
  datatype Token = Token(key: string, raw: Option<string>, end: nat)

  /** `[^=\s]`: a character allowed in a key. */
  predicate KeyChar(c: char) { c != '=' && !IsSpace(c) }

  /** End of the maximal run of key characters starting at `i`. */
  function KeyEnd(s: string, i: nat): (e: nat)
    requires i <= |s|
    ensures i <= e <= |s|
    ensures forall k :: i <= k < e ==> KeyChar(s[k])
    ensures e == |s| || !KeyChar(s[e])
    decreases |s| - i
  {
    if i < |s| && KeyChar(s[i]) then KeyEnd(s, i + 1) else i
  }

  /** End of the maximal run of non-space characters starting at `i` (`\S+`). */
  function ValueEnd(s: string, i: nat): (e: nat)
    requires i <= |s|
    ensures i <= e <= |s|
    ensures forall k :: i <= k < e ==> !IsSpace(s[k])
    ensures e == |s| || IsSpace(s[e])
    decreases |s| - i
  {
    if i < |s| && !IsSpace(s[i]) then ValueEnd(s, i + 1) else i
  }

  /**
   * The pattern tried at position `i`. `--?` first tries two dashes; the
   * key `[^=\s]+` is greedy and the `=value` group is optional, so the
   * first alternative that finds a key character wins.
   */
  function MatchAt(s: string, i: nat): (t: Option<Token>)
    requires i <= |s|
    ensures t.Some? <==> i + 1 < |s| && s[i] == '-' && KeyChar(s[i + 1])
    ensures t.Some? ==> i < t.value.end <= |s|
    ensures t.Some? ==> |t.value.key| > 0 && forall k :: 0 <= k < |t.value.key| ==> KeyChar(t.value.key[k])
    ensures t.Some? && t.value.raw.Some? ==> |t.value.raw.value| > 0
  {
    if i + 1 < |s| && s[i] == '-' && KeyChar(s[i + 1]) then
      var ks := if s[i + 1] == '-' && i + 2 < |s| && KeyChar(s[i + 2]) then i + 2 else i + 1;
      var ke := KeyEnd(s, ks);
      if ke + 1 < |s| && s[ke] == '=' && !IsSpace(s[ke + 1]) then
        var ve := ValueEnd(s, ke + 1);
        Some(Token(s[ks..ke], Some(s[ke + 1..ve]), ve))
      else
        Some(Token(s[ks..ke], None, ke))
    else
      None
  }

  /** The leftmost match at or after `from`; `None` when the pattern does not occur. */
  function FirstMatch(s: string, from: nat): (t: Option<Token>)
    requires from <= |s|
    ensures t.Some? ==> from < t.value.end <= |s|
    ensures t.None? ==> forall i :: from <= i < |s| ==> MatchAt(s, i).None?
    decreases |s| - from
  {
    if from == |s| then None
    else match MatchAt(s, from)
      case Some(t) => Some(t)
      case None => FirstMatch(s, from + 1)
  }

  /** The leftmost match is a match at some position. */
  lemma {:induction false} FirstMatchIsMatch(s: string, from: nat)
    requires from <= |s|
    ensures FirstMatch(s, from).Some? ==> exists i :: from <= i < |s| && MatchAt(s, i) == FirstMatch(s, from)
    decreases |s| - from
  {
    if from < |s| && MatchAt(s, from).None? {
      FirstMatchIsMatch(s, from + 1);
    }
  }

  /** build.rb:61-74: classification of the raw value of an option. */
  function Classify(raw: Option<string>): Value {
    match raw
    case None => BoolVal(true)
    case Some(v) =>
      if AllDigits(v) then IntVal(DecimalValue(v))
      else if v == "true" || v == "True" then BoolVal(true)
      else if v == "false" || v == "False" then BoolVal(false)
      else if HasChar(v, ',') then ListVal(Split(v, ','))
      else StrVal(v)
  }

  /** Why an argument cannot be read: no `-key` anywhere in it (`k` is nil and `k[1]` raises). */
  datatype ArgError = NoOption(arg: string)

  datatype Parsed<T> = Ok(value: T) | Fail(error: ArgError)

  /** build.rb:60-75 for one argument. */
  /**
   * build.rb:60-75 for one argument: rejected exactly when no dash in it
   * is followed by a key character, and otherwise read as a non-empty key
   * of key characters (what the values read as is stated by
   * `ParseKeyValue`, `ParseBareKey` and the `Classify` lemmas).
   */
  function ParseArg(s: string): (r: Parsed<(string, Value)>)
    ensures r.Fail? <==> NoDashKey(s)
    ensures r.Ok? ==> |r.value.0| > 0 && forall k :: 0 <= k < |r.value.0| ==> KeyChar(r.value.0[k])
  {
    match FirstMatch(s, 0)
    case None =>
      assert NoDashKey(s) by {
        forall i | 0 <= i < |s| - 1 ensures !(s[i] == '-' && KeyChar(s[i + 1])) {
          assert MatchAt(s, i).None?;
        }
      }
      Fail(NoOption(s))
    case Some(t) =>
      FirstMatchIsMatch(s, 0);
      var i :| 0 <= i < |s| && MatchAt(s, i) == Some(t);
      assert !NoDashKey(s) by {
        assert s[i] == '-' && KeyChar(s[i + 1]);
      }
      Ok((t.key, Classify(t.raw)))
  }

  /** No dash of `s` is followed by a key character, so the option pattern cannot match. */
  predicate NoDashKey(s: string) {
    forall i :: 0 <= i < |s| - 1 ==> !(s[i] == '-' && KeyChar(s[i + 1]))
  }

  /** A Ruby Hash with String keys: entries in first-insertion order. */
  type Hash<V> = seq<(string, V)>

  /** The Hash of options. */
  type Args = Hash<Value>

  function KeySet<V>(a: Hash<V>): set<string> {
    if a == [] then {} else {a[0].0} + KeySet(a[1..])
  }

  predicate KeysDistinct<V>(a: Hash<V>) {
    a == [] || (a[0].0 !in KeySet(a[1..]) && KeysDistinct(a[1..]))
  }

  /** `Hash[pairs]`: a repeated key keeps its first position and takes the last value. */
  function Store<V>(a: Hash<V>, k: string, v: V): (r: Hash<V>)
    requires KeysDistinct(a)
    ensures KeysDistinct(r) && KeySet(r) == KeySet(a) + {k}
    ensures |r| == if k in KeySet(a) then |a| else |a| + 1
    ensures k !in KeySet(a) ==> r == a + [(k, v)]
  {
    if a == [] then [(k, v)]
    else if a[0].0 == k then [(k, v)] + a[1..]
    else
      var r := [a[0]] + Store(a[1..], k, v);
      assert r[1..] == Store(a[1..], k, v);
      r
  }

  /** The value a key maps to, if present. */
  function Lookup<V>(a: Hash<V>, k: string): (v: Option<V>)
    ensures v.Some? <==> k in KeySet(a)
  {
    if a == [] then None
    else if a[0].0 == k then Some(a[0].1)
    else Lookup(a[1..], k)
  }

  /** `$args.reject! { |k, v| k == key }`. */
  function Reject<V>(a: Hash<V>, key: string): (r: Hash<V>)
    requires KeysDistinct(a)
    ensures KeysDistinct(r) && KeySet(r) == KeySet(a) - {key}
    ensures forall k :: k != key ==> Lookup(r, k) == Lookup(a, k)
  {
    if a == [] then []
    else if a[0].0 == key then Reject(a[1..], key)
    else
      var r := [a[0]] + Reject(a[1..], key);
      assert r[1..] == Reject(a[1..], key);
      r
  }

  /** `Hash[pairs]`: each pair stored in turn. */
  function HashOf<V>(pairs: seq<(string, V)>): (r: Hash<V>)
    ensures KeysDistinct(r)
    decreases |pairs|
  {
    if pairs == [] then [] else Store(HashOf(pairs[..|pairs| - 1]), pairs[|pairs| - 1].0, pairs[|pairs| - 1].1)
  }

  /** The value of the last pair with key `k`, if any. */
  function LastValue<V>(pairs: seq<(string, V)>, k: string): Option<V>
    decreases |pairs|
  {
    if pairs == [] then None
    else if pairs[|pairs| - 1].0 == k then Some(pairs[|pairs| - 1].1)
    else LastValue(pairs[..|pairs| - 1], k)
  }

  /** In `Hash[pairs]` a repeated key ends up with the value of its last pair. */
  lemma {:induction false} HashOfLookup<V>(pairs: seq<(string, V)>, k: string)
    ensures Lookup(HashOf(pairs), k) == LastValue(pairs, k)
    decreases |pairs|
  {
    if pairs != [] {
      var init := pairs[..|pairs| - 1];
      HashOfLookup(init, k);
      StoreThenLookup(HashOf(init), pairs[|pairs| - 1].0, pairs[|pairs| - 1].1, k);
    }
  }

  /** build.rb:59-76: the whole argument vector, or the first argument that has no option in it. */
  function ParseArgs(argv: seq<string>): (r: Parsed<Args>)
    ensures r.Ok? ==> KeysDistinct(r.value)
    ensures r.Ok? <==> forall i :: 0 <= i < |argv| ==> ParseArg(argv[i]).Ok?
    decreases |argv|
  {
    if argv == [] then Ok([])
    else match ParseArgs(argv[..|argv| - 1])
      case Fail(e) => Fail(e)
      case Ok(a) =>
        match ParseArg(argv[|argv| - 1])
        case Fail(e) => Fail(e)
        case Ok(kv) => Ok(Store(a, kv.0, kv.1))
  }

  /** build.rb:214-223: the compiler flag an unrecognised option turns into. */
  function Flag(k: string, v: Value): string {
    match v
    case StrVal(s) => "-" + k + "=" + s
    case ListVal(items) => "-" + k + "=" + Join(items, ",")
    case _ => "-" + k
  }

  /**
   * The flags of the leftover options, one per option in order; each
   * flag of a plain key reads back. A string becomes `-k=v` and reads back
   * as `v` classified, a list becomes `-k=v1,v2,…` and reads back as the
   * same list, and a Boolean or an Integer becomes the bare `-k`, which
   * reads back as true (so a false option turns into a flag that sets it).
   */
  function Flags(a: Args): (r: seq<string>)
    ensures |r| == |a|
    ensures forall i :: 0 <= i < |a| && PlainKey(a[i].0) && a[i].1.StrVal? && PlainValue(a[i].1.s) ==>
      ParseArg(r[i]) == Ok((a[i].0, Classify(Some(a[i].1.s))))
    ensures forall i :: 0 <= i < |a| && PlainKey(a[i].0) && a[i].1.ListVal? && CleanItems(a[i].1.items) ==>
      ParseArg(r[i]) == Ok((a[i].0, a[i].1))
    ensures forall i :: 0 <= i < |a| && PlainKey(a[i].0) && (a[i].1.BoolVal? || a[i].1.IntVal?) ==>
      ParseArg(r[i]) == Ok((a[i].0, BoolVal(true)))
  {
    FlagsReadBack(a);
    seq(|a|, i requires 0 <= i < |a| => Flag(a[i].0, a[i].1))
  }

  /** List items that `-k=v1,v2,…` can carry unchanged: at least two, each plain and comma-free. */
  predicate CleanItems(items: seq<string>) {
    |items| >= 2 && forall i :: 0 <= i < |items| ==> PlainValue(items[i]) && !HasChar(items[i], ',')
  }

  /** Each option's flag, for a plain key, reads back as `Flags` says. */
  lemma FlagsReadBack(a: Args)
    ensures forall i :: 0 <= i < |a| && PlainKey(a[i].0) && a[i].1.StrVal? && PlainValue(a[i].1.s) ==>
      ParseArg(Flag(a[i].0, a[i].1)) == Ok((a[i].0, Classify(Some(a[i].1.s))))
    ensures forall i :: 0 <= i < |a| && PlainKey(a[i].0) && a[i].1.ListVal? && CleanItems(a[i].1.items) ==>
      ParseArg(Flag(a[i].0, a[i].1)) == Ok((a[i].0, a[i].1))
    ensures forall i :: 0 <= i < |a| && PlainKey(a[i].0) && (a[i].1.BoolVal? || a[i].1.IntVal?) ==>
      ParseArg(Flag(a[i].0, a[i].1)) == Ok((a[i].0, BoolVal(true)))
  {
    forall i | 0 <= i < |a| && PlainKey(a[i].0)
      ensures a[i].1.StrVal? && PlainValue(a[i].1.s) ==> ParseArg(Flag(a[i].0, a[i].1)) == Ok((a[i].0, Classify(Some(a[i].1.s))))
      ensures a[i].1.ListVal? && CleanItems(a[i].1.items) ==> ParseArg(Flag(a[i].0, a[i].1)) == Ok((a[i].0, a[i].1))
      ensures a[i].1.BoolVal? || a[i].1.IntVal? ==> ParseArg(Flag(a[i].0, a[i].1)) == Ok((a[i].0, BoolVal(true)))
    {
      var (k, v) := a[i];
      match v
      case StrVal(x) =>
        if PlainValue(x) {
          ParseKeyValue(k, x, "-");
        }
      case ListVal(items) =>
        if CleanItems(items) {
          ListFlagRoundTrip(k, items);
        }
      case _ =>
        ParseBareKey(k, "-");
        assert Flag(k, v) == "-" + k;
    }
  }

  // ---- Properties of the tokenizer and the classification ----

  /** A key made of key characters that does not start with a dash. */
  predicate PlainKey(k: string) {
    |k| > 0 && k[0] != '-' && forall i :: 0 <= i < |k| ==> KeyChar(k[i])
  }

  predicate PlainValue(v: string) {
    |v| > 0 && forall i :: 0 <= i < |v| ==> !IsSpace(v[i])
  }

  /** `-key=value` and `--key=value` both read back as that key and value. */
  lemma {:induction false} ParseKeyValue(k: string, v: string, dashes: string)
    requires PlainKey(k) && PlainValue(v)
    requires dashes == "-" || dashes == "--"
    ensures ParseArg(dashes + k + "=" + v) == Ok((k, Classify(Some(v))))
  {
    var s := dashes + k + "=" + v;
    var d := |dashes|;
    var e := d + |k|;
    assert s[..e] == dashes + k && s[e..] == "=" + v;
    assert s[e + 1..] == v;
    assert s[d..e] == k;
    assert s[e] == '=';
    assert forall j :: e + 1 <= j < |s| ==> !IsSpace(s[j]) by {
      forall j | e + 1 <= j < |s| ensures !IsSpace(s[j]) { assert s[j] == s[e + 1..][j - e - 1] == v[j - e - 1]; }
    }
    ValueEndAt(s, e + 1, |s|);
    MatchAtStart(s, d, e);
    assert s[e + 1..|s|] == v;
  }

  /** A bare `-key` or `--key` reads back as the key set to true. */
  lemma {:induction false} ParseBareKey(k: string, dashes: string)
    requires PlainKey(k)
    requires dashes == "-" || dashes == "--"
    ensures ParseArg(dashes + k) == Ok((k, BoolVal(true)))
  {
    var s := dashes + k;
    var d := |dashes|;
    assert s[d..] == k;
    assert s[d..|s|] == k;
    MatchAtStart(s, d, |s|);
  }

  /** The match at the start of an argument that begins with one or two dashes and a plain key. */
  lemma {:induction false} MatchAtStart(s: string, d: nat, e: nat)
    requires d == 1 || d == 2
    requires d < e <= |s| && s[0] == '-' && (d == 2 ==> s[1] == '-')
    requires forall j :: 0 <= j < e - d ==> s[d..e][j] == s[d + j]
    requires PlainKey(s[d..e])
    requires e == |s| || !KeyChar(s[e])
    ensures FirstMatch(s, 0) == MatchAt(s, 0)
    ensures MatchAt(s, 0).Some? && MatchAt(s, 0).value.key == s[d..e]
    ensures e + 1 < |s| && s[e] == '=' && !IsSpace(s[e + 1]) ==>
      MatchAt(s, 0).value.raw == Some(s[e + 1..ValueEnd(s, e + 1)])
    ensures !(e + 1 < |s| && s[e] == '=' && !IsSpace(s[e + 1])) ==> MatchAt(s, 0).value.raw == None
  {
    var key := s[d..e];
    assert s[d] == key[0];
    assert forall j :: d <= j < e ==> KeyChar(s[j]) by {
      forall j | d <= j < e ensures KeyChar(s[j]) { assert s[j] == key[j - d]; }
    }
    KeyEndAt(s, d, e);
  }

  lemma {:induction false} KeyEndAt(s: string, i: nat, e: nat)
    requires i <= e <= |s|
    requires forall k :: i <= k < e ==> KeyChar(s[k])
    requires e == |s| || !KeyChar(s[e])
    ensures KeyEnd(s, i) == e
    decreases e - i
  {
    if i < e { KeyEndAt(s, i + 1, e); }
  }

  lemma {:induction false} ValueEndAt(s: string, i: nat, e: nat)
    requires i <= e <= |s|
    requires forall k :: i <= k < e ==> !IsSpace(s[k])
    requires e == |s| || IsSpace(s[e])
    ensures ValueEnd(s, i) == e
    decreases e - i
  {
    if i < e { ValueEndAt(s, i + 1, e); }
  }

  /** An argument whose only dashes are not followed by key characters is rejected. */
  lemma NoDashNoOption(s: string)
    requires forall i :: 0 <= i < |s| ==> s[i] != '-'
    ensures ParseArg(s).Fail?
  {
    assert forall i :: 0 <= i < |s| ==> MatchAt(s, i).None?;
    FirstMatchNone(s, 0);
  }

  lemma {:induction false} FirstMatchNone(s: string, from: nat)
    requires from <= |s|
    requires forall i :: from <= i < |s| ==> MatchAt(s, i).None?
    ensures FirstMatch(s, from).None?
    decreases |s| - from
  {
    if from < |s| { FirstMatchNone(s, from + 1); }
  }

  /** Each branch of the classification, read off the printed form of the value. */
  lemma ClassifyInteger(n: nat)
    ensures Classify(Some(NatToString(n))) == IntVal(n)
  {
    NatToStringValue(n);
  }

  lemma ClassifyBooleans()
    ensures Classify(Some("true")) == BoolVal(true) && Classify(Some("True")) == BoolVal(true)
    ensures Classify(Some("false")) == BoolVal(false) && Classify(Some("False")) == BoolVal(false)
    ensures Classify(None) == BoolVal(true)
  {
    assert !IsDigit('t') && !IsDigit('T') && !IsDigit('f') && !IsDigit('F');
  }

  /** A comma-joined list of comma-free, non-empty fields is read back as that list. */
  lemma {:induction false} ClassifyList(items: seq<string>)
    requires |items| >= 2
    requires forall i :: 0 <= i < |items| ==> items[i] != "" && !HasChar(items[i], ',')
    ensures Classify(Some(Join(items, ","))) == ListVal(items)
  {
    var v := Join(items, ",");
    assert v == items[0] + "," + Join(items[1..], ",");
    var c := |items[0]|;
    assert v[c] == ',';
    assert HasChar(v, ',');
    assert !AllDigits(v) by { assert !IsDigit(v[c]); }
    NoCommaWord(v, c, "true");
    NoCommaWord(v, c, "True");
    NoCommaWord(v, c, "false");
    NoCommaWord(v, c, "False");
    assert Classify(Some(v)) == ListVal(Split(v, ','));
    FieldsOfJoin(items, ',');
    assert Split(v, ',') == DropTrailingEmpty(items);
    assert items[|items| - 1] != "";
  }

  lemma NoCommaWord(v: string, c: nat, w: string)
    requires c < |v| && v[c] == ','
    requires forall i :: 0 <= i < |w| ==> w[i] != ','
    ensures v != w
  {
  }

  /** A value that is neither digits, a boolean word nor comma-bearing stays a string. */
  lemma ClassifyString(v: string)
    requires !AllDigits(v) && !HasChar(v, ',')
    requires v != "true" && v != "True" && v != "false" && v != "False"
    ensures Classify(Some(v)) == StrVal(v)
  {
  }

  /** A repeated key keeps one entry holding the last value given for it. */
  lemma {:induction false} StoreThenLookup<V>(a: Hash<V>, k: string, v: V, k2: string)
    requires KeysDistinct(a)
    ensures Lookup(Store(a, k, v), k2) == if k2 == k then Some(v) else Lookup(a, k2)
  {
    if a != [] && a[0].0 != k {
      StoreThenLookup(a[1..], k, v, k2);
      assert Store(a, k, v)[1..] == Store(a[1..], k, v);
    }
  }

  /** A list-valued option becomes `-k=v1,v2,...`, which re-reads as the same list. */
  lemma {:induction false} ListFlagRoundTrip(k: string, items: seq<string>)
    requires PlainKey(k)
    requires |items| >= 2
    requires forall i :: 0 <= i < |items| ==> PlainValue(items[i]) && !HasChar(items[i], ',')
    ensures ParseArg(Flag(k, ListVal(items))) == Ok((k, ListVal(items)))
  {
    var v := Join(items, ",");
    JoinPlain(items);
    assert Flag(k, ListVal(items)) == "-" + k + "=" + v;
    ParseKeyValue(k, v, "-");
    ClassifyList(items);
  }

  lemma {:induction false} JoinPlain(items: seq<string>)
    requires |items| >= 1
    requires forall i :: 0 <= i < |items| ==> PlainValue(items[i])
    ensures PlainValue(Join(items, ","))
  {
    if |items| > 1 {
      JoinPlain(items[1..]);
      var rest := Join(items[1..], ",");
      assert Join(items, ",") == items[0] + "," + rest;
      forall i | 0 <= i < |items[0] + "," + rest| ensures !IsSpace((items[0] + "," + rest)[i]) {
        if i < |items[0]| {
        } else if i == |items[0]| {
        } else {
          assert (items[0] + "," + rest)[i] == rest[i - |items[0]| - 1];
        }
      }
    }
  }
}
