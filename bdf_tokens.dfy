// The tokens of a BDF line as extra/graphics_bdf.c reads them: the 32-bit
// fields of `rect_t`, the case-insensitive keyword test, `atoi` and the
// hexadecimal digits of a bitmap row read by `htoi`.
module BdfTokens {
  // ---------------------------------------------------------------------
  // 32-bit fields.

  const Word: int := 0x1_0000_0000

  /** An `unsigned int`. */
  type U32 = x: int | 0 <= x < 0x1_0000_0000

  /** An `int` stored in an `unsigned int` field: its value modulo 2^32. */
  function Unsigned(v: int): (r: U32)
    ensures 0 <= v < Word ==> r == v
    ensures -Word <= v < 0 ==> r == v + Word
  {
    v % Word
  }

  /** An `unsigned int` assigned to an `int`: the two's-complement reading of its bits. */
  function AsInt(v: U32): (r: int)
    ensures -0x8000_0000 <= r < 0x8000_0000 && Unsigned(r) == v
  {
    if v < 0x8000_0000 then v else v - Word
  }

  /** `rect_t` of graphics.h. */
  datatype Rect = Rect(x: U32, y: U32, w: U32, h: U32)

  const Zero: Rect := Rect(0, 0, 0, 0)

  // ---------------------------------------------------------------------
  // Tokens.

  /** The tokens of one line, as `strtok(buf, " \t\n\r")` and its successors return them. */
  type Line = seq<string>

  function Lower(c: char): char {
    if 'A' <= c <= 'Z' then (c as int + 32) as char else c
  }

  /** `!strcasecmp(tok, kw)`: equal up to the case of ASCII letters. */
  predicate Is(tok: string, kw: string) {
    |tok| == |kw| && forall i :: 0 <= i < |tok| ==> Lower(tok[i]) == Lower(kw[i])
  }

  /** Comparison ignores case both ways, as `strcasecmp` does. */
  lemma IsIgnoresCase(tok: string, kw: string)
    requires |tok| == |kw| && forall i :: 0 <= i < |tok| ==> tok[i] == kw[i] || Lower(tok[i]) == kw[i] || tok[i] == Lower(kw[i])
    ensures Is(tok, kw)
  {
    forall i | 0 <= i < |tok|
      ensures Lower(tok[i]) == Lower(kw[i])
    {
    }
  }

  predicate IsDigit(c: char) { '0' <= c <= '9' }

  /** The length of the run of decimal digits at the start of `t`. */
  function DigitRun(t: string): (n: nat)
    ensures n <= |t| && forall i :: 0 <= i < n ==> IsDigit(t[i])
    ensures n < |t| ==> !IsDigit(t[n])
  {
    if |t| == 0 || !IsDigit(t[0]) then 0 else 1 + DigitRun(t[1..])
  }

  /** The value of the first `n` characters of `t`, read as decimal digits. */
  function DecimalValue(t: string, n: nat): (v: nat)
    requires n <= |t| && forall i :: 0 <= i < n ==> IsDigit(t[i])
  {
    if n == 0 then 0 else
      assert IsDigit(t[n - 1]);
      DecimalValue(t, n - 1) * 10 + (t[n - 1] as int - '0' as int)
  }

  /**
   * `atoi(tok)`: an optional sign, then the value of the digits that
   * follow it, up to the first character that is not one. Overflow is
   * not modelled.
   */
  function Atoi(tok: string): int {
    var signed := |tok| > 0 && (tok[0] == '-' || tok[0] == '+');
    var body := if signed then tok[1..] else tok;
    var v: int := DecimalValue(body, DigitRun(body));
    if |tok| > 0 && tok[0] == '-' then -v else v
  }

  /** `BDF_READ_INT`: the number in token `i` of the line; a missing token, which C hands to `atoi` as NULL, reads as 0. */
  function Arg(line: Line, i: nat): int {
    if i < |line| then Atoi(line[i]) else 0
  }

  /** The decimal digits of `n`, most significant first, as `printf("%u")` writes them. */
  function Decimal(n: nat): (t: string)
    ensures 1 <= |t| && forall i :: 0 <= i < |t| ==> IsDigit(t[i])
    decreases n
  {
    var d := ((n % 10) + '0' as int) as char;
    if n < 10 then [d] else Decimal(n / 10) + [d]
  }

  /** `DecimalValue` reads only the first `n` characters. */
  lemma {:induction false} DecimalValuePrefix(t: string, u: string, n: nat)
    requires n <= |t| && n <= |u| && t[..n] == u[..n] && forall i :: 0 <= i < n ==> IsDigit(t[i])
    ensures DecimalValue(t, n) == DecimalValue(u, n)
  {
    if n > 0 {
      assert t[n - 1] == t[..n][n - 1] == u[..n][n - 1] == u[n - 1];
      assert t[..n - 1] == t[..n][..n - 1] && u[..n - 1] == u[..n][..n - 1];
      DecimalValuePrefix(t, u, n - 1);
    }
  }

  /** A string of digits is one digit run. */
  lemma {:induction false} DigitRunAll(t: string)
    requires forall i :: 0 <= i < |t| ==> IsDigit(t[i])
    ensures DigitRun(t) == |t|
  {
    if |t| > 0 {
      DigitRunAll(t[1..]);
    }
  }

  /** The digits of `n` read back as `n`. */
  lemma {:induction false} DecimalValueOfDecimal(n: nat)
    ensures DecimalValue(Decimal(n), |Decimal(n)|) == n
    decreases n
  {
    if n >= 10 {
      var p := Decimal(n / 10);
      var t := Decimal(n);
      assert t == p + [((n % 10) + '0' as int) as char];
      assert t[..|p|] == p[..|p|];
      DecimalValuePrefix(t, p, |p|);
      DecimalValueOfDecimal(n / 10);
    }
  }

  /** `atoi` inverts the decimal writing of every integer, negative ones with their `-`. */
  lemma AtoiOfDecimal(v: int)
    ensures Atoi(if v < 0 then "-" + Decimal(-v) else Decimal(v)) == v
  {
    var n: nat := if v < 0 then -v else v;
    var t := Decimal(n);
    DigitRunAll(t);
    DecimalValueOfDecimal(n);
    if v < 0 {
      assert ("-" + t)[1..] == t;
    }
  }

  // ---------------------------------------------------------------------
  // htoi.

  /**
   * `htoi(p)` (extra/graphics_bdf.c:45-47) as written: anything up to
   * '9' counts from '0', anything up to 'F' from 'A', the rest from 'a'.
   * Only the hex digits give a nibble.
   */
  function Htoi(c: char): int {
    if c <= '9' then c as int - '0' as int
    else if c <= 'F' then c as int - 'A' as int + 10
    else c as int - 'a' as int + 10
  }

  const UpperHex: string := "0123456789ABCDEF"
  const LowerHex: string := "0123456789abcdef"

  /** Every hex digit, in either case, maps to its position in the list of digits. */
  lemma HtoiHex(k: int)
    requires 0 <= k < 16
    ensures Htoi(UpperHex[k]) == k && Htoi(LowerHex[k]) == k
  {
  }

  /** The low byte of an `int`, as an `unsigned char` store keeps it. */
  function Low8(v: int): bv8 {
    (v % 256) as bv8
  }

  /**
   * Two characters of a bitmap row, `htoi(p + 1) | htoi(p) * 16`, stored
   * in an `unsigned char`: the low byte of an `|` is the `|` of the low
   * bytes.
   */
  function Pair(c0: char, c1: char): bv8 {
    (Low8(Htoi(c0)) << 4) | Low8(Htoi(c1))
  }

  lemma NibbleByte(a: bv8, b: bv8)
    requires a < 16 && b < 16
    ensures ((a << 4) | b) as int == a as int * 16 + b as int
  {
  }

  lemma Low8Small(v: int)
    requires 0 <= v < 16
    ensures Low8(v) as int == v
  {
    var b := v as bv8;
    assert b as int == v;
  }

  /** Two characters that are hex digits make the byte of their two nibbles. */
  lemma PairOfNibbles(c0: char, c1: char)
    requires 0 <= Htoi(c0) < 16 && 0 <= Htoi(c1) < 16
    ensures Pair(c0, c1) as int == 16 * Htoi(c0) + Htoi(c1)
  {
    Low8Small(Htoi(c0));
    Low8Small(Htoi(c1));
    NibbleByte(Low8(Htoi(c0)), Low8(Htoi(c1)));
  }

  /** Two hex digits make the byte they write. */
  lemma PairHex(k0: int, k1: int)
    requires 0 <= k0 < 16 && 0 <= k1 < 16
    ensures Pair(UpperHex[k0], UpperHex[k1]) as int == 16 * k0 + k1
    ensures Pair(LowerHex[k0], LowerHex[k1]) as int == 16 * k0 + k1
  {
    HtoiHex(k0);
    HtoiHex(k1);
    PairOfNibbles(UpperHex[k0], UpperHex[k1]);
    PairOfNibbles(LowerHex[k0], LowerHex[k1]);
  }
}
