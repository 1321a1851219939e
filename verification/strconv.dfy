/**
  Go's `strconv.Atoi` and `strconv.Itoa` on 64-bit `int`, as the bot uses them
  to read the record number typed after `/selesai`.
 */
module Strconv {

  const MaxInt64: int := 0x7fff_ffff_ffff_ffff
  const MinInt64: int := -0x8000_0000_0000_0000

  predicate IsDigit(c: char) {
    '0' <= c <= '9'
  }

  /** A non-empty run of decimal digits. */
  predicate AllDigits(s: string) {
    |s| > 0 && forall i :: 0 <= i < |s| ==> IsDigit(s[i])
  }

  /** The value of a digit string, most significant digit first. */
  function DigitsValue(s: string): nat
    requires forall i :: 0 <= i < |s| ==> IsDigit(s[i])
  {
    if |s| == 0 then 0
    else
      assert IsDigit(s[|s| - 1]);
      DigitsValue(s[..|s| - 1]) * 10 + (s[|s| - 1] as int - '0' as int)
  }

  /** Out-of-range results saturate at the bounds of a 64-bit int. */
  function Clamp64(x: int): (r: int)
    ensures MinInt64 <= r <= MaxInt64
    ensures MinInt64 <= x <= MaxInt64 ==> r == x
  {
    if x > MaxInt64 then MaxInt64 else if x < MinInt64 then MinInt64 else x
  }

  const MaxUint64: int := 0xffff_ffff_ffff_ffff

  /** The longest prefix of `s` made of decimal digits. */
  function DigitRun(s: string): (run: string)
    ensures run <= s
    ensures forall i :: 0 <= i < |run| ==> IsDigit(run[i])
    ensures |run| < |s| ==> !IsDigit(s[|run|])
  {
    if |s| == 0 || !IsDigit(s[0]) then "" else [s[0]] + DigitRun(s[1..])
  }

  /** What base-10 `strconv.ParseUint` reports: a value, a syntax error or a range error. */
  datatype Parsed = Value(n: nat) | SyntaxError | RangeError

  /**
    The digit loop of `strconv.ParseUint` with 64-bit width: digits accumulate
    into `acc`, a non-digit is a syntax error, and the first digit that takes
    the value past the uint64 range is a range error at once, whatever follows.
   */
  function ScanDigits(s: string, acc: nat): Parsed
    decreases |s|
  {
    if |s| == 0 then Value(acc)
    else if !IsDigit(s[0]) then SyntaxError
    else
      var next := acc * 10 + (s[0] as int - '0' as int);
      if next > MaxUint64 then RangeError else ScanDigits(s[1..], next)
  }

  /** Base-10 `strconv.ParseUint`: the empty string is a syntax error. */
  function ParseUint(s: string): Parsed
  {
    if s == "" then SyntaxError else ScanDigits(s, 0)
  }

  /**
    `ParseUint` judged by the digit run `s` starts with: a run past the uint64
    range is a range error whatever follows it; otherwise a string that is all
    digits gives its value, and any other string is a syntax error.
   */
  lemma ParseUintByRun(s: string)
    ensures var run := DigitRun(s);
      var p := ParseUint(s);
      && (s == "" ==> p == SyntaxError)
      && (s != "" && DigitsValue(run) > MaxUint64 ==> p == RangeError)
      && (s != "" && DigitsValue(run) <= MaxUint64 && run == s ==> p == Value(DigitsValue(s)))
      && (DigitsValue(run) <= MaxUint64 && run != s ==> p == SyntaxError)
  {
    if s != "" {
      assert s[..0] == "" && s[0..] == s;
      ScanFrom(s, 0);
    }
  }

  /** The verdict `ParseUint` reaches on `s`, judged by the digit run it starts with. */
  function RunVerdict(s: string): Parsed
  {
    var run := DigitRun(s);
    if DigitsValue(run) > MaxUint64 then RangeError
    else if run == s then Value(DigitsValue(s))
    else SyntaxError
  }

  /** An all-digit prefix of `s` lies inside its digit run. */
  lemma DigitRunCovers(s: string, k: nat)
    requires k <= |s|
    requires forall i :: 0 <= i < k ==> IsDigit(s[i])
    ensures k <= |DigitRun(s)|
    ensures DigitRun(s)[..k] == s[..k]
  {
  }

  /** A digit string's value does not shrink as digits are added at the end. */
  lemma {:induction false} DigitsValuePrefix(t: string, j: nat)
    requires forall i :: 0 <= i < |t| ==> IsDigit(t[i])
    requires j <= |t|
    ensures DigitsValue(t[..j]) <= DigitsValue(t)
    decreases |t|
  {
    if j < |t| {
      var u := t[..|t| - 1];
      assert u[..j] == t[..j];
      DigitsValuePrefix(u, j);
    } else {
      assert t[..j] == t;
    }
  }

  /**
    Resuming the `ParseUint` loop after an in-range all-digit prefix of length
    `k` ends in the verdict the digit run predicts.
   */
  lemma {:induction false} ScanFrom(s: string, k: nat)
    requires k <= |s|
    requires forall i :: 0 <= i < k ==> IsDigit(s[i])
    requires DigitsValue(s[..k]) <= MaxUint64
    ensures ScanDigits(s[k..], DigitsValue(s[..k])) == RunVerdict(s)
    decreases |s| - k
  {
    var run := DigitRun(s);
    DigitRunCovers(s, k);
    if k == |s| {
      assert s[..k] == s;
      assert run == s;
    } else if !IsDigit(s[k]) {
      assert run == s[..k];
      assert run != s by {
        assert |run| < |s|;
      }
    } else {
      var acc := DigitsValue(s[..k]);
      var next := acc * 10 + (s[k] as int - '0' as int);
      assert s[..k + 1][..k] == s[..k];
      assert DigitsValue(s[..k + 1]) == next;
      assert s[k..][1..] == s[k + 1..];
      if next > MaxUint64 {
        DigitRunCovers(s, k + 1);
        assert run[..k + 1] == s[..k + 1];
        DigitsValuePrefix(run, k + 1);
      } else {
        ScanFrom(s, k + 1);
      }
    }
  }

  /** Whether `s` starts with a sign character that `ParseInt` strips. */
  predicate Signed(s: string) {
    |s| > 0 && (s[0] == '+' || s[0] == '-')
  }

  /**
    `strconv.Atoi` as the bot consumes it (the error is dropped), on 64-bit
    `int`. The fast path Go takes for short strings gives the same results as
    `ParseInt`, which strips one sign and parses the rest with `ParseUint`: a
    syntax error gives 0, and a value past the int64 range, or a range error,
    gives the bound on the side of the sign.
   */
  function Atoi(s: string): (r: int)
    ensures MinInt64 <= r <= MaxInt64
  {
    var neg := Signed(s) && s[0] == '-';
    var body := if Signed(s) then s[1..] else s;
    match ParseUint(body)
    case SyntaxError => 0
    case RangeError => if neg then MinInt64 else MaxInt64
    case Value(u) => Clamp64(if neg then -(u as int) else u)
  }

  /**
    What `Atoi` reads, in terms of the digit run after the optional sign: a run
    past the uint64 range saturates on the side of the sign even when other
    characters follow it; otherwise anything but a non-empty run of digits
    reads as 0, and a run of digits reads as its signed value, saturated.
   */
  lemma AtoiOfRun(s: string)
    ensures var neg := Signed(s) && s[0] == '-';
      var body := if Signed(s) then s[1..] else s;
      var run := DigitRun(body);
      var r := Atoi(s);
      && (DigitsValue(run) > MaxUint64 ==> r == if neg then MinInt64 else MaxInt64)
      && (DigitsValue(run) <= MaxUint64 && (run != body || body == "") ==> r == 0)
      && (run == body != "" ==> r == Clamp64(if neg then -(DigitsValue(body) as int) else DigitsValue(body)))
  {
    ParseUintByRun(if Signed(s) then s[1..] else s);
  }

  /** An unsigned numeral in the int64 range reads as its value. */
  lemma AtoiOfDigits(s: string)
    requires AllDigits(s) && DigitsValue(s) <= MaxInt64
    ensures Atoi(s) == DigitsValue(s)
  {
    DigitRunCovers(s, |s|);
    AtoiOfRun(s);
  }

  /** Go's `x--` on a 64-bit int: the least value wraps round to the greatest. */
  function Decrement64(x: int): (r: int)
    requires MinInt64 <= x <= MaxInt64
    ensures MinInt64 <= r <= MaxInt64
    ensures x > MinInt64 ==> r == x - 1
    ensures x == MinInt64 ==> r == MaxInt64
  {
    if x == MinInt64 then MaxInt64 else x - 1
  }

  function DigitChar(n: nat): (c: char)
    requires n < 10
    ensures IsDigit(c) && c as int - '0' as int == n
  {
    ('0' as int + n) as char
  }

  /** The decimal digits of `n`, without leading zeros. */
  function NatDigits(n: nat): (s: string)
    ensures AllDigits(s)
    ensures s[0] == '0' ==> n == 0
  {
    if n < 10 then [DigitChar(n)] else NatDigits(n / 10) + [DigitChar(n % 10)]
  }

  /** `strconv.Itoa`. */
  function Itoa(n: int): string
  {
    if n < 0 then "-" + NatDigits(-n) else NatDigits(n)
  }

  lemma {:induction false} DigitsRoundTrip(n: nat)
    ensures DigitsValue(NatDigits(n)) == n
  {
    if n >= 10 {
      var s := NatDigits(n);
      assert s[..|s| - 1] == NatDigits(n / 10);
      DigitsRoundTrip(n / 10);
    }
  }

  /** Reading back what `Itoa` writes gives the number, across the whole 64-bit range. */
  lemma AtoiItoa(n: int)
    requires MinInt64 <= n <= MaxInt64
    ensures Atoi(Itoa(n)) == n
  {
    var s := Itoa(n);
    var body := if n < 0 then NatDigits(-n) else NatDigits(n);
    DigitsRoundTrip(if n < 0 then -n else n);
    assert Signed(s) <==> n < 0;
    assert (if Signed(s) then s[1..] else s) == body;
    DigitRunCovers(body, |body|);
    assert DigitRun(body) == body;
    AtoiOfRun(s);
  }
}
