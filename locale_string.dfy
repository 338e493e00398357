/**
 * `toLocaleString` (src/helpers/toLocaleString.ts) over exact decimals: an optional
 * floor truncation, `toFixed(digits)` or, for values below 1 in magnitude,
 * `toPrecision(digits)`, digit grouping of the integer part with the regular
 * expression `\B(?=(\d{3})+(?!\d))`, and removal of trailing fraction zeros with
 * `/\.?0+$/`. BigNumber rounds half away from zero (its default `ROUND_HALF_UP`).
 */
module LocaleString {
  import opened JsValues

  // ---------------------------------------------------------------------------
  // Exact decimals

  /** The value `mant / 10^scale`. */
  datatype Decimal = Decimal(mant: int, scale: nat)

  /** What `new BigNumber(value)` holds: a finite decimal, or NaN / ±Infinity. */
  datatype BigNum = Finite(d: Decimal) | NotFinite

  function Pow10(k: nat): (p: nat)
    ensures p >= 1
  {
    if k == 0 then 1 else 10 * Pow10(k - 1)
  }

  lemma {:induction false} Pow10Add(a: nat, b: nat)
    ensures Pow10(a + b) == Pow10(a) * Pow10(b)
  {
    if a > 0 {
      Pow10Add(a - 1, b);
      assert Pow10(a + b) == 10 * Pow10(a - 1 + b);
    }
  }

  lemma {:induction false} Pow10Monotonic(a: nat, b: nat)
    requires a <= b
    ensures Pow10(a) <= Pow10(b)
  {
    if a < b { Pow10Monotonic(a, b - 1); }
  }

  function Abs(m: int): nat
  {
    if m < 0 then -m else m
  }

  /** BigNumber's own form: no trailing zero in the fraction. */
  predicate Normalized(d: Decimal)
  {
    d.scale > 0 ==> d.mant % 10 != 0
  }

  /** The same value with trailing fraction zeros dropped. */
  function Normalize(d: Decimal): (n: Decimal)
    ensures Normalized(n)
    ensures n.scale <= d.scale
    ensures n.mant * Pow10(d.scale - n.scale) == d.mant
    decreases d.scale
  {
    if d.scale > 0 && d.mant % 10 == 0 then
      var n := Normalize(Decimal(d.mant / 10, d.scale - 1));
      assert Pow10(d.scale - n.scale) == 10 * Pow10(d.scale - 1 - n.scale);
      n
    else d
  }

  /** `x.mant` rescaled to `s` decimals. */
  function AtScale(x: Decimal, s: nat): int
    requires x.scale <= s
  {
    x.mant * Pow10(s - x.scale)
  }

  /**
   * `x.times(10^k).integerValue(ROUND_FLOOR).div(10^k)`: the largest multiple of `10^-k`
   * not above `x` (which is `x` itself when it has at most `k` decimals).
   */
  function FloorTo(x: Decimal, k: nat): (r: Decimal)
    ensures r.scale <= k && r.scale <= x.scale
    ensures AtScale(r, x.scale) <= x.mant < AtScale(r, x.scale) + Pow10(x.scale - r.scale)
  {
    if k >= x.scale then x else Decimal(x.mant / Pow10(x.scale - k), k)
  }

  // ---------------------------------------------------------------------------
  // Decimal text

  /** Number of decimal digits of `n`. */
  function Len(n: nat): nat
  {
    |NatToString(n)|
  }

  lemma {:induction false} LenBounds(n: nat)
    ensures Len(n) >= 1
    ensures n < Pow10(Len(n))
    ensures n >= 1 ==> Pow10(Len(n) - 1) <= n
    decreases n
  {
    if n >= 10 {
      LenBounds(n / 10);
      assert NatToString(n) == NatToString(n / 10) + [DigitChar(n % 10)];
    }
  }

  function Zeros(k: nat): (z: string)
    ensures |z| == k
    ensures forall i :: 0 <= i < k ==> z[i] == '0'
  {
    if k == 0 then [] else ['0'] + Zeros(k - 1)
  }

  function PadLeft(s: string, n: nat): (r: string)
    ensures |r| >= n && |r| >= |s|
    ensures r[|r| - |s|..] == s
  {
    if |s| >= n then s else Zeros(n - |s|) + s
  }

  predicate AllDigits(s: string)
  {
    forall i :: 0 <= i < |s| ==> IsDigit(s[i])
  }

  lemma PadLeftDigits(s: string, n: nat)
    requires AllDigits(s)
    ensures AllDigits(PadLeft(s, n))
  {
    var r := PadLeft(s, n);
    forall i | 0 <= i < |r| ensures IsDigit(r[i]) {
      if |s| < n && i >= n - |s| {
        assert r[i] == s[i - (n - |s|)];
      }
    }
  }

  /** The last `k` decimal digits of `m`, leading zeros included. */
  function LowDigits(m: nat, k: nat): (r: string)
    ensures |r| == k
  {
    if k == 0 then [] else LowDigits(m / 10, k - 1) + [DigitChar(m % 10)]
  }

  /** `bn.toFixed().split('.')[1]`: the fraction digits of a value with a fraction. */
  function FractionText(x: Decimal): (f: string)
    requires x.scale > 0
    ensures |f| == x.scale
  {
    LowDigits(Abs(x.mant), x.scale)
  }

  /** `s.search(/[1-9]/)`: the index of the first non-zero digit, or -1. */
  function FirstNonZero(s: string): (i: int)
    ensures -1 <= i < |s|
  {
    if |s| == 0 then -1
    else if '1' <= s[0] <= '9' then 0
    else
      var i := FirstNonZero(s[1..]);
      if i < 0 then -1 else i + 1
  }

  /** The search finds the first digit from 1 to 9, and returns -1 exactly when there is none. */
  lemma {:induction false} FirstNonZeroFinds(s: string)
    ensures var i := FirstNonZero(s);
      (i >= 0 ==> '1' <= s[i] <= '9' && forall j :: 0 <= j < i ==> !('1' <= s[j] <= '9')) &&
      (i == -1 ==> forall j :: 0 <= j < |s| ==> !('1' <= s[j] <= '9'))
    decreases |s|
  {
    if |s| > 0 && !('1' <= s[0] <= '9') {
      FirstNonZeroFinds(s[1..]);
      forall j | 1 <= j < |s| ensures s[j] == s[1..][j - 1] { }
    }
  }

  lemma AbsLastDigit(m: int)
    requires m % 10 != 0
    ensures Abs(m) % 10 != 0
  {
    if m < 0 {
      assert m == 10 * (m / 10) + m % 10;
      assert -m == 10 * (-(m / 10) - 1) + (10 - m % 10);
    }
  }

  lemma NonZeroDigitChar(d: int)
    requires 1 <= d < 10
    ensures '1' <= DigitChar(d) <= '9'
  {
    assert DigitChar(d) == "0123456789"[d];
  }

  lemma LastFractionDigit(x: Decimal)
    requires Normalized(x) && x.scale > 0
    ensures '1' <= FractionText(x)[x.scale - 1] <= '9'
  {
    var m := Abs(x.mant);
    AbsLastDigit(x.mant);
    NonZeroDigitChar(m % 10);
    assert FractionText(x) == LowDigits(m / 10, x.scale - 1) + [DigitChar(m % 10)];
  }

  /** A normalized fraction ends in a non-zero digit, so the search always succeeds. */
  lemma FractionSearchFinds(x: Decimal)
    requires Normalized(x) && x.scale > 0
    ensures FirstNonZero(FractionText(x)) >= 0
  {
    LastFractionDigit(x);
    FirstNonZeroFinds(FractionText(x));
  }

  /** A fixed-point text as its parts: sign, integer digits, fraction digits. */
  datatype Parts = Parts(neg: bool, whole: string, frac: string)

  function Sign(neg: bool): string
  {
    if neg then "-" else ""
  }

  /** The text of the parts: the point is written only before a non-empty fraction. */
  function PartsText(p: Parts): string
  {
    Sign(p.neg) + p.whole + (if |p.frac| > 0 then "." + p.frac else "")
  }

  /** The parts BigNumber writes for the magnitude `m / 10^k` with exactly `k` fraction digits. */
  function FixedParts(neg: bool, m: nat, k: nat): (p: Parts)
    ensures p.neg == neg && |p.whole| >= 1 && |p.frac| == k
    ensures AllDigits(p.whole) && AllDigits(p.frac)
  {
    var digits := PadLeft(NatToString(m), k + 1);
    PadLeftDigits(NatToString(m), k + 1);
    Parts(neg, digits[..|digits| - k], digits[|digits| - k..])
  }

  /** Dividing a natural number by a positive one leaves a natural number. */
  lemma QuotientNat(a: nat, b: nat)
    requires b >= 1
    ensures a / b >= 0
  {
  }

  /** `m * 10^e` */
  function Shift(m: nat, e: nat): nat
  {
    m * Pow10(e)
  }

  /** The magnitude `|x|` rounded half away from zero to `k` decimals, scaled by `10^k`. */
  function RoundHalfUp(m: nat, s: nat, k: nat): nat
  {
    if s <= k then Shift(m, k - s) else DivideHalfUp(m, Pow10(s - k))
  }

  /** `m / p` rounded to the nearest integer, halves rounded up. */
  function DivideHalfUp(m: nat, p: nat): nat
    requires p >= 1
  {
    QuotientNat(m, p);
    var q: nat := m / p;
    if 2 * (m % p) >= p then q + 1 else q
  }

  /** `x.toFixed(k)`; the sign is that of the value formatted, even when it rounds to zero. */
  function ToFixed(x: Decimal, k: nat): string
  {
    PartsText(FixedParts(x.mant < 0, RoundHalfUp(Abs(x.mant), x.scale, k), k))
  }

  /**
   * What a call yields: text, the error BigNumber throws for an argument out of range
   * (`[BigNumber Error] Argument out of range`), or exponential notation (not rendered).
   */
  datatype Outcome = Text(s: string) | Thrown | ExponentialForm

  /** The decimal exponent of the leading digit (0 for zero). */
  function Exponent(x: Decimal): int
  {
    if x.mant == 0 then 0 else Len(Abs(x.mant)) - 1 - x.scale
  }

  /**
   * The fixed-point parts of `x.toPrecision(sd)`: `x` rounded to `sd` significant digits;
   * `None` when the integer part needs more than `sd` digits (exponential notation).
   */
  function PrecisionParts(x: Decimal, sd: nat): Option<Parts>
    requires sd >= 1
  {
    var dec := sd - 1 - Exponent(x);
    if dec < 0 then None
    else
      var r := RoundHalfUp(Abs(x.mant), x.scale, dec);
      if r == Pow10(sd) then
        // rounding carried into a new leading digit
        if dec == 0 then None else Some(FixedParts(x.mant < 0, r / 10, dec - 1))
      else Some(FixedParts(x.mant < 0, r, dec))
  }

  /** `x.toPrecision(sd)`: BigNumber throws for fewer than one significant digit. */
  function ToPrecision(x: Decimal, sd: nat): Outcome
  {
    if sd == 0 then Thrown
    else
      match PrecisionParts(x, sd)
      case None => ExponentialForm
      case Some(p) => Text(PartsText(p))
  }

  // ---------------------------------------------------------------------------
  // Reading digits back

  function DigitValue(c: char): int
  {
    c as int - '0' as int
  }

  lemma DigitCharValue(d: int)
    requires 0 <= d < 10
    ensures DigitValue(DigitChar(d)) == d
  {
    assert DigitChar(d) == "0123456789"[d];
    if d == 0 {} else if d == 1 {} else if d == 2 {} else if d == 3 {} else if d == 4 {}
    else if d == 5 {} else if d == 6 {} else if d == 7 {} else if d == 8 {} else {}
  }

  /** The natural number a digit string denotes. */
  function ReadNat(s: string): nat
    requires AllDigits(s)
  {
    if |s| == 0 then 0 else ReadNat(s[..|s| - 1]) * 10 + DigitValue(s[|s| - 1])
  }

  lemma {:induction false} ReadNatToString(n: nat)
    ensures ReadNat(NatToString(n)) == n
    decreases n
  {
    var t := NatToString(n);
    DigitCharValue(n % 10);
    if n >= 10 {
      ReadNatToString(n / 10);
      assert t[..|t| - 1] == NatToString(n / 10);
    } else {
      assert t[..|t| - 1] == [];
    }
  }

  lemma {:induction false} ReadNatZeros(k: nat)
    ensures ReadNat(Zeros(k)) == 0
  {
    if k > 0 {
      ReadNatZeros(k - 1);
      assert Zeros(k)[..k - 1] == Zeros(k - 1);
    }
  }

  lemma {:induction false} ReadNatLeadingZeros(k: nat, t: string)
    requires AllDigits(t)
    ensures AllDigits(Zeros(k) + t) && ReadNat(Zeros(k) + t) == ReadNat(t)
    decreases |t|
  {
    var u := Zeros(k) + t;
    if |t| == 0 {
      assert u == Zeros(k);
      ReadNatZeros(k);
    } else {
      ReadNatLeadingZeros(k, t[..|t| - 1]);
      assert u[..|u| - 1] == Zeros(k) + t[..|t| - 1];
    }
  }

  /** The printed digits, read together, give back the magnitude. */
  lemma FixedPartsDenote(neg: bool, m: nat, k: nat)
    ensures var p := FixedParts(neg, m, k); AllDigits(p.whole + p.frac) && ReadNat(p.whole + p.frac) == m
  {
    var digits := NatToString(m);
    var padded := PadLeft(digits, k + 1);
    var p := FixedParts(neg, m, k);
    assert p.whole + p.frac == padded;
    PaddedDenotes(m, k + 1);
  }

  lemma PaddedDenotes(m: nat, n: nat)
    ensures AllDigits(PadLeft(NatToString(m), n)) && ReadNat(PadLeft(NatToString(m), n)) == m
  {
    var digits := NatToString(m);
    PadLeftDigits(digits, n);
    ReadNatToString(m);
    if |digits| < n {
      ReadNatLeadingZeros(n - |digits|, digits);
    }
  }

  // ---------------------------------------------------------------------------
  // `str.split('.')`

  function IndexOfDot(s: string): (i: int)
    ensures -1 <= i < |s|
    ensures i >= 0 ==> s[i] == '.' && '.' !in s[..i]
    ensures i == -1 ==> '.' !in s
  {
    if |s| == 0 then -1
    else if s[0] == '.' then 0
    else
      var i := IndexOfDot(s[1..]);
      if i < 0 then -1
      else
        assert s[..i + 1] == [s[0]] + s[1..][..i];
        i + 1
  }

  /** `const [int, fraction] = str.split('.')`; a missing fraction is `""` (both are falsy). */
  function SplitAtDot(s: string): (string, string)
  {
    var i := IndexOfDot(s);
    if i < 0 then (s, "")
    else
      var rest := s[i + 1..];
      var j := IndexOfDot(rest);
      (s[..i], if j < 0 then rest else rest[..j])
  }

  // ---------------------------------------------------------------------------
  // `int.replace(/\B(?=(\d{3})+(?!\d))/g, replaceSymbol)`

  predicate IsWordChar(c: char)
  {
    ('a' <= c <= 'z') || ('A' <= c <= 'Z') || ('0' <= c <= '9') || c == '_'
  }

  /** Length of the run of digits starting at `p`. */
  function DigitRun(s: string, p: nat): nat
    requires p <= |s|
    decreases |s| - p
  {
    if p < |s| && IsDigit(s[p]) then 1 + DigitRun(s, p + 1) else 0
  }

  /** The regular expression matches (with an empty match) at position `p`. */
  predicate SepAt(s: string, p: nat)
    requires p <= |s|
  {
    var before := p > 0 && IsWordChar(s[p - 1]);
    var after := p < |s| && IsWordChar(s[p]);
    before == after && DigitRun(s, p) >= 3 && DigitRun(s, p) % 3 == 0
  }

  /** The global replace: `sym` inserted at every matching position from `p` on. */
  function ReplaceFrom(s: string, sym: string, p: nat): string
    requires p <= |s|
    decreases |s| - p
  {
    (if SepAt(s, p) then sym else "") + (if p == |s| then "" else [s[p]] + ReplaceFrom(s, sym, p + 1))
  }

  function GroupText(s: string, sym: string): string
  {
    ReplaceFrom(s, sym, 0)
  }

  /** Reference grouping: the last three digits split off, the rest grouped in turn. */
  function Group3(ds: string, sym: string): (g: string)
    ensures |g| == |ds| + |sym| * (if |ds| == 0 then 0 else (|ds| - 1) / 3)
  {
    if |ds| <= 3 then ds
    else
      var head := ds[..|ds| - 3];
      var n := (|head| - 1) / 3;
      assert (|ds| - 1) / 3 == n + 1;
      assert |sym| * (n + 1) == |sym| * n + |sym|;
      Group3(head, sym) + sym + ds[|ds| - 3..]
  }

  /** Digits from position `i` on, a separator before every later group boundary. */
  function GroupFrom(ds: string, sym: string, i: nat): string
    requires i <= |ds|
    decreases |ds| - i
  {
    if i == |ds| then ""
    else (if 0 < i && (|ds| - i) % 3 == 0 then sym else "") + [ds[i]] + GroupFrom(ds, sym, i + 1)
  }

  lemma GroupFromLastThree(ds: string, sym: string)
    requires |ds| > 3
    ensures GroupFrom(ds, sym, |ds| - 3) == sym + ds[|ds| - 3..]
  {
    var n := |ds|;
    var a, b, c := ds[n - 3], ds[n - 2], ds[n - 1];
    calc {
      GroupFrom(ds, sym, n - 1);
      [c] + GroupFrom(ds, sym, n);
      [c];
    }
    calc {
      GroupFrom(ds, sym, n - 2);
      [b] + GroupFrom(ds, sym, n - 1);
      [b, c];
    }
    calc {
      GroupFrom(ds, sym, n - 3);
      sym + [a] + GroupFrom(ds, sym, n - 2);
      sym + [a, b, c];
    }
    assert ds[n - 3..] == [a, b, c];
  }

  lemma {:induction false} GroupFromSplit(ds: string, sym: string, i: nat)
    requires |ds| > 3 && i <= |ds| - 3
    ensures GroupFrom(ds, sym, i) == GroupFrom(ds[..|ds| - 3], sym, i) + sym + ds[|ds| - 3..]
    decreases |ds| - i
  {
    var head := ds[..|ds| - 3];
    if i == |ds| - 3 {
      GroupFromLastThree(ds, sym);
      assert GroupFrom(head, sym, i) == "";
    } else {
      var g, tail := GroupFrom(head, sym, i + 1), ds[|ds| - 3..];
      assert GroupFrom(ds, sym, i + 1) == g + sym + tail by {
        GroupFromSplit(ds, sym, i + 1);
      }
      var mark := if 0 < i && (|ds| - i) % 3 == 0 then sym else "";
      assert GroupFrom(ds, sym, i) == mark + [ds[i]] + (g + sym + tail);
      assert GroupFrom(head, sym, i) == mark + [ds[i]] + g;
      Regroup(mark + [ds[i]], g, sym, tail);
    }
  }

  lemma Regroup(a: string, b: string, c: string, d: string)
    ensures a + (b + c + d) == a + b + c + d
  {
  }

  lemma {:induction false} GroupFromShort(ds: string, sym: string, i: nat)
    requires |ds| <= 3 && i <= |ds|
    ensures GroupFrom(ds, sym, i) == ds[i..]
    decreases |ds| - i
  {
    if i < |ds| {
      GroupFromShort(ds, sym, i + 1);
      assert ds[i..] == [ds[i]] + ds[i + 1..];
    }
  }

  lemma {:induction false} GroupFromIsGroup3(ds: string, sym: string)
    ensures GroupFrom(ds, sym, 0) == Group3(ds, sym)
    decreases |ds|
  {
    if |ds| <= 3 {
      GroupFromShort(ds, sym, 0);
    } else {
      GroupFromSplit(ds, sym, 0);
      GroupFromIsGroup3(ds[..|ds| - 3], sym);
    }
  }

  lemma {:induction false} DigitRunToEnd(s: string, p: nat)
    requires p <= |s| && forall q :: p <= q < |s| ==> IsDigit(s[q])
    ensures DigitRun(s, p) == |s| - p
    decreases |s| - p
  {
    if p < |s| { DigitRunToEnd(s, p + 1); }
  }

  lemma {:induction false} ReplaceOnDigits(sign: string, ds: string, sym: string, p: nat)
    requires sign == "" || sign == "-"
    requires AllDigits(ds)
    requires |sign| <= p <= |sign| + |ds|
    ensures ReplaceFrom(sign + ds, sym, p) == GroupFrom(ds, sym, p - |sign|)
    decreases |sign| + |ds| - p
  {
    var s := sign + ds;
    var i := p - |sign|;
    SepAtDigits(sign, ds, p);
    if p < |s| {
      var mark := if 0 < i && (|ds| - i) % 3 == 0 then sym else "";
      var r := ReplaceFrom(s, sym, p + 1);
      assert r == GroupFrom(ds, sym, i + 1) by { ReplaceOnDigits(sign, ds, sym, p + 1); }
      assert s[p] == ds[i];
      assert ReplaceFrom(s, sym, p) == mark + ([ds[i]] + r);
      ConcatAssoc(mark, [ds[i]], r);
    }
  }

  /** Inside a signed digit string the pattern matches before each later group of three. */
  lemma SepAtDigits(sign: string, ds: string, p: nat)
    requires sign == "" || sign == "-"
    requires AllDigits(ds)
    requires |sign| <= p <= |sign| + |ds|
    ensures SepAt(sign + ds, p) <==> p < |sign| + |ds| && 0 < p - |sign| && (|ds| - (p - |sign|)) % 3 == 0
  {
    var s := sign + ds;
    DigitRunToEnd(s, p);
    if p < |s| {
      assert s[p] == ds[p - |sign|];
    }
    if p > |sign| {
      assert s[p - 1] == ds[p - 1 - |sign|];
    } else if p > 0 {
      assert s[p - 1] == '-';
    }
  }

  /**
   * The regular expression puts `sym` between groups of three digits counted from the
   * right, and never between the minus sign and the first digit.
   */
  lemma GroupTextSigned(sign: string, ds: string, sym: string)
    requires sign == "" || sign == "-"
    requires AllDigits(ds)
    ensures GroupText(sign + ds, sym) == sign + Group3(ds, sym)
  {
    var s := sign + ds;
    ReplaceOnDigits(sign, ds, sym, |sign|);
    GroupFromIsGroup3(ds, sym);
    if sign == "-" {
      assert s[0] == '-';
      assert DigitRun(s, 0) == 0;
    }
  }

  /** The digits of a text, in order. */
  function DigitsOf(s: string): (r: string)
    ensures AllDigits(r)
  {
    if |s| == 0 then [] else (if IsDigit(s[0]) then [s[0]] else []) + DigitsOf(s[1..])
  }

  lemma {:induction false} DigitsOfAppend(a: string, b: string)
    ensures DigitsOf(a + b) == DigitsOf(a) + DigitsOf(b)
    decreases |a|
  {
    if |a| > 0 {
      DigitsOfAppend(a[1..], b);
      assert (a + b)[0] == a[0];
      assert (a + b)[1..] == a[1..] + b;
      assert DigitsOf(a + b) == (if IsDigit(a[0]) then [a[0]] else []) + DigitsOf(a[1..] + b);
    } else {
      assert a + b == b;
    }
  }

  lemma {:induction false} DigitsOfDigits(ds: string)
    requires AllDigits(ds)
    ensures DigitsOf(ds) == ds
    decreases |ds|
  {
    if |ds| > 0 { DigitsOfDigits(ds[1..]); }
  }

  /** With a separator free of digits, dropping the non-digits undoes the grouping. */
  lemma {:induction false} Group3RoundTrip(ds: string, sym: string)
    requires AllDigits(ds) && DigitsOf(sym) == []
    ensures DigitsOf(Group3(ds, sym)) == ds
    decreases |ds|
  {
    if |ds| <= 3 {
      DigitsOfDigits(ds);
    } else {
      var head, tail := ds[..|ds| - 3], ds[|ds| - 3..];
      var g := Group3(head, sym);
      assert Group3(ds, sym) == g + sym + tail;
      Group3RoundTrip(head, sym);
      DigitsOfJoin(g, sym, tail, head);
      assert head + tail == ds;
    }
  }

  lemma DigitsOfJoin(a: string, b: string, c: string, da: string)
    requires DigitsOf(a) == da && DigitsOf(b) == [] && AllDigits(c)
    ensures DigitsOf(a + b + c) == da + c
  {
    DigitsOfAppend(a, b);
    DigitsOfAppend(a + b, c);
    DigitsOfDigits(c);
    assert da + [] + c == da + c;
  }

  // ---------------------------------------------------------------------------
  // `result.replace(/\.?0+$/, '')`

  /** Number of trailing `'0'` characters. */
  function TrailingZeros(s: string): (z: nat)
    ensures z <= |s|
    ensures forall i :: |s| - z <= i < |s| ==> s[i] == '0'
    ensures z < |s| ==> s[|s| - z - 1] != '0'
  {
    if |s| == 0 || s[|s| - 1] != '0' then 0 else 1 + TrailingZeros(s[..|s| - 1])
  }

  /** The leftmost match of `\.?0+$` removed: the trailing zeros, and the point just before them. */
  function CutTrailingZeros(s: string): (r: string)
    ensures r <= s
  {
    var z := TrailingZeros(s);
    if z == 0 then s
    else
      var start := |s| - z;
      if start > 0 && s[start - 1] == '.' then s[..start - 1] else s[..start]
  }

  // ---------------------------------------------------------------------------
  // The formatter

  datatype Options = Options(
    digits: nat,
    replaceSymbol: string,
    floorRounding: bool,
    cutFractionalZero: bool,
    significantFractionInSmallValue: bool)

  /** The defaults `toLocaleString(value)` uses. */
  const Defaults := Options(3, " ", true, true, true)

  /** |x| < 1 */
  predicate BelowOne(x: Decimal)
  {
    Abs(x.mant) < Pow10(x.scale)
  }

  /** `preFormattedValue`: the value, floored when it has more than `digits` decimals. */
  function PreFormat(bn: Decimal, digits: nat, floorRounding: bool, small: bool): (pre: Decimal)
    requires Normalized(bn)
    ensures pre.scale <= bn.scale
    ensures AtScale(pre, bn.scale) <= bn.mant < AtScale(pre, bn.scale) + Pow10(bn.scale - pre.scale)
    ensures !floorRounding ==> pre == bn
    ensures floorRounding && !small ==> pre.scale <= digits
    ensures floorRounding && small && bn.scale > digits ==> pre.scale <= digits + FirstNonZero(FractionText(bn))
  {
    if bn.scale > digits && floorRounding then
      FractionSearchFinds(bn);
      var add := if small then FirstNonZero(FractionText(bn)) else 0;
      FloorTo(bn, digits + add)
    else
      assert AtScale(bn, bn.scale) == bn.mant;
      bn
  }

  /** Splitting at the point, grouping the integer part and cutting trailing zeros. */
  function Layout(str: string, opts: Options): string
  {
    var parts := SplitAtDot(str);
    var result := GroupText(parts.0, opts.replaceSymbol) + (if parts.1 != "" then "." + parts.1 else "");
    if opts.cutFractionalZero && '.' in result then CutTrailingZeros(result) else result
  }

  function ToLocaleString(value: BigNum, opts: Options): Outcome
  {
    match value
    case NotFinite => Text("")
    case Finite(d) =>
      var bn := Normalize(d);
      var small := BelowOne(bn) && opts.significantFractionInSmallValue;
      var pre := PreFormat(bn, opts.digits, opts.floorRounding, small);
      var str := if small then ToPrecision(pre, opts.digits) else Text(ToFixed(pre, opts.digits));
      match str
      case Text(t) => Text(Layout(t, opts))
      case _ => str
  }

  // ---------------------------------------------------------------------------
  // Reference rendering

  /** The fraction with its trailing zeros removed. */
  function StripZeros(f: string): (r: string)
    ensures r <= f
    ensures |r| > 0 ==> r[|r| - 1] != '0'
    ensures f == r + Zeros(|f| - |r|)
  {
    if |f| > 0 && f[|f| - 1] == '0' then
      var r := StripZeros(f[..|f| - 1]);
      assert Zeros(|f| - |r|) == Zeros(|f| - 1 - |r|) + ['0'];
      r
    else f
  }

  /**
   * The intended output: sign, integer digits in groups of three separated by the
   * replacement symbol, and the fraction (trimmed of trailing zeros when cutting),
   * written after a point only when something is left of it.
   */
  function Render(p: Parts, opts: Options): string
  {
    var f := if opts.cutFractionalZero then StripZeros(p.frac) else p.frac;
    Sign(p.neg) + Group3(p.whole, opts.replaceSymbol) + (if f == "" then "" else "." + f)
  }

  lemma {:induction false} NoDotInGroup3(ds: string, sym: string)
    requires AllDigits(ds) && '.' !in sym
    ensures '.' !in Group3(ds, sym)
    decreases |ds|
  {
    if |ds| > 3 {
      NoDotInGroup3(ds[..|ds| - 3], sym);
      var tail := ds[|ds| - 3..];
      assert forall i :: 0 <= i < |tail| ==> IsDigit(tail[i]);
    }
  }

  lemma {:induction false} IndexOfDotAt(t: string, i: nat)
    requires i < |t| && t[i] == '.' && '.' !in t[..i]
    ensures IndexOfDot(t) == i
  {
    if i > 0 {
      assert t[0] == t[..i][0];
      assert t[1..][..i - 1] == t[..i][1..];
      IndexOfDotAt(t[1..], i - 1);
    }
  }

  lemma NoDotInDigits(s: string)
    requires AllDigits(s)
    ensures '.' !in s
  {
  }

  lemma NoDotInSigned(neg: bool, body: string)
    requires '.' !in body
    ensures '.' !in Sign(neg) + body
  {
  }

  lemma SplitParts(p: Parts)
    requires AllDigits(p.whole) && AllDigits(p.frac)
    ensures SplitAtDot(PartsText(p)) == (Sign(p.neg) + p.whole, p.frac)
  {
    var head := Sign(p.neg) + p.whole;
    NoDotInDigits(p.whole);
    NoDotInSigned(p.neg, p.whole);
    var t := PartsText(p);
    if |p.frac| > 0 {
      assert t == head + "." + p.frac;
      assert t[..|head|] == head;
      IndexOfDotAt(t, |head|);
      assert t[|head| + 1..] == p.frac;
      NoDotInDigits(p.frac);
    } else {
      assert t == head;
    }
  }

  lemma {:induction false} TrailingZerosAfter(x: string, n: nat)
    requires |x| > 0 && x[|x| - 1] != '0'
    ensures TrailingZeros(x + Zeros(n)) == n
    decreases n
  {
    if n == 0 {
      assert x + Zeros(n) == x;
    } else {
      TrailingZerosAfter(x, n - 1);
      var u := x + Zeros(n);
      assert u[..|u| - 1] == x + Zeros(n - 1);
      assert u[|u| - 1] == '0';
    }
  }

  lemma CutAllZeroFraction(head: string, f: string)
    requires |f| > 0 && StripZeros(f) == ""
    ensures CutTrailingZeros(head + "." + f) == head
  {
    var x := head + ".";
    assert f == Zeros(|f|) by {
      assert f == "" + Zeros(|f|);
    }
    assert head + "." + f == x + Zeros(|f|);
    CutAfterDot(head, |f|);
  }

  lemma CutAfterDot(head: string, n: nat)
    requires n > 0
    ensures CutTrailingZeros(head + "." + Zeros(n)) == head
  {
    var x := head + ".";
    var u := x + Zeros(n);
    assert x[|x| - 1] == '.';
    TrailingZerosAfter(x, n);
    assert u[|x| - 1] == '.';
    assert u[..|x| - 1] == head;
  }

  lemma CutSignificantFraction(head: string, f: string)
    requires AllDigits(f) && StripZeros(f) != ""
    ensures CutTrailingZeros(head + "." + f) == head + "." + StripZeros(f)
  {
    var r := StripZeros(f);
    var n := |f| - |r|;
    var x := head + "." + r;
    assert head + "." + f == x + Zeros(n);
    assert x[|x| - 1] == r[|r| - 1] == f[|r| - 1];
    assert IsDigit(f[|r| - 1]);
    CutAfterDigit(x, n);
  }

  /** Zeros after a text ending in a non-zero digit are cut, and nothing else is. */
  lemma CutAfterDigit(x: string, n: nat)
    requires |x| > 0 && IsDigit(x[|x| - 1]) && x[|x| - 1] != '0'
    ensures CutTrailingZeros(x + Zeros(n)) == x
  {
    TrailingZerosAfter(x, n);
    if n > 0 {
      assert (x + Zeros(n))[|x| - 1] == x[|x| - 1];
      assert (x + Zeros(n))[..|x|] == x;
    } else {
      assert x + Zeros(n) == x;
    }
  }

  /** Cutting `/\.?0+$/` after a point removes the fraction's trailing zeros, and the point with an all-zero fraction. */
  lemma CutAfterPoint(head: string, f: string)
    requires AllDigits(f) && |f| > 0
    ensures CutTrailingZeros(head + "." + f) == head + (if StripZeros(f) == "" then "" else "." + StripZeros(f))
  {
    var z := StripZeros(f);
    if z == "" {
      CutAllZeroFraction(head, f);
      assert head + "" == head;
    } else {
      CutSignificantFraction(head, f);
      ConcatAssoc(head, ".", z);
    }
  }

  /**
   * The split / regular-expression / cut pipeline yields the intended output for
   * any digits, provided the replacement symbol holds no point.
   */
  lemma LayoutRenders(p: Parts, opts: Options)
    requires AllDigits(p.whole) && AllDigits(p.frac)
    requires '.' !in opts.replaceSymbol
    ensures Layout(PartsText(p), opts) == Render(p, opts)
  {
    var sym := opts.replaceSymbol;
    var head := Sign(p.neg) + Group3(p.whole, sym);
    assert SplitAtDot(PartsText(p)) == (Sign(p.neg) + p.whole, p.frac) by {
      SplitParts(p);
    }
    assert GroupText(Sign(p.neg) + p.whole, sym) == head by {
      GroupTextSigned(Sign(p.neg), p.whole, sym);
    }
    assert '.' !in head by {
      NoDotInGroup3(p.whole, sym);
      NoDotInSigned(p.neg, Group3(p.whole, sym));
    }
    LayoutAfterGrouping(PartsText(p), Sign(p.neg) + p.whole, head, p.frac, opts);
  }

  lemma ConcatAssoc(a: string, b: string, c: string)
    ensures a + (b + c) == a + b + c
  {
  }

  /** Once the integer part is grouped, only the fraction is left to lay out. */
  lemma LayoutAfterGrouping(str: string, whole: string, head: string, frac: string, opts: Options)
    requires SplitAtDot(str) == (whole, frac)
    requires GroupText(whole, opts.replaceSymbol) == head
    requires '.' !in head && AllDigits(frac)
    ensures var f := if opts.cutFractionalZero then StripZeros(frac) else frac;
      Layout(str, opts) == head + (if f == "" then "" else "." + f)
  {
    var result := head + (if frac != "" then "." + frac else "");
    assert Layout(str, opts) == if opts.cutFractionalZero && '.' in result then CutTrailingZeros(result) else result;
    if frac != "" {
      assert '.' in result by {
        assert result[|head|] == '.';
      }
      if opts.cutFractionalZero {
        ConcatAssoc(head, ".", frac);
        CutAfterPoint(head, frac);
      }
    } else {
      assert StripZeros(frac) == "";
      assert result == head + "";
    }
  }

  // ---------------------------------------------------------------------------
  // Properties of the formatter

  lemma CancelLess(a: int, b: int, c: int)
    requires c > 0 && a * c < b * c
    ensures a < b
  {
  }

  lemma ScaledWithinOne(pm: int, bm: int, c: int, top: int)
    requires c > 0 && top > 0
    requires pm * c <= bm < pm * c + c
    requires -(top * c) < bm < top * c
    ensures -top <= pm < top
  {
    CancelLess(pm, top, c);
    assert (pm + 1) * c == pm * c + c;
    assert (-top) * c == -(top * c);
    CancelLess(-top, pm + 1, c);
  }

  /** Flooring a value below one in magnitude leaves it within [-1, 1). */
  lemma SmallStaysSmall(bn: Decimal, digits: nat, floorRounding: bool)
    requires Normalized(bn) && BelowOne(bn)
    ensures var pre := PreFormat(bn, digits, floorRounding, true); Abs(pre.mant) <= Pow10(pre.scale)
  {
    if bn.scale > digits && floorRounding {
      FractionSearchFinds(bn);
      FloorToBelowOne(bn, digits + FirstNonZero(FractionText(bn)));
    }
  }

  /** Flooring a value below one in magnitude to any number of decimals. */
  lemma FloorToBelowOne(x: Decimal, k: nat)
    requires BelowOne(x)
    ensures Abs(FloorTo(x, k).mant) <= Pow10(FloorTo(x, k).scale)
  {
    var r := FloorTo(x, k);
    if k < x.scale {
      assert AtScale(r, x.scale) <= x.mant < AtScale(r, x.scale) + Pow10(x.scale - r.scale);
      FloorBelowOne(r, x);
    }
  }

  /** A lower bound within one unit of its last place of a value in (-1, 1) lies in [-1, 1). */
  lemma FloorBelowOne(pre: Decimal, bn: Decimal)
    requires pre.scale <= bn.scale && BelowOne(bn)
    requires AtScale(pre, bn.scale) <= bn.mant < AtScale(pre, bn.scale) + Pow10(bn.scale - pre.scale)
    ensures Abs(pre.mant) <= Pow10(pre.scale)
  {
    var c, top := Pow10(bn.scale - pre.scale), Pow10(pre.scale);
    assert pre.mant * c <= bn.mant < pre.mant * c + c;
    assert -(top * c) < bn.mant < top * c by {
      Pow10Add(pre.scale, bn.scale - pre.scale);
      assert top * c == Pow10(bn.scale);
    }
    ScaledWithinOne(pre.mant, bn.mant, c, top);
  }

  /** `toPrecision` with at least one digit writes fixed-point for any value of magnitude at most one. */
  lemma PrecisionFixedUpToOne(x: Decimal, sd: nat)
    requires sd >= 1 && Abs(x.mant) <= Pow10(x.scale)
    ensures PrecisionParts(x, sd).Some?
  {
    var m := Abs(x.mant);
    if m != 0 {
      var len := Len(m);
      LenBounds(m);
      if len - 1 > x.scale {
        Pow10Monotonic(x.scale + 1, len - 1);
        assert false;
      }
      var dec := sd - 1 - Exponent(x);
      var r := RoundHalfUp(m, x.scale, dec);
      if dec == 0 {
        assert len - 1 == x.scale && sd == 1;
        assert m == Pow10(x.scale);
        if x.scale > 0 {
          assert m / Pow10(x.scale) == 1 && m % Pow10(x.scale) == 0;
        }
        assert r == 1;
      }
    }
  }

  /** The formatter never falls back to exponential notation. */
  lemma NeverExponential(value: BigNum, opts: Options)
    ensures ToLocaleString(value, opts) != ExponentialForm
  {
    if value.Finite? {
      var bn := Normalize(value.d);
      if BelowOne(bn) && opts.significantFractionInSmallValue && opts.digits >= 1 {
        SmallStaysSmall(bn, opts.digits, opts.floorRounding);
        PrecisionFixedUpToOne(PreFormat(bn, opts.digits, opts.floorRounding, true), opts.digits);
      }
    }
  }

  /** It throws exactly when a value below one is formatted with zero significant digits. */
  lemma ThrowsIff(value: BigNum, opts: Options)
    ensures ToLocaleString(value, opts) == Thrown <==>
      value.Finite? && BelowOne(Normalize(value.d)) && opts.significantFractionInSmallValue && opts.digits == 0
  {
  }

  /** NaN and the infinities format as the empty string. */
  lemma NotFiniteIsEmpty(opts: Options)
    ensures ToLocaleString(NotFinite, opts) == Text("")
  {
  }

  /** In the intended output a point is followed by at most the fraction's digits, and, when cutting, never ends the text or precedes a trailing zero. */
  lemma RenderPoint(p: Parts, opts: Options)
    requires AllDigits(p.whole) && AllDigits(p.frac) && '.' !in opts.replaceSymbol
    ensures var s := Render(p, opts);
      (forall i :: 0 <= i < |s| && s[i] == '.' ==> |s| - 1 - i <= |p.frac|) &&
      (opts.cutFractionalZero && '.' in s ==> '1' <= s[|s| - 1] <= '9')
  {
    var sym := opts.replaceSymbol;
    var head := Sign(p.neg) + Group3(p.whole, sym);
    NoDotInGroup3(p.whole, sym);
    NoDotInSigned(p.neg, Group3(p.whole, sym));
    var f := if opts.cutFractionalZero then StripZeros(p.frac) else p.frac;
    assert AllDigits(f);
    var s := Render(p, opts);
    if f != "" {
      assert s == head + ("." + f);
      ConcatAssoc(head, ".", f);
      assert |f| <= |p.frac|;
      OnlyPointBeforeFraction(head, f);
      if opts.cutFractionalZero {
        assert s[|s| - 1] == f[|f| - 1];
      }
    } else {
      assert s == head;
    }
  }

  /** The only point of `head.f` is the one before the fraction digits. */
  lemma OnlyPointBeforeFraction(head: string, f: string)
    requires '.' !in head && AllDigits(f)
    ensures var s := head + "." + f;
      forall i :: 0 <= i < |s| && s[i] == '.' ==> i == |head|
  {
    var s := head + "." + f;
    forall i | 0 <= i < |s| && s[i] == '.' ensures i == |head| {
    }
  }

  /** The parts `toLocaleString` lays out, when it writes text for a finite value. */
  function PrintedParts(d: Decimal, opts: Options): Option<Parts>
  {
    var bn := Normalize(d);
    var small := BelowOne(bn) && opts.significantFractionInSmallValue;
    var pre := PreFormat(bn, opts.digits, opts.floorRounding, small);
    if !small then Some(FixedParts(pre.mant < 0, RoundHalfUp(Abs(pre.mant), pre.scale, opts.digits), opts.digits))
    else if opts.digits == 0 then None
    else PrecisionParts(pre, opts.digits)
  }

  /** A finite value is written as the intended rendering of the digits BigNumber prints. */
  lemma FiniteRenders(d: Decimal, opts: Options)
    requires '.' !in opts.replaceSymbol
    ensures PrintedParts(d, opts).Some? ==> ToLocaleString(Finite(d), opts) == Text(Render(PrintedParts(d, opts).value, opts))
    ensures PrintedParts(d, opts).Some? ==> AllDigits(PrintedParts(d, opts).value.whole) && AllDigits(PrintedParts(d, opts).value.frac)
  {
    var bn := Normalize(d);
    var small := BelowOne(bn) && opts.significantFractionInSmallValue;
    if PrintedParts(d, opts).Some? {
      var p := PrintedParts(d, opts).value;
      assert !small ==> ToFixed(PreFormat(bn, opts.digits, opts.floorRounding, small), opts.digits) == PartsText(p);
      LayoutRenders(p, opts);
    }
  }

  /** Outside small-value mode the text has at most `digits` fraction digits. */
  lemma FractionDigitsBound(d: Decimal, opts: Options)
    requires '.' !in opts.replaceSymbol
    requires !(BelowOne(Normalize(d)) && opts.significantFractionInSmallValue)
    ensures ToLocaleString(Finite(d), opts).Text?
    ensures var s := ToLocaleString(Finite(d), opts).s;
      forall i :: 0 <= i < |s| && s[i] == '.' ==> |s| - 1 - i <= opts.digits
  {
    FiniteRenders(d, opts);
    RenderPoint(PrintedParts(d, opts).value, opts);
  }

  lemma TextHasParts(d: Decimal, opts: Options)
    ensures ToLocaleString(Finite(d), opts).Text? ==> PrintedParts(d, opts).Some?
  {
    var bn := Normalize(d);
    var small := BelowOne(bn) && opts.significantFractionInSmallValue;
    var pre := PreFormat(bn, opts.digits, opts.floorRounding, small);
    if small && opts.digits >= 1 && PrecisionParts(pre, opts.digits).None? {
      assert ToPrecision(pre, opts.digits) == ExponentialForm;
    }
  }

  /** With `cutFractionalZero`, a text that still has a point ends in a non-zero digit. */
  lemma CutEndsSignificant(value: BigNum, opts: Options)
    requires opts.cutFractionalZero && '.' !in opts.replaceSymbol
    ensures var r := ToLocaleString(value, opts); r.Text? && '.' in r.s ==> '1' <= r.s[|r.s| - 1] <= '9'
  {
    var r := ToLocaleString(value, opts);
    if value.Finite? && r.Text? {
      var d := value.d;
      assert PrintedParts(d, opts).Some? by {
        TextHasParts(d, opts);
      }
      var p := PrintedParts(d, opts).value;
      assert r == Text(Render(p, opts)) && AllDigits(p.whole) && AllDigits(p.frac) by {
        FiniteRenders(d, opts);
      }
      RenderPoint(p, opts);
    }
  }

  /**
   * In fixed mode with floor rounding BigNumber prints the floored value without further
   * rounding, and the floored value never exceeds the input.
   */
  lemma FloorPrintsFloored(d: Decimal, opts: Options)
    requires opts.floorRounding
    requires !(BelowOne(Normalize(d)) && opts.significantFractionInSmallValue)
    ensures var bn := Normalize(d); var pre := PreFormat(bn, opts.digits, true, false);
      && pre.scale <= opts.digits
      && PrintedParts(d, opts) == Some(FixedParts(pre.mant < 0, Shift(Abs(pre.mant), opts.digits - pre.scale), opts.digits))
      && AtScale(pre, bn.scale) <= bn.mant
  {
    var bn := Normalize(d);
    var pre := PreFormat(bn, opts.digits, true, false);
    var m, k := Abs(pre.mant), opts.digits;
    assert pre.scale <= k && AtScale(pre, bn.scale) <= bn.mant;
    assert PrintedParts(d, opts) == Some(FixedParts(pre.mant < 0, Shift(m, k - pre.scale), k)) by {
      RoundsExactly(m, pre.scale, k);
    }
  }

  /**
   * `v` units of `10^-k` show `m / 10^s`: exactly when it has at most `k` places, and
   * otherwise rounded half up, within half a unit of the last place with ties upwards.
   */
  predicate PlacesRounded(m: nat, s: nat, v: nat, k: nat)
  {
    && (k >= s ==> v * Pow10(s) == m * Pow10(k))
    && (k < s ==> (2 * v - 1) * Pow10(s - k) <= 2 * m < (2 * v + 1) * Pow10(s - k))
  }

  /**
   * Outside small-value mode BigNumber prints the pre-formatted value with its sign and
   * exactly `digits` fraction digits, rounded half up at that many places.
   */
  lemma FixedPrinted(d: Decimal, opts: Options)
    requires !(BelowOne(Normalize(d)) && opts.significantFractionInSmallValue)
    ensures PrintedParts(d, opts).Some?
    ensures var p := PrintedParts(d, opts).value;
      var pre := PreFormat(Normalize(d), opts.digits, opts.floorRounding, false);
      && p.neg == (pre.mant < 0) && |p.frac| == opts.digits && AllDigits(p.whole + p.frac)
      && PlacesRounded(Abs(pre.mant), pre.scale, ReadNat(p.whole + p.frac), opts.digits)
  {
    var pre := PreFormat(Normalize(d), opts.digits, opts.floorRounding, false);
    var m, s, k := Abs(pre.mant), pre.scale, opts.digits;
    assert PrintedParts(d, opts) == Some(FixedParts(pre.mant < 0, RoundHalfUp(m, s, k), k));
    FixedRounds(pre.mant < 0, m, s, k);
  }

  /** The digits `toFixed(k)` prints for `m / 10^s` are `m / 10^s` rounded half up at `k` places. */
  lemma FixedRounds(neg: bool, m: nat, s: nat, k: nat)
    ensures var p := FixedParts(neg, RoundHalfUp(m, s, k), k);
      AllDigits(p.whole + p.frac) && PlacesRounded(m, s, ReadNat(p.whole + p.frac), k)
  {
    var v := RoundHalfUp(m, s, k);
    FixedPartsDenote(neg, v, k);
    HalfUpRounds(m, s, k);
  }

  /** `RoundHalfUp` rounds half up: it appends zeros when there are places to spare, and divides to the nearest unit otherwise. */
  lemma HalfUpRounds(m: nat, s: nat, k: nat)
    ensures PlacesRounded(m, s, RoundHalfUp(m, s, k), k)
  {
    if k >= s {
      ShiftBack(m, k - s, s);
      assert k - s + s == k;
    } else {
      DivideHalfUpNearest(m, Pow10(s - k));
    }
  }

  /** Shifting `m` by `e` places and then by `s` more is shifting it by `e + s`. */
  lemma ShiftBack(m: nat, e: nat, s: nat)
    ensures Shift(m, e) * Pow10(s) == m * Pow10(e + s)
  {
    Pow10Add(e, s);
    MulAssoc(m, Pow10(e), Pow10(s));
  }

  // ---------------------------------------------------------------------------
  // Small-value mode: `toPrecision(digits)`

  /** The zeros the `/[1-9]/` search skips bound the value: it is below `10^-z` when that search returns `z`. */
  lemma FractionZerosBound(x: Decimal)
    requires Normalized(x) && x.scale > 0 && BelowOne(x)
    ensures 0 <= FirstNonZero(FractionText(x)) < x.scale
    ensures Abs(x.mant) < Pow10(x.scale - FirstNonZero(FractionText(x)))
  {
    FractionFirstNonZero(x);
    LenBounds(Abs(x.mant));
  }

  /** Below one, the search stops at the leading digit of the magnitude, after the fraction's leading zeros. */
  lemma FractionFirstNonZero(x: Decimal)
    requires Normalized(x) && x.scale > 0 && BelowOne(x)
    ensures Len(Abs(x.mant)) <= x.scale
    ensures FirstNonZero(FractionText(x)) == x.scale - Len(Abs(x.mant))
  {
    var m := Abs(x.mant);
    FractionLeadingZeros(x);
    assert m >= 1;
    FirstDigitNonZero(m);
    FirstNonZeroFinds(FractionText(x));
  }

  /** Below one, the fraction digits are zeros and then the digits of the magnitude. */
  lemma FractionLeadingZeros(x: Decimal)
    requires Normalized(x) && x.scale > 0 && BelowOne(x)
    ensures Len(Abs(x.mant)) <= x.scale
    ensures forall j :: 0 <= j < x.scale - Len(Abs(x.mant)) ==> FractionText(x)[j] == '0'
    ensures Len(Abs(x.mant)) >= 1 && FractionText(x)[x.scale - Len(Abs(x.mant))] == NatToString(Abs(x.mant))[0]
  {
    var m, s := Abs(x.mant), x.scale;
    assert 1 <= m < Pow10(s);
    LowDigitsOf(m, s);
    var digits, z := NatToString(m), Zeros(s - Len(m));
    var f := FractionText(x);
    assert f == z + digits;
    forall j | 0 <= j < s - |digits|
      ensures f[j] == '0'
    {
      assert f[j] == z[j];
    }
    assert f[s - |digits|] == digits[0];
  }

  /** The last `k` digits of a positive number below `10^k` are its digits after `k - Len(m)` zeros. */
  lemma {:induction false} LowDigitsOf(m: nat, k: nat)
    requires 1 <= m < Pow10(k)
    ensures Len(m) <= k && LowDigits(m, k) == Zeros(k - Len(m)) + NatToString(m)
    decreases k
  {
    LenAtMost(m, k);
    if m < 10 {
      LowDigitsZero(k - 1);
      LowDigitsStep(m, k, Zeros(k - 1), []);
    } else {
      LowDigitsOf(m / 10, k - 1);
      LowDigitsStep(m, k, Zeros(k - 1 - Len(m / 10)), NatToString(m / 10));
      assert NatToString(m) == NatToString(m / 10) + [DigitChar(m % 10)];
    }
  }

  /** One more digit: the last digit of `m` follows the last `k - 1` digits of `m / 10`. */
  lemma LowDigitsStep(m: nat, k: nat, a: string, b: string)
    requires k >= 1 && LowDigits(m / 10, k - 1) == a + b
    ensures LowDigits(m, k) == a + (b + [DigitChar(m % 10)])
  {
    assert LowDigits(m, k) == (a + b) + [DigitChar(m % 10)];
  }

  /** The last `k` digits of zero are `k` zeros. */
  lemma {:induction false} LowDigitsZero(k: nat)
    ensures LowDigits(0, k) == Zeros(k)
  {
    if k > 0 {
      LowDigitsZero(k - 1);
      assert DigitChar(0) == '0';
      assert LowDigits(0, k) == Zeros(k - 1) + ['0'];
    }
  }

  /** The leading digit of a positive number is not zero. */
  lemma FirstDigitNonZero(m: nat)
    requires m >= 1
    ensures '1' <= NatToString(m)[0] <= '9'
  {
    if m < 10 {
      NonZeroDigitChar(m);
    }
  }

  /** The number of digits of `m` is `n` when `10^(n-1) <= m < 10^n`. */
  lemma LenOf(m: nat, n: nat)
    requires n >= 1 && Pow10(n - 1) <= m < Pow10(n)
    ensures Len(m) == n
  {
    LenBounds(m);
    if Len(m) < n {
      Pow10Monotonic(Len(m), n - 1);
    } else if Len(m) > n {
      Pow10Monotonic(n, Len(m) - 1);
    }
  }

  lemma MulLeq(a: int, b: int, c: nat)
    requires a <= b
    ensures a * c <= b * c
  {
  }

  lemma MulAssoc(a: int, b: int, c: int)
    ensures a * b * c == a * (b * c)
  {
  }

  /** Scaling `m` (with `n <= sd` digits) by `10^(sd - n)` gives `sd` significant digits. */
  lemma WidenDigits(m: nat, n: nat, sd: nat, s: nat)
    requires 1 <= n <= sd && Pow10(n - 1) <= m < Pow10(n)
    ensures var r := Shift(m, sd - n);
      Pow10(sd - 1) <= r < Pow10(sd) && r * Pow10(s) == m * Pow10(sd - n + s)
  {
    var e, lo, hi := Pow10(sd - n), Pow10(n - 1), Pow10(n);
    assert lo * e == Pow10(sd - 1) by {
      Pow10Add(n - 1, sd - n);
    }
    assert hi * e == Pow10(sd) by {
      Pow10Add(n, sd - n);
    }
    MulLeq(lo, m, e);
    MulLeq(m + 1, hi, e);
    assert (m + 1) * e == m * e + e;
    assert e * Pow10(s) == Pow10(sd - n + s) by {
      Pow10Add(sd - n, s);
    }
    MulAssoc(m, e, Pow10(s));
  }

  /**
   * `toPrecision(sd)` prints the digits `r` with `dec` fraction places, `r` being exactly the
   * value (no rounding) and holding `sd` significant digits.
   */
  predicate PrintsUnrounded(x: Decimal, sd: nat)
    requires sd >= 1
  {
    var m, dec := Abs(x.mant), sd - 1 - Exponent(x);
    dec >= 0 &&
    var r := RoundHalfUp(m, x.scale, dec);
    PrecisionParts(x, sd) == Some(FixedParts(x.mant < 0, r, dec)) &&
    r * Pow10(x.scale) == m * Pow10(dec) &&
    r < Pow10(sd) && (m != 0 ==> Pow10(sd - 1) <= r)
  }

  /** At most `sd` significant digits, or exactly `10^sd` units of a fraction place. */
  predicate FewDigits(x: Decimal, sd: nat)
  {
    Abs(x.mant) < Pow10(sd) || (Abs(x.mant) == Pow10(sd) && x.scale >= 1)
  }

  /**
   * `toPrecision(sd)` of a value with at most `sd` significant digits, or of exactly `10^sd`
   * units of its last place, prints it without rounding, with `sd` significant digits.
   */
  lemma PrecisionOfFew(x: Decimal, sd: nat)
    requires sd >= 1
    requires FewDigits(x, sd)
    ensures PrintsUnrounded(x, sd)
  {
    var m := Abs(x.mant);
    if m == 0 {
      PrecisionOfZero(x, sd);
    } else if m < Pow10(sd) {
      PrecisionOfNarrow(x, sd);
    } else {
      PrecisionOfCarried(x, sd);
    }
  }

  /** Zero prints as `0` followed by `sd - 1` zero fraction digits. */
  lemma PrecisionOfZero(x: Decimal, sd: nat)
    requires sd >= 1 && x.mant == 0
    ensures PrintsUnrounded(x, sd)
  {
    var s, dec := x.scale, sd - 1;
    if s > dec {
      assert 0 / Pow10(s - dec) == 0 && 0 % Pow10(s - dec) == 0;
    }
    assert RoundHalfUp(0, s, dec) == 0;
  }

  /** A non-zero magnitude of at most `sd` digits is printed exactly, widened to `sd` digits. */
  lemma PrecisionOfNarrow(x: Decimal, sd: nat)
    requires sd >= 1 && 1 <= Abs(x.mant) < Pow10(sd)
    ensures PrintsUnrounded(x, sd)
  {
    var m, s := Abs(x.mant), x.scale;
    LenAtMost(m, sd);
    var dec := sd - 1 - Exponent(x);
    var r := RoundHalfUp(m, s, dec);
    assert Pow10(sd - 1) <= r < Pow10(sd) && r * Pow10(s) == m * Pow10(dec) by {
      NarrowUnrounded(m, s, sd, dec);
    }
    assert PrecisionParts(x, sd) == Some(FixedParts(x.mant < 0, r, dec)) by {
      PrecisionNoCarry(x, sd, dec, r);
    }
  }

  /** A magnitude of at most `sd` digits, rounded at `sd - len + s` places, is only shifted. */
  lemma NarrowUnrounded(m: nat, s: nat, sd: nat, dec: nat)
    requires sd >= 1 && 1 <= m < Pow10(sd) && dec == sd - Len(m) + s
    ensures var r := RoundHalfUp(m, s, dec);
      Pow10(sd - 1) <= r < Pow10(sd) && r * Pow10(s) == m * Pow10(dec)
  {
    var n := Len(m);
    LenAtMost(m, sd);
    LenBounds(m);
    RoundsExactly(m, s, dec);
    WidenDigits(m, n, sd, s);
  }

  /** Rounding at no fewer places than the value has only appends zeros. */
  lemma RoundsExactly(m: nat, s: nat, k: nat)
    requires s <= k
    ensures RoundHalfUp(m, s, k) == Shift(m, k - s)
  {
  }

  /** Without a carry `toPrecision(sd)` prints the magnitude rounded at `sd - 1 - e` places, `e` the exponent. */
  lemma PrecisionNoCarry(x: Decimal, sd: nat, dec: nat, r: nat)
    requires sd >= 1 && dec == sd - 1 - Exponent(x)
    requires r == RoundHalfUp(Abs(x.mant), x.scale, dec) && r != Pow10(sd)
    ensures PrecisionParts(x, sd) == Some(FixedParts(x.mant < 0, r, dec))
  {
  }

  /** A number below `10^k` has at most `k` digits. */
  lemma LenAtMost(m: nat, k: nat)
    requires 1 <= m < Pow10(k)
    ensures Len(m) <= k
  {
    LenBounds(m);
    if Len(m) > k {
      Pow10Monotonic(k, Len(m) - 1);
    }
  }

  /** A magnitude of exactly `10^sd` units of a fraction place prints as `10^(sd-1)` at one place fewer. */
  lemma PrecisionOfCarried(x: Decimal, sd: nat)
    requires sd >= 1 && Abs(x.mant) == Pow10(sd) && x.scale >= 1
    ensures PrintsUnrounded(x, sd)
  {
    CarriedPlaces(x, sd);
    CarriedRoundsDown(Abs(x.mant), x.scale, sd);
    UnroundedFrom(x, sd, x.scale - 1, Pow10(sd - 1));
  }

  /** Digits `r` at `dec` places that equal the value exactly and number `sd` print it unrounded. */
  lemma UnroundedFrom(x: Decimal, sd: nat, dec: nat, r: nat)
    requires sd >= 1 && dec == sd - 1 - Exponent(x) && r == RoundHalfUp(Abs(x.mant), x.scale, dec)
    requires r * Pow10(x.scale) == Abs(x.mant) * Pow10(dec)
    requires r < Pow10(sd) && Pow10(sd - 1) <= r
    ensures PrintsUnrounded(x, sd)
  {
    PrecisionNoCarry(x, sd, dec, r);
  }

  /** A magnitude of exactly `10^sd` has exponent `sd - scale`. */
  lemma CarriedPlaces(x: Decimal, sd: nat)
    requires sd >= 1 && Abs(x.mant) == Pow10(sd) && x.scale >= 1
    ensures sd - 1 - Exponent(x) == x.scale - 1
  {
    LenOf(Abs(x.mant), sd + 1);
  }

  /** `10^sd` at scale `s` rounded at `s - 1` places is `10^(sd-1)`, exactly. */
  lemma CarriedRoundsDown(m: nat, s: nat, sd: nat)
    requires sd >= 1 && m == Pow10(sd) && s >= 1
    ensures RoundHalfUp(m, s, s - 1) == Pow10(sd - 1)
    ensures Pow10(sd - 1) * Pow10(s) == m * Pow10(s - 1)
    ensures Pow10(sd - 1) < Pow10(sd)
  {
    var h := Pow10(sd - 1);
    assert m == 10 * h;
    assert RoundHalfUp(m, s, s - 1) == h by {
      assert Pow10(1) == 10;
    }
    assert h * Pow10(s) == m * Pow10(s - 1) by {
      Pow10Add(sd - 1, s);
      Pow10Add(sd, s - 1);
      assert Pow10(sd - 1 + s) == Pow10(sd + (s - 1));
    }
    Pow10Monotonic(sd - 1, sd);
  }

  /**
   * The value small-value mode floors keeps at most `digits` significant digits, or, when
   * flooring a negative value carries, is exactly `10^digits` units of its last place.
   */
  lemma SmallFloorFew(bn: Decimal, digits: nat)
    requires Normalized(bn) && BelowOne(bn) && digits >= 1
    ensures FewDigits(PreFormat(bn, digits, true, true), digits)
  {
    if bn.scale <= digits {
      assert PreFormat(bn, digits, true, true) == bn;
      Pow10Monotonic(bn.scale, digits);
    } else {
      SmallFlooredFew(bn, digits);
    }
  }

  /** With more than `digits` places, the floored value keeps at most `digits` significant digits. */
  lemma SmallFlooredFew(bn: Decimal, digits: nat)
    requires Normalized(bn) && BelowOne(bn) && digits >= 1 && bn.scale > digits
    ensures FewDigits(PreFormat(bn, digits, true, true), digits)
  {
    SmallFloorsAt(bn, digits);
    FractionZerosBound(bn);
    FloorFew(bn, digits, FirstNonZero(FractionText(bn)));
  }

  /** With more than `digits` places, small-value mode floors at `digits` places past the leading zeros. */
  lemma SmallFloorsAt(bn: Decimal, digits: nat)
    requires Normalized(bn) && bn.scale > digits
    ensures PreFormat(bn, digits, true, true) == FloorTo(bn, digits + FirstNonZero(FractionText(bn)))
  {
    FractionSearchFinds(bn);
  }

  /** Flooring a value below `10^-z` to `digits + z` places leaves at most `10^digits` units. */
  lemma FloorFew(x: Decimal, digits: nat, z: nat)
    requires digits >= 1 && z < x.scale && Abs(x.mant) < Pow10(x.scale - z)
    ensures FewDigits(FloorTo(x, digits + z), digits)
  {
    var s, k := x.scale, digits + z;
    if k >= s {
      Pow10Monotonic(s - z, digits);
    } else {
      var c := Pow10(s - k);
      FloorToBounds(x, k);
      Pow10Split(digits, s - k, s - z);
      FlooredFew(x.mant, FloorTo(x, k).mant, c, Pow10(digits), Pow10(s - z));
    }
  }

  /** Below the value's own places, `FloorTo` keeps `k` places and lies within one unit below. */
  lemma FloorToBounds(x: Decimal, k: nat)
    requires k < x.scale
    ensures var r, c := FloorTo(x, k), Pow10(x.scale - k);
      r.scale == k && r.mant * c <= x.mant < r.mant * c + c
  {
    var r := FloorTo(x, k);
    assert AtScale(r, x.scale) == r.mant * Pow10(x.scale - k);
  }

  /** `10^(a+b)` is `10^a * 10^b`, for a sum given by name. */
  lemma Pow10Split(a: nat, b: nat, n: nat)
    requires n == a + b
    ensures Pow10(n) == Pow10(a) * Pow10(b)
  {
    Pow10Add(a, b);
  }

  /** The floor `pm` (in units of `c`) of a value below `top * c` in magnitude is at most `top` in magnitude. */
  lemma FlooredFew(bm: int, pm: int, c: nat, top: nat, bound: nat)
    requires c >= 1 && top >= 1 && bound == top * c
    requires Abs(bm) < bound && pm * c <= bm < pm * c + c
    ensures Abs(pm) <= top
  {
    ScaledWithinOne(pm, bm, c, top);
  }

  /**
   * In small-value mode with floor rounding, `toPrecision(digits)` prints the floored value
   * exactly: the printed digits `r` with `dec` fraction places equal the floored value, which
   * never exceeds the input, and they hold `digits` significant digits.
   */
  lemma SmallFloorPrintsFloored(d: Decimal, opts: Options)
    requires opts.floorRounding && opts.significantFractionInSmallValue
    requires BelowOne(Normalize(d)) && opts.digits >= 1
    ensures var bn := Normalize(d); var pre := PreFormat(bn, opts.digits, true, true);
      PrintedParts(d, opts) == PrecisionParts(pre, opts.digits) &&
      PrintsUnrounded(pre, opts.digits) &&
      AtScale(pre, bn.scale) <= bn.mant
  {
    var bn := Normalize(d);
    var pre := PreFormat(bn, opts.digits, true, true);
    assert PrintedParts(d, opts) == PrecisionParts(pre, opts.digits);
    assert FewDigits(pre, opts.digits) by {
      SmallFloorFew(bn, opts.digits);
    }
    PrecisionOfFew(pre, opts.digits);
  }

  /** `m / p` rounded half up lies within half a unit of `m / p`, ties going up. */
  lemma DivideHalfUpNearest(m: nat, p: nat)
    requires p >= 1
    ensures var r := DivideHalfUp(m, p); (2 * r - 1) * p <= 2 * m < (2 * r + 1) * p
  {
    var q, rem := m / p, m % p;
    assert m == q * p + rem;
    if 2 * rem >= p {
      assert (2 * (q + 1) - 1) * p == 2 * (q * p) + p;
      assert (2 * (q + 1) + 1) * p == 2 * (q * p) + 3 * p;
    } else {
      assert (2 * q - 1) * p == 2 * (q * p) - p;
      assert (2 * q + 1) * p == 2 * (q * p) + p;
    }
  }

  /** A value within half a unit of `10^sd` units stays within half a unit at one place fewer. */
  lemma CarryNearest(m: nat, p: nat, sd: nat)
    requires p >= 1 && sd >= 1
    requires (2 * Pow10(sd) - 1) * p <= 2 * m < (2 * Pow10(sd) + 1) * p
    ensures (2 * Pow10(sd - 1) - 1) * (10 * p) <= 2 * m < (2 * Pow10(sd - 1) + 1) * (10 * p)
  {
    var h := Pow10(sd - 1);
    assert Pow10(sd) == 10 * h;
    assert (2 * h - 1) * (10 * p) == (2 * Pow10(sd) - 1) * p - 9 * p;
    assert (2 * h + 1) * (10 * p) == (2 * Pow10(sd) + 1) * p + 9 * p;
  }

  /** Rounding `m` (with `n > sd` digits) to `sd` digits gives between `10^(sd-1)` and `10^sd`. */
  lemma NarrowDigits(m: nat, n: nat, sd: nat)
    requires 1 <= sd < n && Pow10(n - 1) <= m < Pow10(n)
    ensures Pow10(sd - 1) <= DivideHalfUp(m, Pow10(n - sd)) <= Pow10(sd)
  {
    var p := Pow10(n - sd);
    DivideHalfUpNearest(m, p);
    Pow10Split(sd, n - sd, n);
    Pow10Split(sd - 1, n - sd, n - 1);
    HalfUpBetween(m, DivideHalfUp(m, p), p, Pow10(sd - 1), Pow10(sd));
  }

  /** A quotient rounded half up of a value between `a * p` and `b * p` lies between `a` and `b`. */
  lemma HalfUpBetween(m: int, r: int, p: int, a: int, b: int)
    requires p >= 1 && (2 * r - 1) * p <= 2 * m < (2 * r + 1) * p
    requires a * p <= m < b * p
    ensures a <= r <= b
  {
    assert (2 * a) * p == 2 * (a * p);
    CancelLess(2 * a, 2 * r + 1, p);
    assert (2 * b) * p == 2 * (b * p);
    CancelLess(2 * r - 1, 2 * b, p);
  }

  /**
   * `v` units of `10^-k` are `x` rounded half up at `k` places (exactly `x` when it has no more
   * places), with `sd` significant digits.
   */
  predicate RoundedAt(x: Decimal, v: nat, k: nat, sd: nat)
    requires sd >= 1
  {
    var m, s := Abs(x.mant), x.scale;
    (k >= s ==> v * Pow10(s) == m * Pow10(k)) &&
    (k < s ==> (2 * v - 1) * Pow10(s - k) <= 2 * m < (2 * v + 1) * Pow10(s - k)) &&
    (m != 0 ==> Pow10(sd - 1) <= v < Pow10(sd))
  }

  /** The parts `p` show `x` with its sign, rounded half up at `|p.frac|` places to `sd` significant digits. */
  predicate RoundedHalfUp(x: Decimal, p: Parts, sd: nat)
    requires sd >= 1
  {
    p.neg == (x.mant < 0) && AllDigits(p.whole + p.frac) && RoundedAt(x, ReadNat(p.whole + p.frac), |p.frac|, sd)
  }

  /** `toPrecision(sd)` of a value below one in magnitude rounds it half up to `sd` significant digits. */
  lemma PrecisionRoundsHalfUp(x: Decimal, sd: nat)
    requires sd >= 1 && BelowOne(x)
    ensures PrecisionParts(x, sd).Some? && RoundedHalfUp(x, PrecisionParts(x, sd).value, sd)
  {
    var m := Abs(x.mant);
    if m == 0 {
      PrecisionZeroRounds(x, sd);
    } else if m < Pow10(sd) {
      PrecisionNarrowRounds(x, sd);
    } else {
      PrecisionWideRounds(x, sd);
    }
  }

  /** The zero case of `PrecisionRoundsHalfUp`. */
  lemma PrecisionZeroRounds(x: Decimal, sd: nat)
    requires sd >= 1 && x.mant == 0
    ensures PrecisionParts(x, sd).Some? && RoundedHalfUp(x, PrecisionParts(x, sd).value, sd)
  {
    PrecisionOfZeroParts(x, sd);
    ZeroShown(x, sd);
  }

  /** Zero shows as `0` with `sd - 1` zero fraction digits, whatever its scale. */
  lemma ZeroShown(x: Decimal, sd: nat)
    requires sd >= 1 && x.mant == 0
    ensures RoundedHalfUp(x, FixedParts(false, 0, sd - 1), sd)
  {
    if x.scale <= sd - 1 {
      ZeroShownExactly(x, sd);
    } else {
      ZeroShownRounded(x, sd);
    }
  }

  /** Zero at no more than `sd - 1` places is shown exactly. */
  lemma ZeroShownExactly(x: Decimal, sd: nat)
    requires sd >= 1 && x.mant == 0 && x.scale <= sd - 1
    ensures RoundedHalfUp(x, FixedParts(false, 0, sd - 1), sd)
  {
    ShownExactly(x, sd, 0, sd - 1);
  }

  /** Zero at more than `sd - 1` places is within half a unit of the zero shown. */
  lemma ZeroShownRounded(x: Decimal, sd: nat)
    requires sd >= 1 && x.mant == 0 && x.scale > sd - 1
    ensures RoundedHalfUp(x, FixedParts(false, 0, sd - 1), sd)
  {
    ShownRounded(x, sd, 0, sd - 1);
  }

  /** The parts `toPrecision(sd)` prints for zero. */
  lemma PrecisionOfZeroParts(x: Decimal, sd: nat)
    requires sd >= 1 && x.mant == 0
    ensures PrecisionParts(x, sd) == Some(FixedParts(false, 0, sd - 1))
  {
    PrecisionOfZero(x, sd);
  }

  /** The case of `PrecisionRoundsHalfUp` with at most `sd` digits: nothing is dropped. */
  lemma PrecisionNarrowRounds(x: Decimal, sd: nat)
    requires sd >= 1 && 1 <= Abs(x.mant) < Pow10(sd)
    ensures PrecisionParts(x, sd).Some? && RoundedHalfUp(x, PrecisionParts(x, sd).value, sd)
  {
    NarrowShown(x, sd);
    var dec := sd - 1 - Exponent(x);
    PrecisionNoCarry(x, sd, dec, RoundHalfUp(Abs(x.mant), x.scale, dec));
  }

  /** A magnitude of at most `sd` digits is shown exactly, at no fewer places than its scale. */
  lemma NarrowShown(x: Decimal, sd: nat)
    requires sd >= 1 && 1 <= Abs(x.mant) < Pow10(sd)
    ensures var dec := sd - 1 - Exponent(x);
      dec >= x.scale && RoundHalfUp(Abs(x.mant), x.scale, dec) < Pow10(sd) &&
      RoundedHalfUp(x, FixedParts(x.mant < 0, RoundHalfUp(Abs(x.mant), x.scale, dec), dec), sd)
  {
    var m, s := Abs(x.mant), x.scale;
    LenAtMost(m, sd);
    var dec := sd - 1 - Exponent(x);
    var r := RoundHalfUp(m, s, dec);
    assert Pow10(sd - 1) <= r < Pow10(sd) && r * Pow10(s) == m * Pow10(dec) by {
      NarrowUnrounded(m, s, sd, dec);
    }
    ShownExactly(x, sd, r, dec);
  }

  /** Digits `r` at `dec >= scale` places that equal `x` exactly, with `sd` significant digits, show `x` rounded. */
  lemma ShownExactly(x: Decimal, sd: nat, r: nat, dec: nat)
    requires sd >= 1 && dec >= x.scale && r * Pow10(x.scale) == Abs(x.mant) * Pow10(dec)
    requires Abs(x.mant) != 0 ==> Pow10(sd - 1) <= r < Pow10(sd)
    ensures RoundedHalfUp(x, FixedParts(x.mant < 0, r, dec), sd)
  {
    assert RoundedAt(x, r, dec, sd);
    FixedPartsDenote(x.mant < 0, r, dec);
  }

  /** Digits `r` at `dec < scale` places within half a unit of `x`, with `sd` significant digits, show `x` rounded. */
  lemma ShownRounded(x: Decimal, sd: nat, r: nat, dec: nat)
    requires sd >= 1 && dec < x.scale
    requires (2 * r - 1) * Pow10(x.scale - dec) <= 2 * Abs(x.mant) < (2 * r + 1) * Pow10(x.scale - dec)
    requires Abs(x.mant) != 0 ==> Pow10(sd - 1) <= r < Pow10(sd)
    ensures RoundedHalfUp(x, FixedParts(x.mant < 0, r, dec), sd)
  {
    assert RoundedAt(x, r, dec, sd);
    FixedPartsDenote(x.mant < 0, r, dec);
  }

  /** The case of `PrecisionRoundsHalfUp` with more than `sd` digits: digits are dropped, possibly with a carry. */
  lemma PrecisionWideRounds(x: Decimal, sd: nat)
    requires sd >= 1 && BelowOne(x) && Abs(x.mant) >= Pow10(sd)
    ensures PrecisionParts(x, sd).Some? && RoundedHalfUp(x, PrecisionParts(x, sd).value, sd)
  {
    WideBounds(x, sd);
    var dec := sd - 1 - Exponent(x);
    var r := RoundHalfUp(Abs(x.mant), x.scale, dec);
    if r == Pow10(sd) {
      WideCarriedRounds(x, sd, dec, r);
    } else {
      WideUncarriedRounds(x, sd, dec, r);
    }
  }

  /** The wide case when rounding carries to `10^sd`. */
  lemma WideCarriedRounds(x: Decimal, sd: nat, dec: nat, r: nat)
    requires sd >= 1 && BelowOne(x) && Abs(x.mant) >= Pow10(sd) && dec == sd - 1 - Exponent(x)
    requires r == RoundHalfUp(Abs(x.mant), x.scale, dec) && r == Pow10(sd)
    ensures PrecisionParts(x, sd).Some? && RoundedHalfUp(x, PrecisionParts(x, sd).value, sd)
  {
    WideShownCarried(x, sd, dec);
    PrecisionCarry(x, sd, dec, r);
  }

  /** The wide case when rounding does not carry. */
  lemma WideUncarriedRounds(x: Decimal, sd: nat, dec: nat, r: nat)
    requires sd >= 1 && BelowOne(x) && Abs(x.mant) >= Pow10(sd) && dec == sd - 1 - Exponent(x)
    requires r == RoundHalfUp(Abs(x.mant), x.scale, dec) && r != Pow10(sd)
    ensures PrecisionParts(x, sd).Some? && RoundedHalfUp(x, PrecisionParts(x, sd).value, sd)
  {
    PrecisionNoCarry(x, sd, dec, r);
    WideShown(x, sd);
  }

  /** A magnitude of more than `sd` digits is rounded at one place or more, to at most `10^sd`. */
  lemma WideBounds(x: Decimal, sd: nat)
    requires sd >= 1 && BelowOne(x) && Abs(x.mant) >= Pow10(sd)
    ensures var dec := sd - 1 - Exponent(x); dec >= 1 && RoundHalfUp(Abs(x.mant), x.scale, dec) <= Pow10(sd)
  {
    assert x.mant != 0;
    WideFacts(Abs(x.mant), x.scale, sd, sd - 1 - Exponent(x));
  }

  /** Without a carry, the rounded digits of a wide magnitude show it rounded half up. */
  lemma WideShown(x: Decimal, sd: nat)
    requires sd >= 1 && BelowOne(x) && Abs(x.mant) >= Pow10(sd) && sd - 1 - Exponent(x) >= 0
    requires RoundHalfUp(Abs(x.mant), x.scale, sd - 1 - Exponent(x)) != Pow10(sd)
    ensures var dec := sd - 1 - Exponent(x);
      RoundedHalfUp(x, FixedParts(x.mant < 0, RoundHalfUp(Abs(x.mant), x.scale, dec), dec), sd)
  {
    var m, s := Abs(x.mant), x.scale;
    var dec := sd - 1 - Exponent(x);
    assert RoundedHalfUp(x, FixedParts(x.mant < 0, RoundHalfUp(m, s, dec), dec), sd) by {
      assert x.mant != 0;
      WideFacts(m, s, sd, dec);
      ShownRounded(x, sd, RoundHalfUp(m, s, dec), dec);
    }
  }

  /** With a carry to `10^sd`, `10^(sd-1)` at one place fewer shows a wide magnitude rounded half up. */
  lemma WideShownCarried(x: Decimal, sd: nat, dec: nat)
    requires sd >= 1 && BelowOne(x) && Abs(x.mant) >= Pow10(sd) && dec == sd - 1 - Exponent(x)
    requires RoundHalfUp(Abs(x.mant), x.scale, dec) == Pow10(sd)
    ensures dec >= 1 && RoundedHalfUp(x, FixedParts(x.mant < 0, Pow10(sd - 1), dec - 1), sd)
  {
    CarriedFacts(x, sd, dec);
    ShownRounded(x, sd, Pow10(sd - 1), dec - 1);
  }

  /** The facts `ShownRounded` needs about a carried wide magnitude, in terms of `x`. */
  lemma CarriedFacts(x: Decimal, sd: nat, dec: nat)
    requires sd >= 1 && BelowOne(x) && Abs(x.mant) >= Pow10(sd) && dec == sd - 1 - Exponent(x)
    requires RoundHalfUp(Abs(x.mant), x.scale, dec) == Pow10(sd)
    ensures 1 <= dec && dec - 1 < x.scale
    ensures (2 * Pow10(sd - 1) - 1) * Pow10(x.scale - (dec - 1)) <= 2 * Abs(x.mant)
    ensures 2 * Abs(x.mant) < (2 * Pow10(sd - 1) + 1) * Pow10(x.scale - (dec - 1))
    ensures Pow10(sd - 1) < Pow10(sd)
  {
    assert x.mant != 0;
    CarriedHalfUnit(Abs(x.mant), x.scale, sd, dec);
  }

  /** A carry to `10^sd` at `dec` places is `10^(sd-1)` within half a unit at `dec - 1` places. */
  lemma CarriedHalfUnit(m: nat, s: nat, sd: nat, dec: nat)
    requires sd >= 1 && Pow10(sd) <= m < Pow10(s) && dec == sd - Len(m) + s
    requires RoundHalfUp(m, s, dec) == Pow10(sd)
    ensures 1 <= dec <= s
    ensures var p := Pow10(s - (dec - 1));
      (2 * Pow10(sd - 1) - 1) * p <= 2 * m < (2 * Pow10(sd - 1) + 1) * p
    ensures Pow10(sd - 1) < Pow10(sd)
  {
    WideFacts(m, s, sd, dec);
    var p := Pow10(s - dec);
    CarryNearest(m, p, sd);
    Pow10Split(1, s - dec, s - (dec - 1));
    Pow10Monotonic(sd - 1, sd);
  }

  /** When rounding carries to `10^sd`, `toPrecision(sd)` prints `10^(sd-1)` at one place fewer. */
  lemma PrecisionCarry(x: Decimal, sd: nat, dec: nat, r: nat)
    requires sd >= 1 && dec == sd - 1 - Exponent(x) && dec >= 1
    requires r == RoundHalfUp(Abs(x.mant), x.scale, dec) && r == Pow10(sd)
    ensures PrecisionParts(x, sd) == Some(FixedParts(x.mant < 0, Pow10(sd - 1), dec - 1))
  {
    Pow10Tenth(sd);
  }

  /** A tenth of `10^sd` is `10^(sd-1)`. */
  lemma Pow10Tenth(sd: nat)
    requires sd >= 1
    ensures Pow10(sd) / 10 == Pow10(sd - 1)
  {
    var h := Pow10(sd - 1);
    assert Pow10(sd) == 10 * h;
  }

  /** A magnitude of more than `sd` digits is rounded half up, at `sd - len + s < s` places, to `sd` digits or to `10^sd`. */
  lemma WideFacts(m: nat, s: nat, sd: nat, dec: int)
    requires sd >= 1 && Pow10(sd) <= m < Pow10(s) && dec == sd - Len(m) + s
    ensures dec >= sd && s > dec
    ensures var r, p := RoundHalfUp(m, s, dec), Pow10(s - dec);
      Pow10(sd - 1) <= r <= Pow10(sd) && (2 * r - 1) * p <= 2 * m < (2 * r + 1) * p
  {
    var n := Len(m);
    LenBounds(m);
    LenAtMost(m, s);
    if n <= sd {
      Pow10Monotonic(n, sd);
    }
    var p := Pow10(n - sd);
    assert s - dec == n - sd;
    assert RoundHalfUp(m, s, dec) == DivideHalfUp(m, p);
    NarrowDigits(m, n, sd);
    DivideHalfUpNearest(m, p);
  }

  /**
   * In small-value mode without floor rounding, the text is `toPrecision(digits)` of the value
   * itself: rounded half up to `digits` significant digits.
   */
  lemma SmallPrintsRounded(d: Decimal, opts: Options)
    requires !opts.floorRounding && opts.significantFractionInSmallValue
    requires BelowOne(Normalize(d)) && opts.digits >= 1
    ensures PrintedParts(d, opts) == PrecisionParts(Normalize(d), opts.digits)
    ensures PrintedParts(d, opts).Some? && RoundedHalfUp(Normalize(d), PrintedParts(d, opts).value, opts.digits)
  {
    var bn := Normalize(d);
    assert PrintedParts(d, opts) == PrecisionParts(bn, opts.digits);
    PrecisionRoundsHalfUp(bn, opts.digits);
  }
}
