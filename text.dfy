/**
 * Decimal text for the formatter: integers as the `${n}` template writes them,
 * and `numberToString`, which takes the fixed-point rendering of a number of
 * seconds with nine fraction digits and strips its trailing zeros and a bare
 * separator. Amounts are whole nanoseconds here, so the fixed-point text is
 * built from an integer instead of from a floating-point value.
 */
module Text {
  import opened Wrappers

  /** The decimal separator and the minus sign of the duration library. */
  const Separator: char := '.'
  const Minus: char := '-'

  /** Nanoseconds per second, and the nine fraction digits that stand for them. */
  const FractionDigits: nat := 9
  const Billion: nat := 1_000_000_000

  predicate IsDigit(c: char)
  {
    '0' <= c <= '9'
  }

  predicate AllDigits(s: string)
  {
    forall i :: 0 <= i < |s| ==> IsDigit(s[i])
  }

  function Digit(d: nat): (c: char)
    requires d < 10
    ensures IsDigit(c)
  {
    ('0' as int + d) as char
  }

  function DigitValue(c: char): (d: nat)
    requires IsDigit(c)
    ensures d < 10
  {
    c as int - '0' as int
  }

  function Pow10(k: nat): (p: nat)
    ensures p >= 1
  {
    if k == 0 then 1 else 10 * Pow10(k - 1)
  }

  /** The value of a string of decimal digits, most significant first. */
  function DigitsValue(s: string): nat
    requires AllDigits(s)
  {
    if |s| == 0 then 0 else DigitsValue(s[..|s| - 1]) * 10 + DigitValue(s[|s| - 1])
  }

  /** The decimal digits of `n` without leading zeros, as `${n}` writes them. */
  function NatToString(n: nat): (s: string)
    ensures |s| >= 1 && AllDigits(s)
    ensures n > 0 ==> s[0] != '0'
  {
    if n < 10 then [Digit(n)] else NatToString(n / 10) + [Digit(n % 10)]
  }

  /** A signed integer as `${n}` writes it. */
  function IntToString(i: int): (s: string)
    ensures |s| >= 1
    ensures s[0] == Minus <==> i < 0
  {
    if i < 0 then [Minus] + NatToString(-i) else NatToString(i)
  }

  /** Appending a digit multiplies the value by ten and adds the digit. */
  lemma DigitsValueSnoc(s: string, c: char)
    requires AllDigits(s) && IsDigit(c)
    ensures AllDigits(s + [c])
    ensures DigitsValue(s + [c]) == DigitsValue(s) * 10 + DigitValue(c)
  {
    assert (s + [c])[..|s|] == s;
  }

  /** Reading the digits of `n` gives `n` back. */
  lemma {:induction false} NatToStringValue(n: nat)
    ensures DigitsValue(NatToString(n)) == n
  {
    if n >= 10 {
      var q, r := n / 10, n % 10;
      NatToStringValue(q);
      DigitsValueSnoc(NatToString(q), Digit(r));
      assert DigitValue(Digit(r)) == r;
      assert n == q * 10 + r;
    }
  }

  /** The last `width` decimal digits of `n`, zero-padded on the left. */
  function PadDigits(n: nat, width: nat): (s: string)
    ensures |s| == width && AllDigits(s)
  {
    if width == 0 then [] else PadDigits(n / 10, width - 1) + [Digit(n % 10)]
  }

  /** A number below `10^width` reads back from its padded digits. */
  lemma {:induction false} PadDigitsValue(n: nat, width: nat)
    requires n < Pow10(width)
    ensures DigitsValue(PadDigits(n, width)) == n
  {
    if width > 0 {
      var q, r := n / 10, n % 10;
      assert n == q * 10 + r;
      assert q < Pow10(width - 1);
      PadDigitsValue(q, width - 1);
      DigitsValueSnoc(PadDigits(q, width - 1), Digit(r));
      assert DigitValue(Digit(r)) == r;
    }
  }

  /** `toFixed(9)` of a non-negative amount of `m` nanoseconds read as seconds. */
  function FixedUnsigned(m: nat): string
  {
    NatToString(m / Billion) + [Separator] + PadDigits(m % Billion, FractionDigits)
  }

  /**
   * `toFixed(9)` of `n` nanoseconds read as seconds: the sign, the whole
   * seconds, the separator and exactly nine fraction digits.
   */
  function FixedSeconds(n: int): string
  {
    if n < 0 then [Minus] + FixedUnsigned(-n) else FixedUnsigned(n)
  }

  /** `s` without its trailing `'0'` characters. */
  function TrimZeros(s: string): (t: string)
    ensures |t| <= |s| && t == s[..|t|]
    ensures forall i :: |t| <= i < |s| ==> s[i] == '0'
    ensures |t| == 0 || t[|t| - 1] != '0'
  {
    if |s| > 0 && s[|s| - 1] == '0' then TrimZeros(s[..|s| - 1]) else s
  }

  /**
   * What `numberToString` returns for a fixed-point text: when it contains
   * the separator, the trailing zeros are dropped, and then the separator too
   * if nothing follows it; other texts are returned as they are.
   */
  function Trimmed(s: string): string
  {
    if Separator !in s then s else DropSeparator(TrimZeros(s))
  }

  /** `t` without a separator at its end. */
  function DropSeparator(t: string): string
  {
    if |t| > 0 && t[|t| - 1] == Separator then t[..|t| - 1] else t
  }

  /**
   * The trimming loop of `numberToString`: when the text holds the separator,
   * counts the trailing zeros, counts a separator left at the end as well,
   * and slices them off.
   */
  method TrimFraction(s: string) returns (r: string)
    ensures r == Trimmed(s)
  {
    r := s;
    if Separator in s {
      var lastIndex := |s| - 1;
      var zeroCount := 0;
      assert s[..|s|] == s;
      while zeroCount <= lastIndex && s[lastIndex - zeroCount] == '0'
        invariant 0 <= zeroCount <= |s|
        invariant TrimZeros(s[..|s| - zeroCount]) == TrimZeros(s)
      {
        assert s[..|s| - zeroCount - 1] == s[..|s| - zeroCount][..|s| - zeroCount - 1];
        zeroCount := zeroCount + 1;
      }
      var t := s[..|s| - zeroCount];
      assert TrimZeros(t) == t;
      if zeroCount <= lastIndex && s[lastIndex - zeroCount] == Separator {
        zeroCount := zeroCount + 1;
      }
      if zeroCount > 0 {
        r := s[..|s| - zeroCount];
      }
    }
  }

  /**
   * `numberToString` with its default of nine digits: renders the amount
   * with a fixed nine-digit fraction and trims it.
   */
  method NumberToString(nanoseconds: int) returns (r: string)
    ensures r == Trimmed(FixedSeconds(nanoseconds))
  {
    r := TrimFraction(FixedSeconds(nanoseconds));
  }

  /** The position of the first separator, or the length when there is none. */
  function FindSeparator(s: string): (i: nat)
    ensures i <= |s|
    ensures i < |s| ==> s[i] == Separator
    ensures Separator !in s[..i]
  {
    if |s| == 0 || s[0] == Separator then 0 else 1 + FindSeparator(s[1..])
  }

  /**
   * The value of whole seconds and, when present, one to nine fraction
   * digits, in nanoseconds.
   */
  function ReadParts(whole: string, fraction: Option<string>): Option<int>
  {
    if |whole| == 0 || !AllDigits(whole) then None
    else match fraction
      case None => Some(DigitsValue(whole) * Billion)
      case Some(f) =>
        if 1 <= |f| <= FractionDigits && AllDigits(f)
        then Some(DigitsValue(whole) * Billion + DigitsValue(f) * Pow10(FractionDigits - |f|))
        else None
  }

  /**
   * Reads an unsigned seconds text, whole digits with an optional separator
   * and fraction digits, as nanoseconds.
   */
  function ReadUnsigned(s: string): Option<int>
  {
    var i := FindSeparator(s);
    ReadParts(s[..i], if i == |s| then None else Some(s[i + 1..]))
  }

  /** Reads a seconds text with an optional minus sign as nanoseconds. */
  function ReadSeconds(s: string): Option<int>
  {
    if |s| > 0 && s[0] == Minus then
      match ReadUnsigned(s[1..])
      case Some(v) => Some(-v)
      case None => None
    else ReadUnsigned(s)
  }

  /** Dropping trailing zeros from a digit string divides its value by a power of ten. */
  lemma {:induction false} TrimZerosValue(f: string)
    requires AllDigits(f)
    ensures AllDigits(TrimZeros(f))
    ensures DigitsValue(f) == DigitsValue(TrimZeros(f)) * Pow10(|f| - |TrimZeros(f)|)
  {
    if |f| > 0 && f[|f| - 1] == '0' {
      var g := f[..|f| - 1];
      var t := TrimZeros(g);
      assert TrimZeros(f) == t;
      TrimZerosValue(g);
      assert f == g + ['0'];
      DigitsValueSnoc(g, '0');
      var k := |g| - |t|;
      assert |f| - |t| == k + 1;
      MulShift(DigitsValue(t), Pow10(k));
    }
  }

  lemma MulShift(a: int, b: int)
    ensures (a * b) * 10 == a * (10 * b)
  {
  }

  /** Trailing zeros are trimmed within the last part of a text that does not consist of zeros only. */
  lemma {:induction false} TrimZerosAppend(a: string, b: string)
    requires exists i :: 0 <= i < |b| && b[i] != '0'
    ensures TrimZeros(a + b) == a + TrimZeros(b)
  {
    if b[|b| - 1] == '0' {
      var b' := b[..|b| - 1];
      var i :| 0 <= i < |b| && b[i] != '0';
      assert b'[i] != '0';
      assert (a + b)[..|a + b| - 1] == a + b';
      TrimZerosAppend(a, b');
    }
  }

  /** A text whose last part is zeros only trims to the trimmed first part. */
  lemma {:induction false} TrimZerosAppendZeros(a: string, b: string)
    requires forall i :: 0 <= i < |b| ==> b[i] == '0'
    ensures TrimZeros(a + b) == TrimZeros(a)
  {
    if |b| > 0 {
      var b' := b[..|b| - 1];
      assert (a + b)[..|a + b| - 1] == a + b';
      TrimZerosAppendZeros(a, b');
    } else {
      assert a + b == a;
    }
  }

  /** The separator is found right after a run of digits. */
  lemma SeparatorAfterDigits(w: string, rest: string)
    requires AllDigits(w)
    ensures FindSeparator(w + [Separator] + rest) == |w|
    ensures FindSeparator(w) == |w|
  {
    var s := w + [Separator] + rest;
    assert s[|w|] == Separator;
    assert forall k :: 0 <= k < |w| ==> s[k] == w[k] && IsDigit(w[k]);
    assert Separator !in w;
  }

  /** Whole digits alone read as whole seconds. */
  lemma ReadWhole(w: string, v: int)
    requires |w| >= 1 && AllDigits(w)
    requires v == DigitsValue(w) * Billion
    ensures ReadUnsigned(w) == Some(v)
  {
    SeparatorAfterDigits(w, []);
    assert w[..|w|] == w;
  }

  /** Whole digits, the separator and one to nine fraction digits read as their value. */
  lemma ReadFixed(w: string, t: string, v: int)
    requires |w| >= 1 && AllDigits(w) && AllDigits(t) && 1 <= |t| <= FractionDigits
    requires v == DigitsValue(w) * Billion + DigitsValue(t) * Pow10(FractionDigits - |t|)
    ensures ReadUnsigned(w + [Separator] + t) == Some(v)
  {
    var s := w + [Separator] + t;
    SeparatorAfterDigits(w, t);
    assert s[..|w|] == w;
    assert s[|w| + 1..] == t;
    assert ReadUnsigned(s) == ReadParts(w, Some(t));
    ReadPartsFixed(w, t, v);
  }

  lemma ReadPartsFixed(w: string, t: string, v: int)
    requires |w| >= 1 && AllDigits(w) && AllDigits(t) && 1 <= |t| <= FractionDigits
    requires v == DigitsValue(w) * Billion + DigitsValue(t) * Pow10(FractionDigits - |t|)
    ensures ReadParts(w, Some(t)) == Some(v)
  {
  }

  /**
   * Whole digits, the separator and a fraction of nine digits read back,
   * after trimming, as the value they spell.
   */
  lemma TrimmedFixedValue(w: string, f: string, v: int)
    requires |w| >= 1 && AllDigits(w) && AllDigits(f) && |f| == FractionDigits
    requires v == DigitsValue(w) * Billion + DigitsValue(f)
    ensures ReadUnsigned(Trimmed(w + [Separator] + f)) == Some(v)
  {
    if |TrimZeros(f)| > 0 {
      TrimmedFraction(w, f, v);
    } else {
      TrimmedWhole(w, f, v);
    }
  }

  /** A fraction with a non-zero digit keeps the separator and its trimmed digits. */
  lemma TrimmedFraction(w: string, f: string, v: int)
    requires |w| >= 1 && AllDigits(w) && AllDigits(f) && |f| == FractionDigits
    requires v == DigitsValue(w) * Billion + DigitsValue(f)
    requires |TrimZeros(f)| > 0
    ensures ReadUnsigned(Trimmed(w + [Separator] + f)) == Some(v)
  {
    var u := w + [Separator] + f;
    var t := TrimZeros(f);
    assert AllDigits(t) && 1 <= |t| <= FractionDigits
      && v == DigitsValue(w) * Billion + DigitsValue(t) * Pow10(FractionDigits - |t|) by {
      TrimZerosValue(f);
      assert Pow10(|f| - |t|) == Pow10(FractionDigits - |t|);
    }
    FractionKept(w, f);
    ReadFixed(w, t, v);
  }

  /** Trimming stops inside a fraction that has a non-zero digit. */
  lemma FractionKept(w: string, f: string)
    requires AllDigits(TrimZeros(f)) && |TrimZeros(f)| > 0
    ensures Trimmed(w + [Separator] + f) == w + [Separator] + TrimZeros(f)
  {
    var u := w + [Separator] + f;
    var t := TrimZeros(f);
    assert u[|w|] == Separator;
    assert f[|t| - 1] != '0';
    TrimZerosAppend(w + [Separator], f);
    assert IsDigit(t[|t| - 1]);
  }

  /** A fraction of zeros only is dropped together with the separator. */
  lemma TrimmedWhole(w: string, f: string, v: int)
    requires |w| >= 1 && AllDigits(w) && AllDigits(f) && |f| == FractionDigits
    requires v == DigitsValue(w) * Billion + DigitsValue(f)
    requires |TrimZeros(f)| == 0
    ensures ReadUnsigned(Trimmed(w + [Separator] + f)) == Some(v)
  {
    var u := w + [Separator] + f;
    TrimZerosValue(f);
    assert Trimmed(u) == w by {
      assert u[|w|] == Separator;
      TrimZerosAppendZeros(w + [Separator], f);
      assert (w + [Separator])[..|w|] == w;
    }
    ReadWhole(w, v);
  }

  /** The unsigned text of `m` nanoseconds, after trimming, reads back as `m`. */
  lemma UnsignedRoundTrip(m: nat)
    ensures ReadUnsigned(Trimmed(FixedUnsigned(m))) == Some(m)
  {
    var w := NatToString(m / Billion);
    var f := PadDigits(m % Billion, FractionDigits);
    assert Pow10(FractionDigits) == Billion;
    NatToStringValue(m / Billion);
    PadDigitsValue(m % Billion, FractionDigits);
    assert DigitsValue(w) * Billion + DigitsValue(f) == m;
    TrimmedFixedValue(w, f, m);
  }

  /** Trimming leaves a leading sign in place. */
  lemma TrimmedSigned(u: string)
    requires Separator in u && IsDigit(u[0])
    ensures Trimmed([Minus] + u) == [Minus] + Trimmed(u)
  {
    var t := TrimZeros(u);
    assert Separator in [Minus] + u && TrimZeros([Minus] + u) == [Minus] + t && |t| > 0 by {
      var i :| 0 <= i < |u| && u[i] == Separator;
      assert |t| > i;
      TrimZerosAppend([Minus], u);
      assert ([Minus] + u)[i + 1] == Separator;
    }
    calc {
      Trimmed([Minus] + u);
      DropSeparator([Minus] + t);
      { DropSeparatorSigned(t); }
      [Minus] + DropSeparator(t);
    }
  }

  lemma DropSeparatorSigned(t: string)
    requires |t| > 0
    ensures DropSeparator([Minus] + t) == [Minus] + DropSeparator(t)
  {
    if t[|t| - 1] == Separator {
      assert ([Minus] + t)[..|t|] == [Minus] + t[..|t| - 1];
    }
  }

  /** The unsigned fixed text starts with a digit and holds the separator. */
  lemma FixedUnsignedShape(m: nat)
    ensures Separator in FixedUnsigned(m) && IsDigit(FixedUnsigned(m)[0])
  {
    assert FixedUnsigned(m)[|NatToString(m / Billion)|] == Separator;
  }

  /** Trimming a text that starts with a digit and holds the separator keeps its first character. */
  lemma TrimmedKeepsFirst(u: string)
    requires Separator in u && IsDigit(u[0])
    ensures |Trimmed(u)| > 0 && Trimmed(u)[0] == u[0]
  {
    var i :| 0 <= i < |u| && u[i] == Separator;
    var t := TrimZeros(u);
    assert |t| > i >= 1;
  }

  /**
   * The seconds text `toString` writes for an amount of nanoseconds reads back
   * as that amount: trimming loses no digit that carries a value.
   */
  lemma SecondsTextRoundTrip(n: int)
    ensures ReadSeconds(Trimmed(FixedSeconds(n))) == Some(n)
  {
    var m: nat := if n < 0 then -n else n;
    var u := FixedUnsigned(m);
    UnsignedRoundTrip(m);
    FixedUnsignedShape(m);
    TrimmedKeepsFirst(u);
    if n < 0 {
      assert FixedSeconds(n) == [Minus] + u;
      TrimmedSigned(u);
      assert ([Minus] + Trimmed(u))[1..] == Trimmed(u);
    } else {
      assert FixedSeconds(n) == u;
    }
  }

  /** Digits and separators only. */
  predicate UnsignedChars(s: string)
  {
    forall i :: 0 <= i < |s| ==> IsDigit(s[i]) || s[i] == Separator
  }

  /** The characters a number is written with: a minus only in front, then digits and separators. */
  predicate NumberChars(s: string)
  {
    forall i :: 0 <= i < |s| ==> IsDigit(s[i]) || s[i] == Separator || (i == 0 && s[i] == Minus)
  }

  lemma SignedChars(u: string)
    requires UnsignedChars(u)
    ensures NumberChars([Minus] + u)
  {
    forall i | 1 <= i < |u| + 1
      ensures IsDigit(([Minus] + u)[i]) || ([Minus] + u)[i] == Separator
    {
      assert ([Minus] + u)[i] == u[i - 1];
    }
  }

  /** An integer is written as an optional minus and digits. */
  lemma IntToStringChars(i: int)
    ensures NumberChars(IntToString(i))
  {
    if i < 0 {
      SignedChars(NatToString(-i));
    }
  }

  /** Trimming only ever cuts characters off the end. */
  lemma TrimmedPrefix(s: string)
    ensures |Trimmed(s)| <= |s| && Trimmed(s) == s[..|Trimmed(s)|]
  {
    if Separator in s {
      var t := TrimZeros(s);
      assert DropSeparator(t) == t[..|DropSeparator(t)|];
    }
  }

  /** The fixed text of a non-negative amount is digits and one separator. */
  lemma FixedUnsignedChars(m: nat)
    ensures UnsignedChars(FixedUnsigned(m))
  {
    var w, f := NatToString(m / Billion), PadDigits(m % Billion, FractionDigits);
    var u := FixedUnsigned(m);
    forall i | 0 <= i < |u|
      ensures IsDigit(u[i]) || u[i] == Separator
    {
      if i < |w| {
        assert u[i] == w[i];
      } else if |w| < i {
        assert u[i] == f[i - |w| - 1];
      }
    }
  }

  /**
   * The seconds text `numberToString` returns is never empty, starts with the
   * minus exactly when the amount is negative, and holds only digits and
   * separators after it.
   */
  lemma SecondsTextShape(n: int)
    ensures |Trimmed(FixedSeconds(n))| >= 1
    ensures Trimmed(FixedSeconds(n))[0] == Minus <==> n < 0
    ensures NumberChars(Trimmed(FixedSeconds(n)))
  {
    var m: nat := if n < 0 then -n else n;
    var u := FixedUnsigned(m);
    FixedUnsignedShape(m);
    TrimmedKeepsFirst(u);
    FixedUnsignedChars(m);
    TrimmedPrefix(u);
    var t := Trimmed(u);
    assert UnsignedChars(t) by {
      forall i | 0 <= i < |t|
        ensures IsDigit(t[i]) || t[i] == Separator
      {
        assert t[i] == u[i];
      }
    }
    if n < 0 {
      assert FixedSeconds(n) == [Minus] + u;
      TrimmedSigned(u);
      SignedChars(t);
    } else {
      assert FixedSeconds(n) == u;
    }
  }
}
