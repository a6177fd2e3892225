/**
 * The pieces of Swift's standard library that the timer code leans on when it
 * reads text: `split(separator:)`, `Int(_: String)`, a decimal subset of
 * `Double(_: String)`, string interpolation of an `Int`, and
 * `firstIndex(of:)` / `contains(_:)` on arrays.
 */
module SwiftText {
  import opened Wrappers

  const Int64Min: int := -0x8000_0000_0000_0000
  const Int64Max: int := 0x7FFF_FFFF_FFFF_FFFF

  /** Swift's `Int` is 64 bits wide on every platform the timer runs on. */
  predicate InInt64(n: int) {
    Int64Min <= n <= Int64Max
  }

  /** 2^53: every integer of at most this magnitude is exactly a binary64 `Double`. */
  const DoubleExactLimit: int := 0x20_0000_0000_0000

  predicate ExactInDouble(n: int) {
    -DoubleExactLimit <= n <= DoubleExactLimit
  }

  // ---------------------------------------------------------------------------
  // split(separator:)
  // ---------------------------------------------------------------------------

  /** Length of the longest prefix of `s` that does not contain `sep`. */
  function PieceLength(s: string, sep: char): (n: nat)
    ensures n <= |s|
    ensures sep !in s[..n]
    ensures n < |s| ==> s[n] == sep
  {
    if s == [] || s[0] == sep then 0
    else
      var k := PieceLength(s[1..], sep);
      assert s[..k + 1] == [s[0]] + s[1..][..k];
      k + 1
  }

  /** `s` with every occurrence of `sep` taken out: the reference for what `Split` keeps. */
  function Without(s: string, sep: char): (r: string)
    ensures sep !in r
  {
    if s == [] then []
    else (if s[0] == sep then [] else [s[0]]) + Without(s[1..], sep)
  }

  /** All pieces glued together. */
  function Concat(pieces: seq<string>): string {
    if pieces == [] then [] else pieces[0] + Concat(pieces[1..])
  }

  /** A prefix free of `sep` survives `Without` unchanged. */
  lemma {:induction false} WithoutPrefix(s: string, sep: char, n: nat)
    requires n <= |s| && sep !in s[..n]
    ensures Without(s, sep) == s[..n] + Without(s[n..], sep)
  {
    if n > 0 {
      assert s[0] == s[..n][0];
      assert sep !in s[1..][..n - 1] by {
        assert s[1..][..n - 1] == s[..n][1..];
      }
      WithoutPrefix(s[1..], sep, n - 1);
      assert s[1..][n - 1..] == s[n..];
      assert s[..n] == [s[0]] + s[1..][..n - 1];
    }
  }

  /**
   * Swift's `split(separator:)` with its default `omittingEmptySubsequences: true`:
   * the maximal runs of characters other than `sep`, in order. Empty pieces
   * (from a leading, trailing or doubled separator) are dropped.
   */
  function Split(s: string, sep: char): (pieces: seq<string>)
    ensures forall i :: 0 <= i < |pieces| ==> pieces[i] != [] && sep !in pieces[i]
    ensures Concat(pieces) == Without(s, sep)
    decreases |s|
  {
    if s == [] then []
    else if s[0] == sep then Split(s[1..], sep)
    else
      var n := PieceLength(s, sep);
      WithoutPrefix(s, sep, n);
      [s[..n]] + Split(s[n..], sep)
  }

  /** A piece that ends inside `a` ends at the same place whatever follows `a`. */
  lemma {:induction false} PieceLengthStops(a: string, rest: string, sep: char)
    requires PieceLength(a, sep) < |a|
    ensures PieceLength(a + rest, sep) == PieceLength(a, sep)
  {
    assert (a + rest)[0] == a[0];
    if a[0] != sep {
      assert (a + rest)[1..] == a[1..] + rest;
      PieceLengthStops(a[1..], rest, sep);
    }
  }

  /** A separator-free prefix is read whole before the piece ends. */
  lemma {:induction false} PieceLengthPrefix(a: string, rest: string, sep: char)
    requires sep !in a
    ensures PieceLength(a + rest, sep) == |a| + PieceLength(rest, sep)
  {
    if a != [] {
      assert (a + rest)[0] == a[0];
      assert (a + rest)[1..] == a[1..] + rest;
      PieceLengthPrefix(a[1..], rest, sep);
    } else {
      assert a + rest == rest;
    }
  }

  /** A non-empty, separator-free string is one piece. */
  lemma SplitOne(b: string, sep: char)
    requires b != [] && sep !in b
    ensures Split(b, sep) == [b]
  {
    PieceLengthPrefix(b, [], sep);
    assert b + [] == b;
    assert b[0] != sep;
    assert b[..|b|] == b;
    assert b[|b|..] == [];
  }

  /** Two separator-free, non-empty pieces joined by one separator split back into themselves. */
  lemma SplitTwo(a: string, b: string, sep: char)
    requires a != [] && b != [] && sep !in a && sep !in b
    ensures Split(a + [sep] + b, sep) == [a, b]
  {
    var s := a + [sep] + b;
    var t := [sep] + b;
    assert s == a + t;
    PieceLengthPrefix(a, t, sep);
    assert PieceLength(t, sep) == 0;
    assert s[0] == a[0];
    assert s[..|a|] == a;
    assert s[|a|..] == t;
    assert Split(s, sep) == [a] + Split(t, sep);
    assert t[1..] == b;
    SplitOne(b, sep);
  }

  /**
   * Splitting at one separator splits each side on its own: with `Split([], sep) == []`
   * and `SplitOne`, this fixes the pieces of every string.
   */
  lemma {:induction false} SplitAtSeparator(a: string, b: string, sep: char)
    ensures Split(a + [sep] + b, sep) == Split(a, sep) + Split(b, sep)
    decreases |a|
  {
    var s := a + [sep] + b;
    if a == [] {
      assert s[0] == sep && s[1..] == b;
    } else if a[0] == sep {
      assert s[0] == sep && s[1..] == a[1..] + [sep] + b;
      SplitAtSeparator(a[1..], b, sep);
    } else {
      var k := PieceLength(a, sep);
      assert s[0] == a[0];
      if k < |a| {
        PieceLengthStops(a, [sep] + b, sep);
        assert s == a + ([sep] + b);
        assert s[..k] == a[..k];
        assert s[k..] == a[k..] + [sep] + b;
        SplitAtSeparator(a[k..], b, sep);
      } else {
        PieceLengthPrefix(a, [sep] + b, sep);
        assert s == a + ([sep] + b);
        assert PieceLength([sep] + b, sep) == 0;
        assert s[..|a|] == a;
        assert s[|a|..] == [sep] + b;
        assert ([sep] + b)[1..] == b;
        SplitOne(a, sep);
      }
    }
  }

  // ---------------------------------------------------------------------------
  // Int(_: String) and "\(n)"
  // ---------------------------------------------------------------------------

  predicate IsDigit(c: char) {
    '0' <= c <= '9'
  }

  /** A character that may appear in the decimal notation of a number. */
  predicate IsNumberChar(c: char) {
    IsDigit(c) || c == '+' || c == '-' || c == '.'
  }

  predicate AllDigits(s: string) {
    forall i :: 0 <= i < |s| ==> IsDigit(s[i])
  }

  function DigitValue(c: char): (d: nat)
    requires IsDigit(c)
    ensures d < 10
  {
    c as int - '0' as int
  }

  function DigitChar(d: nat): (c: char)
    requires d < 10
    ensures IsDigit(c) && DigitValue(c) == d
  {
    ('0' as int + d) as char
  }

  /** The value of a run of decimal digits, most significant first. */
  function DigitsValue(s: string): nat
    requires AllDigits(s)
  {
    if s == [] then 0 else DigitsValue(s[..|s| - 1]) * 10 + DigitValue(s[|s| - 1])
  }

  /** Splits an optional leading `+` or `-` off `s`; the flag says whether it was `-`. */
  function SignAndBody(s: string): (r: (bool, string))
    ensures r.0 ==> |s| > 0 && s[0] == '-' && r.1 == s[1..]
    ensures !r.0 ==> r.1 == s || (|s| > 0 && s[0] == '+' && r.1 == s[1..])
  {
    if |s| > 0 && (s[0] == '+' || s[0] == '-') then (s[0] == '-', s[1..]) else (false, s)
  }

  /**
   * Swift's `Int(_: String)`: an optional sign followed by one or more ASCII
   * digits, nothing else, and a value that fits in 64 bits; otherwise `nil`.
   */
  function ParseInt(s: string): (r: Option<int>)
    ensures r.Some? ==> InInt64(r.value)
    ensures r.Some? ==> s != [] && (IsDigit(s[0]) || s[0] == '+' || s[0] == '-')
    ensures r.Some? ==> SignAndBody(s).1 != [] && AllDigits(SignAndBody(s).1)
    ensures r.Some? && s[0] == '-' ==> r.value <= 0
    ensures r.Some? && s[0] != '-' ==> r.value >= 0
  {
    var (negative, body) := SignAndBody(s);
    if body == [] || !AllDigits(body) then None
    else
      var v: int := if negative then 0 - DigitsValue(body) else DigitsValue(body);
      if InInt64(v) then Some(v) else None
  }

  /** The decimal digits of `n`, most significant first, without leading zeros. */
  function NatString(n: nat): (s: string)
    ensures s != [] && AllDigits(s)
    ensures s[0] == '0' <==> n == 0
  {
    if n < 10 then [DigitChar(n)] else NatString(n / 10) + [DigitChar(n % 10)]
  }

  /** String interpolation `"\(n)"` of an `Int`: digits without leading zeros, after a `-` when negative. */
  function DecimalString(n: int): (s: string)
    ensures s != []
    ensures n >= 0 ==> AllDigits(s) && (s[0] == '0' ==> s == "0")
    ensures n < 0 ==> |s| > 1 && s[0] == '-' && AllDigits(s[1..]) && s[1] != '0'
  {
    if n < 0 then "-" + NatString(-n) else NatString(n)
  }

  lemma {:induction false} NatStringValue(n: nat)
    ensures DigitsValue(NatString(n)) == n
  {
    if n >= 10 {
      NatStringValue(n / 10);
      var s := NatString(n);
      assert s[..|s| - 1] == NatString(n / 10);
    }
  }

  /** Reading back what `"\(n)"` printed gives `n`. */
  lemma ParseIntDecimal(n: int)
    requires InInt64(n)
    ensures ParseInt(DecimalString(n)) == Some(n)
  {
    var m: nat := if n < 0 then -n else n;
    NatStringValue(m);
    var s := DecimalString(n);
    if n < 0 {
      assert s[1..] == NatString(m);
    } else {
      assert IsDigit(s[0]);
    }
  }

  /** Appending a digit to a run of digits shifts its value one place. */
  lemma DigitsValueSnoc(s: string, c: char)
    requires AllDigits(s) && IsDigit(c)
    ensures AllDigits(s + [c]) && DigitsValue(s + [c]) == DigitsValue(s) * 10 + DigitValue(c)
  {
    assert (s + [c])[..|s|] == s;
  }

  /** A leading zero does not change the value of a run of digits. */
  lemma {:induction false} LeadingZeroValue(d: string)
    requires AllDigits(d)
    ensures AllDigits("0" + d) && DigitsValue("0" + d) == DigitsValue(d)
    decreases |d|
  {
    if d != [] {
      var init := d[..|d| - 1];
      LeadingZeroValue(init);
      assert "0" + d == ("0" + init) + [d[|d| - 1]];
      DigitsValueSnoc("0" + init, d[|d| - 1]);
      assert d == init + [d[|d| - 1]];
    }
  }

  /** `Int(_:)` reads digits after a leading zero, with or without a sign, as the digits alone. */
  lemma LeadingZeroIgnored(sign: string, d: string)
    requires sign == "" || sign == "+" || sign == "-"
    requires d != [] && AllDigits(d)
    ensures ParseInt(sign + "0" + d) == ParseInt(sign + d)
  {
    LeadingZeroValue(d);
    assert SignAndBody(sign + "0" + d).1 == "0" + d;
    assert SignAndBody(sign + d).1 == d;
  }

  /** `Int(_:)` reads digits after a `+` as the digits alone. */
  lemma PlusIgnored(d: string)
    requires AllDigits(d)
    ensures ParseInt("+" + d) == ParseInt(d)
  {
    assert SignAndBody("+" + d).1 == d;
    if d != [] {
      assert IsDigit(d[0]);
    }
  }

  // ---------------------------------------------------------------------------
  // Double(_: String), decimal notation only
  // ---------------------------------------------------------------------------

  function Pow10(k: nat): (p: nat)
    ensures p >= 1
  {
    if k == 0 then 1 else 10 * Pow10(k - 1)
  }

  /** No `+` or `-` after the first character. */
  predicate SignOnlyFirst(s: string) {
    forall i :: 0 < i < |s| ==> s[i] != '+' && s[i] != '-'
  }

  /** At most one `.` in the text. */
  predicate AtMostOnePoint(s: string) {
    forall i, j :: 0 <= i < j < |s| && s[i] == '.' ==> s[j] != '.'
  }

  /** At least one digit in the text. */
  predicate HasDigit(s: string) {
    exists i :: 0 <= i < |s| && IsDigit(s[i])
  }

  /** Digits, then possibly a `.` and digits: the point, if any, is the only one, and some digit is there. */
  lemma PointOnlyAfterWhole(body: string, k: nat)
    requires k == PieceLength(body, '.')
    requires AllDigits(body[..k])
    requires k < |body| ==> AllDigits(body[k + 1..])
    requires k > 0 || k + 1 < |body|
    ensures AtMostOnePoint(body) && HasDigit(body)
  {
    assert forall i :: 0 <= i < k ==> body[i] == body[..k][i];
    assert forall i :: k < i < |body| ==> body[i] == body[k + 1..][i - k - 1];
    if k > 0 {
      assert IsDigit(body[..k][0]);
    } else {
      assert IsDigit(body[k + 1..][0]);
    }
  }

  /** The shape of the unsigned part carries over to the text with its optional sign. */
  lemma ShapeAfterSign(s: string, body: string)
    requires body == s || (|s| > 0 && (s[0] == '+' || s[0] == '-') && body == s[1..])
    requires forall i :: 0 <= i < |body| ==> IsDigit(body[i]) || body[i] == '.'
    requires AtMostOnePoint(body) && HasDigit(body)
    ensures SignOnlyFirst(s) && AtMostOnePoint(s) && HasDigit(s)
  {
    var d :| 0 <= d < |body| && IsDigit(body[d]);
    if body == s {
      assert IsDigit(s[d]);
    } else {
      assert forall i :: 0 < i < |s| ==> s[i] == body[i - 1];
      assert IsDigit(s[d + 1]);
    }
  }

  /**
   * The unsigned part of the notation: digits, optionally a `.` and more
   * digits, with at least one digit in all.
   */
  function UnsignedDecimal(body: string): (r: Option<real>)
    ensures r.Some? ==> body != [] && forall i :: 0 <= i < |body| ==> IsDigit(body[i]) || body[i] == '.'
    ensures r.Some? ==> AtMostOnePoint(body) && HasDigit(body)
    ensures r.Some? ==> r.value >= 0.0
  {
    var k := PieceLength(body, '.');
    var whole := body[..k];
    var fraction := if k < |body| then body[k + 1..] else [];
    if |whole| + |fraction| == 0 || !AllDigits(whole) || !AllDigits(fraction) then None
    else
      assert forall i :: k < i < |body| ==> body[i] == fraction[i - k - 1];
      PointOnlyAfterWhole(body, k);
      Some(DigitsValue(whole) as real + DigitsValue(fraction) as real / Pow10(|fraction|) as real)
  }

  /**
   * The decimal notation accepted by Swift's `Double(_: String)`: an optional
   * sign, then the unsigned notation. The value is exact (no rounding to a
   * binary double).
   */
  function ParseNumber(s: string): (r: Option<real>)
    ensures r.Some? ==> s != [] && forall i :: 0 <= i < |s| ==> IsNumberChar(s[i])
    ensures r.Some? ==> SignOnlyFirst(s) && AtMostOnePoint(s) && HasDigit(s)
    ensures r.Some? && s[0] == '-' ==> r.value <= 0.0
    ensures r.Some? && s[0] != '-' ==> r.value >= 0.0
  {
    var (negative, body) := SignAndBody(s);
    match UnsignedDecimal(body)
    case None => None
    case Some(magnitude) =>
      assert |s| > |body| ==> forall i :: 0 < i < |s| ==> s[i] == body[i - 1];
      ShapeAfterSign(s, body);
      Some(if negative then -magnitude else magnitude)
  }

  /** The value of two runs of digits written one after the other. */
  lemma {:induction false} DigitsValueConcat(w: string, f: string)
    requires AllDigits(w) && AllDigits(f)
    ensures AllDigits(w + f) && DigitsValue(w + f) == DigitsValue(w) * Pow10(|f|) + DigitsValue(f)
    decreases |f|
  {
    if f == [] {
      assert w + f == w;
    } else {
      var init := f[..|f| - 1];
      var c := f[|f| - 1];
      assert f == init + [c];
      assert w + f == (w + init) + [c];
      DigitsValueConcat(w, init);
      DigitsValueSnoc(w + init, c);
      DigitsValueSnoc(init, c);
      assert Pow10(|f|) == 10 * Pow10(|init|);
      ShiftDigit(DigitsValue(w), Pow10(|init|), DigitsValue(init), DigitValue(c));
    }
  }

  /** One more digit shifts a whole part and its tail together. */
  lemma ShiftDigit(a: nat, p: nat, b: nat, d: nat)
    ensures (a * p + b) * 10 + d == a * (10 * p) + (b * 10 + d)
  {
  }

  /** Where the point falls in `w.f`, and the two runs on either side of it. */
  lemma PointAfterWhole(w: string, f: string)
    requires AllDigits(w)
    ensures PieceLength(w + "." + f, '.') == |w|
    ensures (w + "." + f)[..|w|] == w && (w + "." + f)[|w| + 1..] == f
  {
    var body := w + "." + f;
    assert '.' !in w;
    PieceLengthPrefix(w, "." + f, '.');
    assert body == w + ("." + f);
    assert PieceLength("." + f, '.') == 0;
  }

  /** A whole part plus a scaled fraction is the joined digits scaled. */
  lemma ScaledFraction(a: nat, b: nat, p: nat)
    requires p >= 1
    ensures a as real + b as real / p as real == (a * p + b) as real / p as real
  {
  }

  /**
   * A decimal with a point, `w.f`, is read as the digits `w f` scaled down by
   * one place per fraction digit; `w` or `f` may be empty, not both.
   */
  lemma ParseNumberFraction(w: string, f: string)
    requires AllDigits(w) && AllDigits(f) && |w| + |f| > 0
    ensures AllDigits(w + f)
    ensures ParseNumber(w + "." + f) == Some(DigitsValue(w + f) as real / Pow10(|f|) as real)
  {
    var body := w + "." + f;
    assert body[0] == if w != [] then w[0] else '.';
    ParseNumberParts(body, w, f);
    JoinedFraction(w, f);
  }

  /** The whole part plus the scaled fraction, as one scaled run of digits. */
  lemma JoinedFraction(w: string, f: string)
    requires AllDigits(w) && AllDigits(f)
    ensures AllDigits(w + f)
    ensures DigitsValue(w) as real + DigitsValue(f) as real / Pow10(|f|) as real
      == DigitsValue(w + f) as real / Pow10(|f|) as real
  {
    DigitsValueConcat(w, f);
    ScaledFraction(DigitsValue(w), DigitsValue(f), Pow10(|f|));
  }

  /** `Double(_:)` on unsigned `w.f`: the whole part plus the scaled fraction. */
  lemma ParseNumberParts(body: string, w: string, f: string)
    requires body == w + "." + f && body[0] != '+' && body[0] != '-'
    requires AllDigits(w) && AllDigits(f) && |w| + |f| > 0
    ensures ParseNumber(body) == Some(DigitsValue(w) as real + DigitsValue(f) as real / Pow10(|f|) as real)
  {
    PointAfterWhole(w, f);
    assert UnsignedDecimal(body) == Some(DigitsValue(w) as real + DigitsValue(f) as real / Pow10(|f|) as real);
    assert SignAndBody(body) == (false, body);
  }

  /** A `-` before unsigned text negates what `Double(_:)` reads. */
  lemma ParseNumberNegate(t: string)
    requires t != [] && t[0] != '+' && t[0] != '-'
    ensures ParseNumber("-" + t) == if ParseNumber(t).Some? then Some(-ParseNumber(t).value) else None
  {
    assert ("-" + t)[1..] == t;
    assert SignAndBody("-" + t) == (true, t);
    assert SignAndBody(t) == (false, t);
  }

  /** Seconds such as `"1.5"` are read as written. */
  lemma OneAndAHalfExample()
    ensures ParseNumber("1.5") == Some(1.5)
  {
    ParseNumberFraction("1", "5");
    assert "1" + "." + "5" == "1.5";
    FifteenDigits();
  }

  lemma FifteenDigits()
    ensures AllDigits("1" + "5") && DigitsValue("1" + "5") == 15
  {
    assert "1" + "5" == "15";
    assert "15"[..1] == "1";
  }

  /** Text with a second point, a sign inside, or no digit is refused, as `Double(_:)` refuses it. */
  lemma MalformedNumbersRefused()
    ensures ParseNumber("1.2.3") == None
    ensures ParseNumber("1-2") == None
    ensures ParseNumber("+-1") == None
    ensures ParseNumber("-.") == None
  {
    assert !AtMostOnePoint("1.2.3") by {
      assert "1.2.3"[1] == '.' && "1.2.3"[3] == '.';
    }
    assert !SignOnlyFirst("1-2") by {
      assert "1-2"[1] == '-';
    }
    assert !SignOnlyFirst("+-1") by {
      assert "+-1"[1] == '-';
    }
    assert !HasDigit("-.") by {
      assert !IsDigit("-."[0]) && !IsDigit("-."[1]);
    }
  }

  lemma DigitsHaveNoPoint(s: string)
    requires AllDigits(s)
    ensures PieceLength(s, '.') == |s|
  {
    assert '.' !in s;
    PieceLengthPrefix(s, [], '.');
    assert s + [] == s;
  }

  /**
   * Every string `Int(_:)` accepts is read by `Double(_:)` as the same number,
   * for values a `Double` holds exactly.
   */
  lemma ParseNumberExtendsParseInt(s: string)
    requires ParseInt(s).Some? && ExactInDouble(ParseInt(s).value)
    ensures ParseNumber(s) == Some(ParseInt(s).value as real)
  {
    var (negative, body) := SignAndBody(s);
    DigitsHaveNoPoint(body);
    assert body[..|body|] == body;
  }

  /** Reading back what `"\(n)"` printed, as a `Double`, gives `n` when a `Double` holds `n` exactly. */
  lemma ParseNumberDecimal(n: int)
    requires ExactInDouble(n)
    ensures ParseNumber(DecimalString(n)) == Some(n as real)
  {
    ParseIntDecimal(n);
    ParseNumberExtendsParseInt(DecimalString(n));
  }

  // ---------------------------------------------------------------------------
  // firstIndex(of:)
  // ---------------------------------------------------------------------------

  /** `s.firstIndex(of: x)`: the position of the first `x` in `s`, or `nil`. */
  function FirstIndex<T(==)>(s: seq<T>, x: T): (r: Option<nat>)
    ensures r.None? <==> x !in s
    ensures r.Some? ==> r.value < |s| && s[r.value] == x && x !in s[..r.value]
  {
    if s == [] then None
    else if s[0] == x then Some(0)
    else
      match FirstIndex(s[1..], x)
      case None => None
      case Some(i) =>
        assert s[..i + 1] == [s[0]] + s[1..][..i];
        Some(i + 1)
  }

  /** An element whose earlier positions do not hold it is the first occurrence. */
  lemma FirstIndexAt<T>(s: seq<T>, x: T, i: nat)
    requires i < |s| && s[i] == x && x !in s[..i]
    ensures FirstIndex(s, x) == Some(i)
  {
    assert x in s;
    var j := FirstIndex(s, x).value;
    forall k | 0 <= k < i ensures s[k] != x {
      assert s[..i][k] == s[k];
    }
    forall k | 0 <= k < j ensures s[k] != x {
      assert s[..j][k] == s[k];
    }
  }

  /** `x` occurs among the first `n` elements exactly when its first occurrence is before `n`. */
  lemma FirstIndexBefore<T>(s: seq<T>, x: T, n: nat)
    requires n <= |s|
    ensures x in s[..n] <==> FirstIndex(s, x).Some? && FirstIndex(s, x).value < n
  {
    if x in s[..n] {
      var k :| 0 <= k < n && s[..n][k] == x;
      assert s[k] == x;
      var i := FirstIndex(s, x).value;
      forall m | 0 <= m < i ensures s[m] != x {
        assert s[..i][m] == s[m];
      }
    }
    if FirstIndex(s, x).Some? && FirstIndex(s, x).value < n {
      assert s[..n][FirstIndex(s, x).value] == x;
    }
  }

  /** `s` with the element at `i` taken out, as `remove(at:)` leaves it. */
  function RemoveAt<T>(s: seq<T>, i: nat): (r: seq<T>)
    requires i < |s|
    ensures |r| == |s| - 1
    ensures forall j :: 0 <= j < i ==> r[j] == s[j]
    ensures forall j :: i <= j < |r| ==> r[j] == s[j + 1]
  {
    s[..i] + s[i + 1..]
  }
}
