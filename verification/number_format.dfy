/**
 * `format_clean_number`: the display form of a conversion result. The value is
 * printed as `"{:,.4f}"` does (a sign, the whole part with a ',' between groups
 * of three digits, a '.' and exactly four fractional digits), then trailing
 * '0' characters and a trailing '.' are stripped, and a degenerate result
 * becomes "0".
 *
 * The printing is split in two: `Round4` rounds the exact value of the number
 * to ten-thousandths, and `FormatFixed` lays out that fixed-point value as text.
 * `ParseDisplay` reads a display back; it is the partner against which the
 * layout is proved.
 */
module NumberFormat {
  import opened Wrappers

  /** A value rounded to four decimals: its sign and its magnitude in ten-thousandths. */
  datatype Fixed4 = Fixed4(negative: bool, magnitude: nat)

  predicate IsDigit(c: char) {
    '0' <= c <= '9'
  }

  predicate AllDigits(s: string) {
    forall i :: 0 <= i < |s| ==> IsDigit(s[i])
  }

  function DigitChar(d: nat): (c: char)
    requires d < 10
    ensures IsDigit(c) && DigitValue(c) == d
  {
    ('0' as int + d) as char
  }

  /** The value of a digit character; any other character is worth nothing. */
  function DigitValue(c: char): (d: nat)
    ensures d < 10
    ensures IsDigit(c) && c != '0' ==> d > 0
  {
    if IsDigit(c) then c as int - '0' as int else 0
  }

  function Pow10(k: nat): nat
  {
    if k == 0 then 1 else 10 * Pow10(k - 1)
  }

  /**
   * The number a string of digits denotes, reading ',' as a group separator that
   * adds nothing.
   */
  function DecimalValue(s: string): nat
  {
    if s == [] then 0
    else if s[|s| - 1] == ',' then DecimalValue(s[..|s| - 1])
    else DecimalValue(s[..|s| - 1]) * 10 + DigitValue(s[|s| - 1])
  }

  // ---------------------------------------------------------------------------
  // Laying out a fixed-point value as "{:,.4f}" does

  /** The decimal digits of `n`, without leading zeros ("0" for zero). */
  function Digits(n: nat): (s: string)
    ensures |s| >= 1 && AllDigits(s)
    ensures n > 0 ==> s[0] != '0'
  {
    if n < 10 then [DigitChar(n)] else Digits(n / 10) + [DigitChar(n % 10)]
  }

  /** `n` in exactly `width` digits, padded on the left with '0'. */
  function Pad(n: nat, width: nat): (s: string)
    requires n < Pow10(width)
    ensures |s| == width && AllDigits(s)
  {
    if width == 0 then [] else Pad(n / 10, width - 1) + [DigitChar(n % 10)]
  }

  /** The digits of `n` with a ',' between each group of three, counted from the right. */
  function Group(n: nat): (s: string)
    ensures WholePart(s)
    ensures n > 0 ==> s[0] != '0'
  {
    if n < 1000 then Digits(n) else Group(n / 1000) + "," + Pad(n % 1000, 3)
  }

  function Sign(negative: bool): string {
    if negative then "-" else ""
  }

  /** `"{:,.4f}"` applied to the fixed-point value `f`. */
  function Render(f: Fixed4): string {
    Sign(f.negative) + Group(f.magnitude / 10000) + "." + Pad(f.magnitude % 10000, 4)
  }

  /** `s.rstrip(c)`: `s` without the characters `c` that end it. */
  function RStrip(s: string, c: char): (r: string)
    ensures |r| <= |s|
    ensures r == [] || r[|r| - 1] != c
  {
    if s != [] && s[|s| - 1] == c then RStrip(s[..|s| - 1], c) else s
  }

  /** `formatted.rstrip('0').rstrip('.')` */
  function StripZeros(s: string): string {
    RStrip(RStrip(s, '0'), '.')
  }

  /** The fractional digits left after the stripping, for a fraction of `fraction` ten-thousandths. */
  function ShownFraction(fraction: nat): string
    requires fraction < 10000
  {
    RStrip(Pad(fraction, 4), '0')
  }

  /**
   * The display of a fixed-point value: its rendering with the trailing zeros
   * and point stripped. It reads back as the value it shows, and it is never
   * empty, a lone sign, or ended by a '.'; a '.' in it is followed by at most
   * four digits, the last of which is not '0'.
   */
  function FormatFixed(f: Fixed4): (s: string)
    ensures LooksClean(s)
    ensures ParseDisplay(s) == Some(f)
  {
    FormatFixedLooks(f);
    FormatFixedParses(f);
    StripZeros(Render(f))
  }

  // ---------------------------------------------------------------------------
  // Rounding and the whole of `format_clean_number`

  function Abs(x: real): real {
    if x < 0.0 then -x else x
  }

  /**
   * The rounding of `"{:,.4f}"`: the exact value, scaled to ten-thousandths, goes
   * to the nearest integer, a tie to the even one; the sign is kept even when
   * the magnitude rounds to zero.
   */
  function Round4(value: real): (f: Fixed4)
    ensures f.negative <==> value < 0.0
    ensures -0.5 <= f.magnitude as real - Abs(value) * 10000.0 <= 0.5
    ensures f.magnitude as real - Abs(value) * 10000.0 == 0.5 ==> f.magnitude % 2 == 0
    ensures Abs(value) * 10000.0 - f.magnitude as real == 0.5 ==> f.magnitude % 2 == 0
  {
    var exact := Abs(value) * 10000.0;
    var whole := exact.Floor;
    var rest := exact - whole as real;
    var magnitude := if rest < 0.5 || (rest == 0.5 && whole % 2 == 0) then whole else whole + 1;
    Fixed4(value < 0.0, magnitude)
  }

  /**
   * `format_clean_number`: zero is "0"; any other value is rounded and laid out,
   * and an empty or sign-only result would become "0". The display reads back
   * as the rounded value.
   */
  function FormatCleanNumber(value: real): (s: string)
    ensures value == 0.0 ==> s == "0"
    ensures LooksClean(s)
    ensures ParseDisplay(s) == Some(Round4(value))
  {
    if value == 0.0 then
      assert ParseDisplay("0") == Some(Fixed4(false, 0)) by { ParseZero(); }
      "0"
    else
      var formatted := FormatFixed(Round4(value));
      if formatted == "" || formatted == "-" then "0" else formatted
  }

  /** The number a fixed-point value stands for. */
  function Fixed4Value(f: Fixed4): real {
    var m := f.magnitude as real / 10000.0;
    if f.negative then -m else m
  }

  /** The rounded value is within half a ten-thousandth of the value: at most four decimals are kept. */
  lemma Round4Close(value: real)
    ensures -0.00005 <= Fixed4Value(Round4(value)) - value <= 0.00005
  {
    var f := Round4(value);
    var d := f.magnitude as real - Abs(value) * 10000.0;
    assert -0.5 <= d <= 0.5;
    if value < 0.0 {
      assert Fixed4Value(f) - value == -d / 10000.0;
    } else {
      assert Fixed4Value(f) - value == d / 10000.0;
    }
  }

  // ---------------------------------------------------------------------------
  // Reading a display back

  /** The position of the first `c` in `s`, or `|s|` when there is none. */
  function IndexOf(s: string, c: char): (k: nat)
    ensures k <= |s|
    ensures k < |s| ==> s[k] == c
    ensures forall i :: 0 <= i < k ==> s[i] != c
  {
    if s == [] then 0 else if s[0] == c then 0 else 1 + IndexOf(s[1..], c)
  }

  /**
   * The fixed-point value a display denotes: an optional '-', a whole part of
   * digits and ',' separators, then optionally a '.' and one to four digits.
   */
  function ParseDisplay(s: string): Option<Fixed4> {
    var negative := |s| > 0 && s[0] == '-';
    match ParseMagnitude(if negative then s[1..] else s)
    case None => None
    case Some(m) => Some(Fixed4(negative, m))
  }

  /** The magnitude, in ten-thousandths, of an unsigned display. */
  function ParseMagnitude(body: string): Option<nat> {
    var dot := IndexOf(body, '.');
    if dot == |body| then ParseParts(body, "")
    else if dot + 1 == |body| then None
    else ParseParts(body[..dot], body[dot + 1..])
  }

  predicate Grouped(s: string) {
    forall i :: 0 <= i < |s| ==> IsDigit(s[i]) || s[i] == ','
  }

  /**
   * The magnitude of a whole part and the fraction digits after the point; the
   * fraction is read in ten-thousandths, as its digits filled out with '0' to four.
   */
  function ParseParts(whole: string, fraction: string): Option<nat> {
    if whole == [] || !Grouped(whole) || |fraction| > 4 || !AllDigits(fraction) then None
    else Some(DecimalValue(whole) * 10000 + DecimalValue(fraction + Zeros(4 - |fraction|)))
  }

  /** `k` characters '0'. */
  function Zeros(k: nat): (z: string)
    ensures |z| == k
  {
    if k == 0 then [] else Zeros(k - 1) + "0"
  }

  // ---------------------------------------------------------------------------
  // Lemmas

  lemma DecimalValueSnoc(s: string, c: char)
    ensures DecimalValue(s + [c]) == if c == ',' then DecimalValue(s) else DecimalValue(s) * 10 + DigitValue(c)
  {
    assert (s + [c])[..|s|] == s;
  }

  /** Appending digits shifts the value left by their count and adds theirs. */
  lemma {:induction false} DecimalValueAppend(a: string, b: string)
    requires AllDigits(b)
    ensures DecimalValue(a + b) == DecimalValue(a) * Pow10(|b|) + DecimalValue(b)
  {
    if b == [] {
      assert a + b == a;
    } else {
      var init, last := b[..|b| - 1], b[|b| - 1];
      assert AllDigits(init) by {
        forall i | 0 <= i < |init| ensures IsDigit(init[i]) {
          assert init[i] == b[i];
        }
      }
      assert last != ',' by { assert IsDigit(b[|b| - 1]); }
      assert a + b == (a + init) + [last];
      assert b == init + [last];
      DecimalValueSnoc(a + init, last);
      DecimalValueSnoc(init, last);
      DecimalValueAppend(a, init);
      ShiftDigit(DecimalValue(a), Pow10(|init|), DecimalValue(init), DigitValue(last));
    }
  }

  lemma ShiftDigit(x: nat, p: nat, y: nat, d: nat)
    ensures (x * p + y) * 10 + d == x * (10 * p) + (y * 10 + d)
  {
  }

  lemma {:induction false} DigitsValue(n: nat)
    ensures DecimalValue(Digits(n)) == n
  {
    if n < 10 {
      DecimalValueSnoc([], DigitChar(n));
    } else {
      DigitsValue(n / 10);
      DecimalValueSnoc(Digits(n / 10), DigitChar(n % 10));
    }
  }

  lemma {:induction false} PadValue(n: nat, width: nat)
    requires n < Pow10(width)
    ensures DecimalValue(Pad(n, width)) == n
  {
    if width > 0 {
      PadValue(n / 10, width - 1);
      DecimalValueSnoc(Pad(n / 10, width - 1), DigitChar(n % 10));
    } else {
      assert n == 0;
    }
  }

  /** A ',' exactly where the distance to the end of `s` is a multiple of four. */
  predicate CommasEveryFour(s: string) {
    forall i :: 0 <= i < |s| ==> (s[i] == ',' <==> (|s| - i) % 4 == 0)
  }

  /** The whole part has a ',' before each group of three digits, counted from the right, and nowhere else. */
  lemma {:induction false} GroupCommas(n: nat)
    ensures CommasEveryFour(Group(n))
  {
    if n < 1000 {
      DigitsLength(n);
      assert AllDigits(Digits(n));
    } else {
      GroupCommas(n / 1000);
      CommasAppendGroup(Group(n / 1000), Pad(n % 1000, 3));
    }
  }

  /** Appending ',' and three digits keeps a ',' at every fourth place from the end. */
  lemma CommasAppendGroup(front: string, back: string)
    requires CommasEveryFour(front) && |back| == 3 && AllDigits(back)
    ensures CommasEveryFour(front + "," + back)
  {
    var s := front + "," + back;
    forall i | 0 <= i < |s| ensures s[i] == ',' <==> (|s| - i) % 4 == 0 {
      if i < |front| {
        assert s[i] == front[i];
        assert |s| - i == (|front| - i) + 4;
      } else if i > |front| {
        assert s[i] == back[i - |front| - 1];
        assert IsDigit(back[i - |front| - 1]);
      } else {
        assert s[i] == ',';
      }
    }
  }

  /** A number below 1000 has at most three digits. */
  lemma DigitsLength(n: nat)
    requires n < 1000
    ensures |Digits(n)| <= 3
  {
    if n >= 10 {
      assert n / 10 < 100;
      if n / 10 >= 10 {
        assert n / 10 / 10 < 10;
        assert |Digits(n / 10 / 10)| == 1;
      }
    }
  }

  /** The ',' separators leave the number unchanged. */
  lemma {:induction false} GroupValue(n: nat)
    ensures DecimalValue(Group(n)) == n
  {
    if n < 1000 {
      DigitsValue(n);
    } else {
      var g, low := Group(n / 1000), Pad(n % 1000, 3);
      assert Group(n) == (g + ",") + low;
      assert DecimalValue(g + ",") == n / 1000 by {
        GroupValue(n / 1000);
        DecimalValueSnoc(g, ',');
      }
      assert DecimalValue(low) == n % 1000 by { PadValue(n % 1000, 3); }
      assert Pow10(3) == 1000;
      DecimalValueAppend(g + ",", low);
    }
  }

  lemma {:induction false} ZerosAreZeros(k: nat)
    ensures forall i :: 0 <= i < k ==> Zeros(k)[i] == '0'
  {
    if k > 0 {
      ZerosAreZeros(k - 1);
      assert forall i :: 0 <= i < k - 1 ==> Zeros(k)[i] == Zeros(k - 1)[i];
    }
  }

  /** Stripping a run of '0' from digits that end otherwise removes exactly that run. */
  lemma {:induction false} RStripZeros(s: string, k: nat)
    requires s == [] || s[|s| - 1] != '0'
    ensures RStrip(s + Zeros(k), '0') == s
  {
    if k == 0 {
      assert s + Zeros(k) == s;
    } else {
      assert (s + Zeros(k))[..|s| + k - 1] == s + Zeros(k - 1);
      RStripZeros(s, k - 1);
    }
  }

  /** `s.rstrip(c)` is a prefix of `s`, and what it removed is all `c`. */
  lemma {:induction false} RStripSplits(s: string, c: char)
    ensures RStrip(s, c) <= s
    ensures forall i :: |RStrip(s, c)| <= i < |s| ==> s[i] == c
  {
    if s != [] && s[|s| - 1] == c {
      RStripSplits(s[..|s| - 1], c);
    }
  }

  /** What `s.rstrip('0')` removed is a run of '0': putting it back restores `s`. */
  lemma RStripRestores(s: string)
    ensures RStrip(s, '0') + Zeros(|s| - |RStrip(s, '0')|) == s
  {
    var r := RStrip(s, '0');
    var t := r + Zeros(|s| - |r|);
    RStripSplits(s, '0');
    ZerosAreZeros(|s| - |r|);
    assert |t| == |s|;
    forall i | 0 <= i < |s| ensures t[i] == s[i] {
      if i < |r| {
        assert t[i] == r[i];
      } else {
        assert t[i] == '0';
      }
    }
  }

  /** The fraction shown: at most four digits, not ending in '0', worth the fraction once filled out to four digits. */
  lemma ShownFractionValue(fraction: nat)
    requires fraction < 10000
    ensures FractionPart(ShownFraction(fraction))
    ensures DecimalValue(ShownFraction(fraction) + Zeros(4 - |ShownFraction(fraction)|)) == fraction
  {
    var padded := Pad(fraction, 4);
    var shown := ShownFraction(fraction);
    RStripRestores(padded);
    RStripSplits(padded, '0');
    PadValue(fraction, 4);
    assert AllDigits(shown) by {
      forall i | 0 <= i < |shown| ensures IsDigit(shown[i]) {
        assert shown[i] == padded[i];
      }
    }
  }

  lemma {:induction false} ZerosValue(k: nat)
    ensures DecimalValue(Zeros(k)) == 0
  {
    if k > 0 {
      ZerosValue(k - 1);
      DecimalValueSnoc(Zeros(k - 1), '0');
    }
  }

  lemma ShownFractionZero()
    ensures ShownFraction(0) == []
  {
    assert Pad(0, 4) == [] + Zeros(4);
    RStripZeros([], 4);
  }

  /** Stripping the end of `a + b` reaches into `a` only when all of `b` is stripped. */
  lemma {:induction false} RStripAppend(a: string, b: string, c: char)
    ensures RStrip(b, c) != [] ==> RStrip(a + b, c) == a + RStrip(b, c)
    ensures RStrip(b, c) == [] ==> RStrip(a + b, c) == RStrip(a, c)
  {
    if b == [] {
      assert a + b == a;
    } else if b[|b| - 1] == c {
      assert (a + b)[..|a + b| - 1] == a + b[..|b| - 1];
      RStripAppend(a, b[..|b| - 1], c);
    } else {
      assert (a + b)[|a + b| - 1] == b[|b| - 1];
    }
  }

  /** What the stripping leaves of `"{:,.4f}"`: the whole part, then the point and the shown fraction if any. */
  lemma FormatFixedShape(f: Fixed4)
    ensures StripZeros(Render(f))
      == Assemble(f.negative, Group(f.magnitude / 10000), ShownFraction(f.magnitude % 10000))
  {
    StripShape(f.negative, Group(f.magnitude / 10000), Pad(f.magnitude % 10000, 4));
  }

  /** Stripping a rendering keeps its whole part and the fraction digits up to the last non-zero one. */
  lemma StripShape(negative: bool, group: string, padded: string)
    requires WholePart(group) && AllDigits(padded)
    ensures StripZeros(Sign(negative) + group + "." + padded) == Assemble(negative, group, RStrip(padded, '0'))
  {
    if RStrip(padded, '0') == [] {
      StripAllZeros(negative, group, padded);
    } else {
      StripSomeZeros(negative, group, padded);
      PointAssociates(Sign(negative), group, RStrip(padded, '0'));
    }
  }

  /** A rendering whose fraction digits are all '0' loses them and its point. */
  lemma StripAllZeros(negative: bool, group: string, padded: string)
    requires WholePart(group) && RStrip(padded, '0') == []
    ensures StripZeros(Sign(negative) + group + "." + padded) == Sign(negative) + group
  {
    var whole := Sign(negative) + group;
    var w := whole + ".";
    RStripAppend(w, padded, '0');
    assert RStrip(w, '0') == w;
    assert w[..|w| - 1] == whole;
    assert whole[|whole| - 1] == group[|group| - 1];
    assert RStrip(whole, '.') == whole;
  }

  /** A rendering with a non-zero fraction digit keeps its point and the digits up to the last non-zero one. */
  lemma StripSomeZeros(negative: bool, group: string, padded: string)
    requires AllDigits(padded) && RStrip(padded, '0') != []
    ensures StripZeros(Sign(negative) + group + "." + padded) == Sign(negative) + group + "." + RStrip(padded, '0')
  {
    var whole, shown := Sign(negative) + group, RStrip(padded, '0');
    var t := whole + "." + shown;
    StrippedEndsInDigit(padded);
    RStripAppend(whole + ".", padded, '0');
    assert t[|t| - 1] == shown[|shown| - 1];
    StripPointAfterDigit(whole + "." + padded, t);
  }

  lemma PointAssociates(sign: string, group: string, shown: string)
    ensures sign + group + "." + shown == sign + (group + "." + shown)
  {
  }

  lemma StrippedEndsInDigit(padded: string)
    requires AllDigits(padded) && RStrip(padded, '0') != []
    ensures IsDigit(RStrip(padded, '0')[|RStrip(padded, '0')| - 1])
  {
    var shown := RStrip(padded, '0');
    RStripSplits(padded, '0');
    assert shown[|shown| - 1] == padded[|shown| - 1];
  }

  lemma StripPointAfterDigit(s: string, t: string)
    requires RStrip(s, '0') == t && t != [] && IsDigit(t[|t| - 1])
    ensures StripZeros(s) == t
  {
  }

  /**
   * The look of a cleaned number: never empty nor a lone sign, never ending in
   * '.', and a '.' in it is followed by at most four digits, the last not '0'.
   */
  predicate LooksClean(s: string) {
    s != "" && s != "-" && s[|s| - 1] != '.'
    && ('.' in s ==> IsDigit(s[|s| - 1]) && s[|s| - 1] != '0')
    && (forall i :: 0 <= i < |s| && s[i] == '.' ==> |s| - 1 - i <= 4)
  }

  /** The whole part of a display: digits and ',' separators, starting and ending with a digit. */
  predicate WholePart(group: string) {
    |group| >= 1 && IsDigit(group[0]) && IsDigit(group[|group| - 1])
    && forall i :: 0 <= i < |group| ==> IsDigit(group[i]) || group[i] == ','
  }

  /** The fraction of a display: at most four digits, not ending in '0'. */
  predicate FractionPart(shown: string) {
    |shown| <= 4 && AllDigits(shown) && (shown == [] || shown[|shown| - 1] != '0')
  }

  /** A display put together from its sign, whole part and shown fraction. */
  function Assemble(negative: bool, group: string, shown: string): string {
    Sign(negative) + Unsigned(group, shown)
  }

  /** The whole part, then the point and the shown fraction when there is one. */
  function Unsigned(group: string, shown: string): string {
    if shown == [] then group else group + "." + shown
  }

  /** The look of an assembled display. */
  lemma AssembledLooks(negative: bool, group: string, shown: string)
    requires WholePart(group) && FractionPart(shown)
    ensures LooksClean(Assemble(negative, group, shown))
  {
    var s := Assemble(negative, group, shown);
    var prefix := Sign(negative) + group;
    assert |prefix| >= 1 && prefix[|prefix| - 1] == group[|group| - 1];
    assert forall i :: 0 <= i < |prefix| ==> prefix[i] != '.';
    if shown == [] {
      assert s == prefix;
    } else {
      assert s == prefix + "." + shown;
      assert s[|s| - 1] == shown[|shown| - 1];
      assert forall i :: |prefix| < i < |s| ==> s[i] == shown[i - |prefix| - 1];
      assert forall i :: 0 <= i < |prefix| ==> s[i] == prefix[i];
    }
  }

  /** An assembled display reads back as its sign, whole part and fraction. */
  lemma AssembledReadsBack(negative: bool, group: string, shown: string, wholeValue: nat, fraction: nat, magnitude: nat)
    requires WholePart(group) && FractionPart(shown)
    requires DecimalValue(group) == wholeValue && DecimalValue(shown + Zeros(4 - |shown|)) == fraction
    requires magnitude == wholeValue * 10000 + fraction
    ensures ParseDisplay(Assemble(negative, group, shown)) == Some(Fixed4(negative, magnitude))
  {
    UnsignedStartsWithDigit(group, shown);
    UnsignedReadsBack(group, shown, wholeValue, fraction);
    SignReadsBack(negative, Unsigned(group, shown), magnitude);
  }

  /** The sign is read off the front of the display. */
  lemma SignReadsBack(negative: bool, body: string, m: nat)
    requires |body| > 0 && body[0] != '-' && ParseMagnitude(body) == Some(m)
    ensures ParseDisplay(Sign(negative) + body) == Some(Fixed4(negative, m))
  {
    var s := Sign(negative) + body;
    if negative {
      assert s[0] == '-';
      assert s[1..] == body;
    } else {
      assert s == body;
    }
  }

  lemma UnsignedStartsWithDigit(group: string, shown: string)
    requires WholePart(group)
    ensures |Unsigned(group, shown)| > 0 && Unsigned(group, shown)[0] != '-'
  {
    assert Unsigned(group, shown)[0] == group[0];
  }

  lemma UnsignedReadsBack(group: string, shown: string, wholeValue: nat, fraction: nat)
    requires WholePart(group) && FractionPart(shown)
    requires DecimalValue(group) == wholeValue && DecimalValue(shown + Zeros(4 - |shown|)) == fraction
    ensures ParseMagnitude(Unsigned(group, shown)) == Some(wholeValue * 10000 + fraction)
  {
    if shown == [] {
      WholeReadsBack(group);
    } else {
      FractionReadsBack(group, shown);
    }
    PartsValue(group, shown, wholeValue, fraction);
  }

  lemma WholeReadsBack(group: string)
    requires WholePart(group)
    ensures ParseMagnitude(group) == ParseParts(group, "")
  {
    IndexOfAfter(group, "", '.');
    assert group + "" == group;
  }

  lemma FractionReadsBack(group: string, shown: string)
    requires WholePart(group) && shown != []
    ensures ParseMagnitude(group + "." + shown) == ParseParts(group, shown)
  {
    var body := group + "." + shown;
    assert body == group + ("." + shown);
    assert IndexOf("." + shown, '.') == 0;
    IndexOfAfter(group, "." + shown, '.');
    var dot := IndexOf(body, '.');
    assert dot == |group|;
    assert body[..dot] == group;
    assert body[dot + 1..] == shown;
  }

  lemma PartsValue(group: string, shown: string, wholeValue: nat, fraction: nat)
    requires WholePart(group) && FractionPart(shown)
    requires DecimalValue(group) == wholeValue && DecimalValue(shown + Zeros(4 - |shown|)) == fraction
    ensures ParseParts(group, shown) == Some(wholeValue * 10000 + fraction)
  {
  }

  /** Searching past a prefix that does not hold `c`. */
  lemma {:induction false} IndexOfAfter(prefix: string, rest: string, c: char)
    requires forall i :: 0 <= i < |prefix| ==> prefix[i] != c
    ensures IndexOf(prefix + rest, c) == |prefix| + IndexOf(rest, c)
  {
    if prefix != [] {
      var s := prefix + rest;
      assert s[0] == prefix[0] != c;
      assert s[1..] == prefix[1..] + rest;
      assert forall i :: 0 <= i < |prefix[1..]| ==> prefix[1..][i] == prefix[i + 1];
      IndexOfAfter(prefix[1..], rest, c);
      assert IndexOf(s, c) == 1 + IndexOf(s[1..], c);
    } else {
      assert prefix + rest == rest;
    }
  }

  /** The display of a fixed-point value has the look of a cleaned number. */
  lemma FormatFixedLooks(f: Fixed4)
    ensures LooksClean(StripZeros(Render(f)))
  {
    FormatFixedShape(f);
    ShownFractionValue(f.magnitude % 10000);
    AssembledLooks(f.negative, Group(f.magnitude / 10000), ShownFraction(f.magnitude % 10000));
  }

  /** The display of a fixed-point value reads back as that value. */
  lemma FormatFixedParses(f: Fixed4)
    ensures ParseDisplay(StripZeros(Render(f))) == Some(f)
  {
    FormatFixedShape(f);
    AssembledReadsBackMagnitude(f);
  }

  lemma AssembledReadsBackMagnitude(f: Fixed4)
    ensures ParseDisplay(Assemble(f.negative, Group(f.magnitude / 10000), ShownFraction(f.magnitude % 10000))) == Some(f)
  {
    var q, r := f.magnitude / 10000, f.magnitude % 10000;
    var group, shown := Group(q), ShownFraction(r);
    assert WholePart(group) && DecimalValue(group) == q by { GroupValue(q); }
    assert FractionPart(shown) && DecimalValue(shown + Zeros(4 - |shown|)) == r by { ShownFractionValue(r); }
    SplitMagnitude(f.magnitude, q, r);
    AssembledReadsBack(f.negative, group, shown, q, r, f.magnitude);
    assert Fixed4(f.negative, f.magnitude) == f;
  }

  lemma SplitMagnitude(m: nat, wholeValue: nat, fractionValue: nat)
    requires wholeValue == m / 10000 && fractionValue == m % 10000
    ensures wholeValue * 10000 + fractionValue == m
  {
  }

  lemma ParseZero()
    ensures ParseDisplay("0") == Some(Fixed4(false, 0))
  {
    assert IndexOf("0", '.') == 1;
    assert DecimalValue("0") == 0 by { DecimalValueSnoc([], '0'); }
    assert DecimalValue("" + Zeros(4)) == 0 by {
      assert "" + Zeros(4) == Zeros(4);
      ZerosValue(4);
    }
    assert ParseParts("0", "") == Some(0);
  }

  // ---------------------------------------------------------------------------
  // The worked examples of `format_clean_number`

  lemma NonZeroIsFormatted(value: real)
    requires value != 0.0
    ensures FormatCleanNumber(value) == StripZeros(Render(Round4(value)))
  {
  }

  /**
   * The layout of a non-zero display in one place: the sign of the value, the
   * whole part with a ',' at every fourth place from its right end and worth
   * the rounded whole part, then the point and the shown fraction if it is not
   * zero.
   */
  lemma FormatCleanNumberLayout(value: real)
    requires value != 0.0
    ensures var f := Round4(value);
      FormatCleanNumber(value) == Assemble(f.negative, Group(f.magnitude / 10000), ShownFraction(f.magnitude % 10000))
    ensures CommasEveryFour(Group(Round4(value).magnitude / 10000))
    ensures DecimalValue(Group(Round4(value).magnitude / 10000)) == Round4(value).magnitude / 10000
  {
    var f := Round4(value);
    NonZeroIsFormatted(value);
    FormatFixedShape(f);
    GroupCommas(f.magnitude / 10000);
    GroupValue(f.magnitude / 10000);
  }

  /** The display of `f`, once its whole part and shown fraction are known. */
  lemma DisplayOf(f: Fixed4, group: string, shown: string)
    requires Group(f.magnitude / 10000) == group && ShownFraction(f.magnitude % 10000) == shown
    ensures StripZeros(Render(f)) == Assemble(f.negative, group, shown)
  {
    FormatFixedShape(f);
  }

  lemma FormatWholeExample(value: real)
    requires value == 100.0
    ensures FormatCleanNumber(value) == "100"
  {
    NonZeroIsFormatted(value);
    WholeDisplay(value);
  }

  lemma WholeDisplay(value: real)
    requires value == 100.0
    ensures StripZeros(Render(Round4(value))) == "100"
  {
    RoundWhole(value);
    GroupHundred();
    ShownFractionZero();
    var f := Round4(value);
    assert f.magnitude / 10000 == 100 && f.magnitude % 10000 == 0;
    DisplayOf(f, "100", "");
    assert Assemble(false, "100", "") == "100";
  }

  lemma RoundWhole(value: real)
    requires value == 100.0
    ensures Round4(value) == Fixed4(false, 1000000)
  {
  }

  lemma FormatFractionExample(value: real)
    requires value == 10.123456
    ensures FormatCleanNumber(value) == "10.1235"
  {
    NonZeroIsFormatted(value);
    FractionDisplay(value);
  }

  lemma FractionDisplay(value: real)
    requires value == 10.123456
    ensures StripZeros(Render(Round4(value))) == "10.1235"
  {
    RoundFraction(value);
    GroupTen();
    ShownFraction1235();
    var f := Round4(value);
    assert f.magnitude / 10000 == 10 && f.magnitude % 10000 == 1235;
    DisplayOf(f, "10", "1235");
    assert Assemble(false, "10", "1235") == "10.1235";
  }

  lemma RoundFraction(value: real)
    requires value == 10.123456
    ensures Round4(value) == Fixed4(false, 101235)
  {
  }

  lemma FormatThousandsExample(value: real)
    requires value == 1234.56789
    ensures FormatCleanNumber(value) == "1,234.5679"
  {
    NonZeroIsFormatted(value);
    ThousandsDisplay(value);
  }

  lemma ThousandsDisplay(value: real)
    requires value == 1234.56789
    ensures StripZeros(Render(Round4(value))) == "1,234.5679"
  {
    RoundThousands(value);
    GroupThousands();
    ShownFraction5679();
    var f := Round4(value);
    assert f.magnitude / 10000 == 1234 && f.magnitude % 10000 == 5679;
    DisplayOf(f, "1,234", "5679");
    AssembleThousands();
  }

  lemma AssembleThousands()
    ensures Assemble(false, "1,234", "5679") == "1,234.5679"
  {
  }

  lemma FormatHalfExample(value: real)
    requires value == 10.5
    ensures FormatCleanNumber(value) == "10.5"
  {
    NonZeroIsFormatted(value);
    HalfDisplay(value);
  }

  lemma HalfDisplay(value: real)
    requires value == 10.5
    ensures StripZeros(Render(Round4(value))) == "10.5"
  {
    RoundHalf(value);
    GroupTen();
    ShownFraction5000();
    var f := Round4(value);
    assert f.magnitude / 10000 == 10 && f.magnitude % 10000 == 5000;
    DisplayOf(f, "10", "5");
    assert Assemble(false, "10", "5") == "10.5";
  }

  lemma RoundHalf(value: real)
    requires value == 10.5
    ensures Round4(value) == Fixed4(false, 105000)
  {
  }

  /** A negative value that rounds to zero keeps its sign: the display is "-0". */
  lemma FormatNegativeZeroExample(value: real)
    requires value == -0.00001
    ensures FormatCleanNumber(value) == "-0"
  {
    NonZeroIsFormatted(value);
    NegativeZeroDisplay(value);
  }

  lemma NegativeZeroDisplay(value: real)
    requires value == -0.00001
    ensures StripZeros(Render(Round4(value))) == "-0"
  {
    RoundNegativeZero(value);
    GroupZero();
    ShownFractionZero();
    var f := Round4(value);
    assert f.magnitude / 10000 == 0 && f.magnitude % 10000 == 0;
    DisplayOf(f, "0", "");
    assert Assemble(true, "0", "") == "-0";
  }

  lemma RoundNegativeZero(value: real)
    requires value == -0.00001
    ensures Round4(value) == Fixed4(true, 0)
  {
  }

  lemma RoundThousands(value: real)
    requires value == 1234.56789
    ensures Round4(value) == Fixed4(false, 12345679)
  {
  }

  lemma GroupZero()
    ensures Group(0) == "0"
  {
  }

  lemma GroupTen()
    ensures Group(10) == "10"
  {
  }

  lemma GroupHundred()
    ensures Group(100) == "100"
  {
    GroupTen();
  }

  lemma GroupThousands()
    ensures Group(1234) == "1,234"
  {
    Pad234();
  }

  lemma Pad234()
    ensures Pad(234, 3) == "234"
  {
  }

  lemma ShownFraction1235()
    ensures ShownFraction(1235) == "1235"
  {
    assert Pad(1235, 4) == "1235";
  }

  lemma ShownFraction5679()
    ensures ShownFraction(5679) == "5679"
  {
    assert Pad(5679, 4) == "5679";
  }

  lemma ShownFraction5000()
    ensures ShownFraction(5000) == "5"
  {
    assert Pad(5000, 4) == "5" + Zeros(3);
    RStripZeros("5", 3);
  }
}
