/**
 * The text of the value being typed in the current presenter (getCurrentValueString): the
 * plain digits of the value written with as many fraction digits as were typed, and a bare
 * '.' right after the point key. Typing a digit appends to this text and erasing drops its
 * last character; the lemmas here say which decimal new BigDecimal(String) reads back.
 */
module ValueText {
  import opened Wrappers
  import opened Text
  import opened Decimal

  /**
   * The text for the value u * 10^-max(0, k), where k is the presenter's typed scale:
   * -1 (or below) when no point was typed, 0 for a bare point, otherwise the number of
   * fraction digits.
   */
  function Typed(u: int, k: int): string
  {
    ToPlainString(Dec(u, Max(0, k))) + (if k == 0 then "." else "")
  }

  /** The number of integer digits the digit key counts: the text before the point, less a '-'. */
  function IntDigits(t: string): int
  {
    var p := IndexOf(t, '.');
    (if p == -1 then |t| else p) - (if |t| > 0 && t[0] == '-' then 1 else 0)
  }

  /** The number of fraction digits the digit key counts, when the text has a point. */
  function FracDigits(t: string): int
  {
    |t| - IndexOf(t, '.') - 1
  }

  /** The magnitude after typing digit d after the digits of v. */
  function Pushed(v: nat, d: nat): nat { v * 10 + d }

  /** The magnitude after erasing the last digit of v. */
  function Popped(v: nat): nat { v / 10 }

  /** The value at scale s, when s does not drop digits, is what setScale(s, UNNECESSARY) gives. */
  lemma SetScaleUp(d: Dec, s: int, mode: RoundingMode)
    requires s >= d.scale
    ensures SetScale(d, s, mode) == Ok(Dec(ValueAt(d, s), s))
  {
  }

  lemma UnscaledText(u: int)
    ensures ToPlainString(Dec(u, 0)) == SignText(u < 0) + DigitsOf(Abs(u))
  {
    if u == 0 {
      assert DigitsOf(0) == "0";
    } else {
      PlainTextUnscaled(Dec(u, 0));
    }
  }

  lemma AppendDigitValue(s: string, c: char)
    requires AllDigits(s) && IsDigit(c)
    ensures AllDigits(s + [c]) && DigitsValue(s + [c]) == DigitsValue(s) * 10 + DigitValue(c)
  {
    assert (s + [c])[..|s|] == s;
  }

  lemma DropDigitValue(s: string)
    requires AllDigits(s) && |s| >= 1
    ensures DigitsValue(s[..|s| - 1]) == DigitsValue(s) / 10
  {
  }

  lemma DigitsOfLast(n: nat)
    requires n >= 10
    ensures |DigitsOf(n)| >= 2 && DigitsOf(n)[..|DigitsOf(n)| - 1] == DigitsOf(n / 10)
  {
  }

  lemma SignTextWithoutPoint(neg: bool, ds: string)
    requires AllDigits(ds)
    ensures '.' !in SignText(neg) + ds
  {
    NoPointInDigits(ds);
    assert forall i | 0 <= i < |SignText(neg) + ds| :: (SignText(neg) + ds)[i] != '.';
  }

  /** The parts of the text of a value typed with k > 0 fraction digits. */
  lemma ScaledParts(u: int, k: int) returns (ip: string, fp: string)
    requires k > 0
    ensures AllDigits(ip) && AllDigits(fp) && |ip| >= 1 && |fp| == k
    ensures DigitsValue(ip + fp) == Abs(u)
    ensures Typed(u, k) == SignText(u < 0) + (ip + "." + fp)
  {
    var p := Padded(Abs(u), k + 1);
    PlainTextScaled(Dec(u, k));
    ip, fp := p[..|p| - k], p[|p| - k..];
    assert ip + fp == p;
    assert Typed(u, k) == ToPlainString(Dec(u, k)) + "";
  }

  /** Without a point, the plain digits with their sign; with a bare point, a '.' after them. */
  lemma UnscaledParts(u: int, k: int) returns (ds: string)
    requires k <= 0
    ensures AllDigits(ds) && |ds| >= 1 && DigitsValue(ds) == Abs(u) && ds == DigitsOf(Abs(u))
    ensures Typed(u, k) == SignText(u < 0) + ds + (if k == 0 then "." else "")
  {
    ds := DigitsOf(Abs(u));
    UnscaledText(u);
    DigitsRoundTrip(Abs(u));
  }

  /** A sign and digits, read as an integer. */
  lemma ParseDigits(neg: bool, ds: string)
    requires AllDigits(ds) && |ds| >= 1
    ensures Parse(SignText(neg) + ds) == Some(Dec(Signed(neg, DigitsValue(ds)), 0))
  {
    ParseSigned(neg, ds);
    ParseWithoutPoint(ds);
  }

  lemma DigitAfterDigits(t: string, neg: bool, ds: string, d: nat, v: nat)
    requires AllDigits(ds) && |ds| >= 1 && d < 10 && v == DigitsValue(ds) * 10 + d
    requires t == SignText(neg) + ds
    ensures Parse(t + [DigitChar(d)]) == Some(Dec(Signed(neg, v), 0))
  {
    var c := DigitChar(d);
    assert DigitValue(c) == d;
    AppendDigitValue(ds, c);
    assert DigitsValue(ds + [c]) == v;
    ParseDigits(neg, ds + [c]);
    assert t + [c] == SignText(neg) + (ds + [c]);
  }

  lemma DigitAfterPoint(t: string, neg: bool, ip: string, fp: string, d: nat, v: nat, s: nat)
    requires AllDigits(ip) && AllDigits(fp) && |ip| >= 1 && d < 10
    requires v == DigitsValue(ip + fp) * 10 + d && s == |fp| + 1
    requires t == SignText(neg) + (ip + "." + fp)
    ensures Parse(t + [DigitChar(d)]) == Some(Dec(Signed(neg, v), s))
  {
    var c := DigitChar(d);
    AppendAfterPoint(t, SignText(neg), ip, fp, c);
    FractionDigitValue(ip, fp, d, v);
    ParseSignedPoint(neg, ip, fp + [c]);
  }

  lemma AppendAfterPoint(t: string, sign: string, ip: string, fp: string, c: char)
    requires t == sign + (ip + "." + fp)
    ensures t + [c] == sign + (ip + "." + (fp + [c]))
  {
  }

  lemma FractionDigitValue(ip: string, fp: string, d: nat, v: nat)
    requires AllDigits(ip) && AllDigits(fp) && d < 10 && v == DigitsValue(ip + fp) * 10 + d
    ensures AllDigits(fp + [DigitChar(d)]) && DigitsValue(ip + (fp + [DigitChar(d)])) == v
  {
    var c := DigitChar(d);
    assert DigitValue(c) == d;
    AppendDigitValue(ip + fp, c);
    assert ip + (fp + [c]) == (ip + fp) + [c];
  }

  /**
   * Typing digit d after the text gives ten times the magnitude plus d, with the sign kept;
   * the scale grows by one when there is a point and stays 0 otherwise.
   */
  lemma TypedDigit(u: int, k: int, d: nat)
    requires d < 10
    ensures Parse(Typed(u, k) + [DigitChar(d)]) ==
      Some(Dec(Signed(u < 0, Pushed(Abs(u), d)), if k >= 0 then Max(0, k) + 1 else 0))
  {
    var t := Typed(u, k);
    if k < 0 {
      TypedDigitUnscaled(t, u, k, d);
    } else if k == 0 {
      TypedDigitBare(t, u, k, d);
    } else {
      TypedDigitScaled(t, u, k, d);
    }
  }

  lemma TypedDigitUnscaled(t: string, u: int, k: int, d: nat)
    requires d < 10 && k < 0 && t == Typed(u, k)
    ensures Parse(t + [DigitChar(d)]) == Some(Dec(Signed(u < 0, Pushed(Abs(u), d)), if k >= 0 then Max(0, k) + 1 else 0))
  {
    var ds := UnscaledParts(u, k);
    assert t == SignText(u < 0) + ds + "";
    DigitAfterDigits(t, u < 0, ds, d, Pushed(Abs(u), d));
  }

  lemma TypedDigitBare(t: string, u: int, k: int, d: nat)
    requires d < 10 && k == 0 && t == Typed(u, k)
    ensures Parse(t + [DigitChar(d)]) == Some(Dec(Signed(u < 0, Pushed(Abs(u), d)), if k >= 0 then Max(0, k) + 1 else 0))
  {
    var ds := UnscaledParts(u, k);
    assert t == SignText(u < 0) + (ds + "." + "");
    assert ds + "" == ds;
    DigitAfterPoint(t, u < 0, ds, "", d, Pushed(Abs(u), d), 1);
  }

  lemma TypedDigitScaled(t: string, u: int, k: int, d: nat)
    requires d < 10 && k > 0 && t == Typed(u, k)
    ensures Parse(t + [DigitChar(d)]) == Some(Dec(Signed(u < 0, Pushed(Abs(u), d)), if k >= 0 then Max(0, k) + 1 else 0))
  {
    var ip, fp := ScaledParts(u, k);
    DigitAfterPoint(t, u < 0, ip, fp, d, Pushed(Abs(u), d), k + 1);
  }

  /** Typing digit d when there is no value reads d. */
  lemma FirstDigit(d: nat)
    requires d < 10
    ensures Parse("" + [DigitChar(d)]) == Some(Dec(d, 0))
  {
    var c := DigitChar(d);
    assert "" + [c] == SignText(false) + [c];
    ParseDigits(false, [c]);
    assert [c][..0] == [];
  }

  lemma EraseLastDigit(t: string, neg: bool, n: nat, v: nat)
    requires n >= 10 && v == n / 10 && t == SignText(neg) + DigitsOf(n)
    ensures |t| >= 1 && Parse(t[..|t| - 1]) == Some(Dec(Signed(neg, v), 0))
  {
    DigitsOfLast(n);
    var rest := DigitsOf(n / 10);
    assert t[..|t| - 1] == SignText(neg) + rest;
    DigitsRoundTrip(n / 10);
    ParseDigits(neg, rest);
  }

  lemma EraseFractionDigit(t: string, neg: bool, ip: string, fp: string, v: nat, s: nat)
    requires AllDigits(ip) && AllDigits(fp) && |ip| >= 1 && |fp| >= 1
    requires v == DigitsValue(ip + fp) / 10 && s == |fp| - 1
    requires t == SignText(neg) + (ip + "." + fp)
    ensures |t| >= 1 && Parse(t[..|t| - 1]) == Some(Dec(Signed(neg, v), s))
  {
    var short := fp[..|fp| - 1];
    assert t[..|t| - 1] == SignText(neg) + (ip + "." + short);
    assert ip + short == (ip + fp)[..|ip + fp| - 1];
    DropDigitValue(ip + fp);
    assert DigitsValue(ip + short) == v && |short| == s;
    ParseSignedPoint(neg, ip, short);
  }

  lemma EraseOnlyDigit(t: string, neg: bool, n: nat)
    requires n < 10 && t == SignText(neg) + DigitsOf(n)
    ensures |t| >= 1 && Parse(t[..|t| - 1]) == None
  {
    assert t[..|t| - 1] == SignText(neg);
  }

  lemma ErasePoint(t: string, u: int)
    requires t == ToPlainString(Dec(u, 0)) + "."
    ensures |t| >= 1 && Parse(t[..|t| - 1]) == Some(Dec(u, 0))
  {
    assert t[..|t| - 1] == ToPlainString(Dec(u, 0));
    PlainStringRoundTrip(Dec(u, 0));
  }

  /**
   * Erasing the last character of the text: a lone digit (with its sign) leaves nothing to
   * read; a bare point goes away; otherwise the last digit is dropped and the scale shrinks.
   */
  function Erased(u: int, k: int): Option<Dec>
  {
    if k < 0 && Abs(u) < 10 then None
    else if k == 0 then Some(Dec(u, 0))
    else Some(Dec(Signed(u < 0, Popped(Abs(u))), Max(0, k - 1)))
  }

  lemma TypedErase(u: int, k: int)
    ensures var t := Typed(u, k); |t| >= 1 && Parse(t[..|t| - 1]) == Erased(u, k)
  {
    var t := Typed(u, k);
    if k == 0 {
      TypedEraseBare(t, u, k);
    } else if k < 0 {
      TypedEraseUnscaled(t, u, k);
    } else {
      TypedEraseScaled(t, u, k);
    }
  }

  lemma TypedEraseBare(t: string, u: int, k: int)
    requires k == 0 && t == Typed(u, k)
    ensures |t| >= 1 && Parse(t[..|t| - 1]) == Erased(u, k)
  {
    ErasePoint(t, u);
  }

  lemma TypedEraseUnscaled(t: string, u: int, k: int)
    requires k < 0 && t == Typed(u, k)
    ensures |t| >= 1 && Parse(t[..|t| - 1]) == Erased(u, k)
  {
    var neg := u < 0;
    var ds := UnscaledParts(u, k);
    assert t == SignText(neg) + DigitsOf(Abs(u)) + "";
    if Abs(u) < 10 {
      EraseOnlyDigit(t, neg, Abs(u));
    } else {
      EraseLastDigit(t, neg, Abs(u), Popped(Abs(u)));
    }
  }

  lemma TypedEraseScaled(t: string, u: int, k: int)
    requires k > 0 && t == Typed(u, k)
    ensures |t| >= 1 && Parse(t[..|t| - 1]) == Erased(u, k)
  {
    var ip, fp := ScaledParts(u, k);
    var v := Popped(Abs(u));
    assert Erased(u, k) == Some(Dec(Signed(u < 0, v), k - 1));
    EraseFractionDigit(t, u < 0, ip, fp, v, k - 1);
  }

  /**
   * The text has a point exactly when k >= 0, and then the digits after it number k; so
   * the presenter's typed scale is the count the fraction-digit limit is checked against.
   */
  lemma TypedPoint(u: int, k: int)
    ensures IndexOf(Typed(u, k), '.') == -1 <==> k < 0
    ensures k >= 0 ==> FracDigits(Typed(u, k)) == k
  {
    var t := Typed(u, k);
    if k < 0 {
      NoPointUnscaled(t, u, k);
    } else if k == 0 {
      PointAtBare(t, u, k);
    } else {
      PointAtScaled(t, u, k);
    }
  }

  lemma NoPointUnscaled(t: string, u: int, k: int)
    requires k < 0 && t == Typed(u, k)
    ensures IndexOf(t, '.') == -1
  {
    var ds := UnscaledParts(u, k);
    assert t == SignText(u < 0) + ds + "";
    SignTextWithoutPoint(u < 0, ds);
    NoPointIndex(t);
  }

  lemma NoPointIndex(t: string)
    requires '.' !in t
    ensures IndexOf(t, '.') == -1
  {
  }

  lemma PointAtBare(t: string, u: int, k: int)
    requires k == 0 && t == Typed(u, k)
    ensures IndexOf(t, '.') != -1 && FracDigits(t) == k
  {
    var ds := UnscaledParts(u, k);
    assert t == SignText(u < 0) + (ds + "." + "");
    PointAfter(t, "", u < 0, ds);
  }

  lemma PointAtScaled(t: string, u: int, k: int)
    requires k > 0 && t == Typed(u, k)
    ensures IndexOf(t, '.') != -1 && FracDigits(t) == k
  {
    var ip, fp := ScaledParts(u, k);
    PointAfter(t, fp, u < 0, ip);
  }

  lemma PointAfter(t: string, fp: string, neg: bool, ds: string)
    requires AllDigits(ds) && t == SignText(neg) + (ds + "." + fp)
    ensures IndexOf(t, '.') == |SignText(neg) + ds| && FracDigits(t) == |fp|
  {
    var head := SignText(neg) + ds;
    assert t == head + ("." + fp);
    SignTextWithoutPoint(neg, ds);
    IndexOfAfter(head, "." + fp, '.');
  }

  /**
   * Erasing the digit just typed: the typed value comes back at its scale, except for a
   * lone 0 with no point, whose text the digit replaced.
   */
  lemma PushedThenErased(u: int, k: int, d: nat)
    requires k >= -1 && d < 10
    requires k == -1 ==> u != 0
    ensures var k1 := if k >= 0 then k + 1 else k;
      Erased(Signed(u < 0, Pushed(Abs(u), d)), k1) == Some(Dec(u, Max(0, k))) &&
      (if k1 >= 0 then k1 - 1 else k1) == k
  {
    var w := Pushed(Abs(u), d);
    assert Popped(w) == Abs(u);
    assert Signed(u < 0, Abs(u)) == u;
    assert Abs(Signed(u < 0, w)) == w;
  }
}
