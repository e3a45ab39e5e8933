/**
 * The realized-volatility estimator: splitting an announcement into
 * whitespace-separated words, picking the percentage token by position,
 * parsing it as a decimal number, and the rule that lets the estimate
 * replace σ only at checkpoint ticks and only when it is positive.
 */
module News {
  import opened Wrappers

  // ---------------------------------------------------------------------------
  // Splitting on whitespace (Python's `str.split()` with no argument)
  // ---------------------------------------------------------------------------

  /** The characters `str.split()` treats as separators. */
  predicate IsSpace(c: char)
  {
    c == ' ' || '\t' <= c <= '\r' || '\U{1C}' <= c <= '\U{1F}' || c == '\U{85}' || c == '\U{A0}' ||
    c == '\U{1680}' || '\U{2000}' <= c <= '\U{200A}' || c == '\U{2028}' || c == '\U{2029}' ||
    c == '\U{202F}' || c == '\U{205F}' || c == '\U{3000}'
  }

  /** A word: non-empty and free of separators. */
  predicate IsWord(w: string)
  {
    |w| > 0 && forall i :: 0 <= i < |w| ==> !IsSpace(w[i])
  }

  /** Length of the word at the start of `s`. */
  function WordLength(s: string): (n: nat)
    requires s != [] && !IsSpace(s[0])
    ensures 1 <= n <= |s| && IsWord(s[..n])
    ensures n < |s| ==> IsSpace(s[n])
    decreases |s|
  {
    if |s| == 1 || IsSpace(s[1]) then 1 else 1 + WordLength(s[1..])
  }

  /** The words of `s`, in order, as `s.split()` returns them. */
  function Words(s: string): (ws: seq<string>)
    ensures forall i :: 0 <= i < |ws| ==> IsWord(ws[i])
    decreases |s|
  {
    if s == [] then []
    else if IsSpace(s[0]) then Words(s[1..])
    else
      var n := WordLength(s);
      [s[..n]] + Words(s[n..])
  }

  lemma {:induction false} WordLengthOfWord(w: string, rest: string)
    requires IsWord(w)
    requires rest == [] || IsSpace(rest[0])
    ensures WordLength(w + rest) == |w|
    decreases |w|
  {
    if |w| > 1 {
      assert (w + rest)[1..] == w[1..] + rest;
      WordLengthOfWord(w[1..], rest);
    }
  }

  /** A run of separators, possibly empty. */
  predicate Blank(g: string)
  {
    forall i :: 0 <= i < |g| ==> IsSpace(g[i])
  }

  /** The text `gaps[0] ws[0] gaps[1] ws[1] ... ws[n-1] gaps[n]`. */
  function Layout(gaps: seq<string>, ws: seq<string>): (s: string)
    requires |gaps| == |ws| + 1
    ensures ws == [] ==> s == gaps[0]
    decreases |ws|
  {
    if ws == [] then gaps[0] else gaps[0] + ws[0] + Layout(gaps[1..], ws[1..])
  }

  /** `gaps` can lay out `ws`: separator runs, those between two words non-empty. */
  predicate Separates(gaps: seq<string>, ws: seq<string>)
  {
    |gaps| == |ws| + 1 &&
    (forall i :: 0 <= i < |gaps| ==> Blank(gaps[i])) &&
    (forall i :: 0 < i < |ws| ==> gaps[i] != [])
  }

  /** A layout whose first gap is non-empty, or that has no word, starts with a separator or is empty. */
  lemma LayoutStart(gaps: seq<string>, ws: seq<string>)
    requires Separates(gaps, ws) && (gaps[0] != [] || ws == [])
    ensures Layout(gaps, ws) == [] || IsSpace(Layout(gaps, ws)[0])
  {
    if ws != [] {
      assert Layout(gaps, ws)[0] == gaps[0][0];
    }
  }

  /** Leading separators are skipped. */
  lemma {:induction false} WordsBlank(g: string, s: string)
    requires Blank(g)
    ensures Words(g + s) == Words(s)
    decreases |g|
  {
    if g != [] {
      assert (g + s)[0] == g[0] && IsSpace(g[0]);
      assert (g + s)[1..] == g[1..] + s;
      assert Blank(g[1..]);
      WordsBlank(g[1..], s);
    } else {
      assert g + s == s;
    }
  }

  /** A word followed by the end or a separator is split off whole. */
  lemma WordsWord(w: string, rest: string)
    requires IsWord(w)
    requires rest == [] || IsSpace(rest[0])
    ensures Words(w + rest) == [w] + Words(rest)
  {
    var s := w + rest;
    WordLengthOfWord(w, rest);
    assert s[0] == w[0];
    assert s[..|w|] == w && s[|w|..] == rest;
  }

  /**
   * Words separated by runs of whitespace, with optional whitespace before
   * and after, split back into exactly those words.
   */
  lemma {:induction false} WordsLayout(gaps: seq<string>, ws: seq<string>)
    requires forall i :: 0 <= i < |ws| ==> IsWord(ws[i])
    requires Separates(gaps, ws)
    ensures Words(Layout(gaps, ws)) == ws
    decreases |ws|
  {
    if ws == [] {
      WordsBlank(gaps[0], []);
      assert gaps[0] + [] == gaps[0];
    } else {
      var rest := Layout(gaps[1..], ws[1..]);
      assert Layout(gaps, ws) == gaps[0] + (ws[0] + rest);
      WordsBlank(gaps[0], ws[0] + rest);
      assert Separates(gaps[1..], ws[1..]);
      LayoutStart(gaps[1..], ws[1..]);
      WordsWord(ws[0], rest);
      WordsLayout(gaps[1..], ws[1..]);
      assert [ws[0]] + ws[1..] == ws;
    }
  }

  /** A separator in front of a layout joins its first gap. */
  lemma CoverSpace(c: char, rest: string, g: seq<string>, ws: seq<string>) returns (gaps: seq<string>)
    requires IsSpace(c)
    requires Separates(g, ws) && Layout(g, ws) == rest
    ensures Separates(gaps, ws) && Layout(gaps, ws) == [c] + rest
  {
    gaps := [[c] + g[0]] + g[1..];
    assert Layout(gaps, ws) == [c] + rest by {
      assert gaps[1..] == g[1..];
      if ws != [] {
        assert Layout(gaps, ws) == ([c] + g[0]) + ws[0] + Layout(g[1..], ws[1..]);
        assert Layout(g, ws) == g[0] + ws[0] + Layout(g[1..], ws[1..]);
      }
    }
    forall i | 0 < i < |gaps|
      ensures gaps[i] == g[i]
    {
    }
  }

  /** A layout of at least one word that starts with a separator has a non-empty first gap. */
  lemma FirstGap(g: seq<string>, ws: seq<string>)
    requires |g| == |ws| + 1 && ws != [] && IsWord(ws[0])
    requires Layout(g, ws) == [] || IsSpace(Layout(g, ws)[0])
    ensures g[0] != []
  {
    assert Layout(g, ws) == g[0] + ws[0] + Layout(g[1..], ws[1..]);
  }

  /** A word in front of a layout that starts with a separator gets an empty first gap. */
  lemma CoverWord(w: string, rest: string, g: seq<string>, ws: seq<string>) returns (gaps: seq<string>)
    requires IsWord(w) && (rest == [] || IsSpace(rest[0]))
    requires (forall i :: 0 <= i < |ws| ==> IsWord(ws[i])) && Separates(g, ws) && Layout(g, ws) == rest
    ensures Separates(gaps, [w] + ws) && Layout(gaps, [w] + ws) == w + rest
  {
    gaps := [[]] + g;
    if ws != [] {
      FirstGap(g, ws);
    }
    assert Layout(gaps, [w] + ws) == w + rest by {
      assert gaps[1..] == g && ([w] + ws)[1..] == ws;
      assert [] + w + rest == w + rest;
    }
    forall i | 0 < i < |gaps|
      ensures gaps[i] == g[i - 1]
    {
    }
  }

  /** Every text is its words laid out between separator runs. */
  lemma {:induction false} WordsCover(s: string) returns (gaps: seq<string>)
    ensures Separates(gaps, Words(s)) && Layout(gaps, Words(s)) == s
    decreases |s|
  {
    if s == [] {
      gaps := [[]];
    } else if IsSpace(s[0]) {
      var g := WordsCover(s[1..]);
      gaps := CoverSpace(s[0], s[1..], g, Words(s[1..]));
      assert [s[0]] + s[1..] == s;
    } else {
      var n := WordLength(s);
      var w, r := s[..n], s[n..];
      assert s == w + r;
      var g := WordsCover(r);
      WordsWord(w, r);
      gaps := CoverWord(w, r, g, Words(r));
    }
  }

  // ---------------------------------------------------------------------------
  // Decimal numbers (the part of Python's `float()` the announcements use)
  // ---------------------------------------------------------------------------

  predicate IsDigit(c: char)
  {
    '0' <= c <= '9'
  }

  predicate AllDigits(s: string)
  {
    forall i :: 0 <= i < |s| ==> IsDigit(s[i])
  }

  /** The number a string of decimal digits denotes. */
  function DigitsValue(s: string): nat
    requires AllDigits(s)
    decreases |s|
  {
    if s == [] then 0 else DigitsValue(s[..|s| - 1]) * 10 + (s[|s| - 1] as int - '0' as int)
  }

  function Pow10(n: nat): (p: nat)
    ensures p >= 1
  {
    if n == 0 then 1 else 10 * Pow10(n - 1)
  }

  /** The value of the digits after a decimal point. */
  function FractionValue(frac: string): (v: real)
    requires AllDigits(frac)
    ensures v >= 0.0
  {
    DigitsValue(frac) as real / Pow10(|frac|) as real
  }

  /** Position of the first '.' in `s`, or |s| when there is none. */
  function DotIndex(s: string): (k: nat)
    ensures k <= |s|
    ensures k < |s| ==> s[k] == '.'
    ensures forall j :: 0 <= j < k ==> s[j] != '.'
    decreases |s|
  {
    if s == [] then 0 else if s[0] == '.' then 0 else 1 + DotIndex(s[1..])
  }

  /** An unsigned decimal: digits and at most one point, with at least one digit. */
  predicate IsUnsignedDecimal(s: string)
  {
    (forall i :: 0 <= i < |s| ==> IsDigit(s[i]) || s[i] == '.') &&
    (forall i, j :: 0 <= i < j < |s| ==> s[i] != '.' || s[j] != '.') &&
    (exists i :: 0 <= i < |s| && IsDigit(s[i]))
  }

  /** `s` without its points. */
  function DropPoint(s: string): (r: string)
    ensures (forall i :: 0 <= i < |s| ==> IsDigit(s[i]) || s[i] == '.') ==> AllDigits(r)
    decreases |s|
  {
    if s == [] then []
    else DropPoint(s[..|s| - 1]) + (if s[|s| - 1] == '.' then [] else [s[|s| - 1]])
  }

  /** Number of characters after the first point, 0 when there is none. */
  function Scale(s: string): nat
  {
    if DotIndex(s) < |s| then |s| - DotIndex(s) - 1 else 0
  }

  /** The value of an unsigned decimal: its digits as an integer, shifted right by its scale. */
  function DecimalValue(s: string): real
    requires IsUnsignedDecimal(s)
  {
    DigitsValue(DropPoint(s)) as real / Pow10(Scale(s)) as real
  }

  lemma ShiftDigit(a: int, q: int, b: int, d: int)
    ensures (a * q + b) * 10 + d == a * (10 * q) + (b * 10 + d)
  {
  }

  lemma {:induction false} DigitsValueAppend(a: string, b: string)
    requires AllDigits(a) && AllDigits(b)
    ensures DigitsValue(a + b) == DigitsValue(a) * Pow10(|b|) + DigitsValue(b)
    decreases |b|
  {
    if b == [] {
      assert a + b == a;
    } else {
      var b' := b[..|b| - 1];
      var d := b[|b| - 1] as int - '0' as int;
      assert (a + b)[..|a + b| - 1] == a + b' && (a + b)[|a + b| - 1] == b[|b| - 1];
      DigitsValueAppend(a, b');
      assert DigitsValue(a + b) == DigitsValue(a + b') * 10 + d;
      assert DigitsValue(b) == DigitsValue(b') * 10 + d;
      assert Pow10(|b|) == 10 * Pow10(|b'|);
      ShiftDigit(DigitsValue(a), Pow10(|b'|), DigitsValue(b'), d);
    }
  }

  lemma {:induction false} DropPointAppend(a: string, b: string)
    ensures DropPoint(a + b) == DropPoint(a) + DropPoint(b)
    decreases |b|
  {
    if b == [] {
      assert a + b == a;
    } else {
      assert (a + b)[..|a + b| - 1] == a + b[..|b| - 1];
      DropPointAppend(a, b[..|b| - 1]);
    }
  }

  lemma {:induction false} DropPointNone(s: string)
    requires forall i :: 0 <= i < |s| ==> s[i] != '.'
    ensures DropPoint(s) == s
    decreases |s|
  {
    if s != [] {
      DropPointNone(s[..|s| - 1]);
    }
  }

  lemma {:induction false} DotIndexNone(s: string)
    requires AllDigits(s)
    ensures DotIndex(s) == |s|
    decreases |s|
  {
    if s != [] {
      DotIndexNone(s[1..]);
    }
  }

  lemma {:induction false} DotIndexAfter(w: string, rest: string)
    requires AllDigits(w) && rest != [] && rest[0] == '.'
    ensures DotIndex(w + rest) == |w|
    decreases |w|
  {
    if w != [] {
      assert (w + rest)[1..] == w[1..] + rest;
      DotIndexAfter(w[1..], rest);
    }
  }

  /** A point between two digit strings, one of them non-empty, makes an unsigned decimal. */
  lemma PointShape(whole: string, frac: string)
    requires AllDigits(whole) && AllDigits(frac) && |whole| + |frac| > 0
    ensures IsUnsignedDecimal(whole + "." + frac)
  {
    var s := whole + "." + frac;
    var k := |whole|;
    assert forall i :: 0 <= i < k ==> s[i] == whole[i];
    assert forall i :: k < i < |s| ==> s[i] == frac[i - k - 1];
    if |whole| > 0 {
      assert IsDigit(s[0]);
    } else {
      assert IsDigit(s[k + 1]);
    }
  }

  lemma DropPointPoint(whole: string, frac: string)
    requires AllDigits(whole) && AllDigits(frac)
    ensures DropPoint(whole + "." + frac) == whole + frac
  {
    var w := whole + ".";
    assert w[..|w| - 1] == whole;
    assert DropPoint(w) == DropPoint(whole);
    DropPointAppend(w, frac);
    DropPointNone(whole);
    DropPointNone(frac);
  }

  lemma ShiftSplit(n: nat, w: nat, f: nat, p: nat)
    requires p >= 1 && n == w * p + f
    ensures n as real / p as real == w as real + f as real / p as real
  {
    assert n as real == w as real * p as real + f as real;
  }

  lemma ScalePoint(whole: string, frac: string)
    requires AllDigits(whole)
    ensures Scale(whole + "." + frac) == |frac|
  {
    DotIndexAfter(whole, "." + frac);
    assert whole + "." + frac == whole + ("." + frac);
  }

  lemma PointDigits(whole: string, frac: string)
    requires AllDigits(whole) && AllDigits(frac)
    ensures DigitsValue(DropPoint(whole + "." + frac)) == DigitsValue(whole) * Pow10(|frac|) + DigitsValue(frac)
  {
    DropPointPoint(whole, frac);
    DigitsValueAppend(whole, frac);
  }

  /** ... and its value is the whole part plus the fraction. */
  lemma DecimalValuePoint(whole: string, frac: string)
    requires AllDigits(whole) && AllDigits(frac) && |whole| + |frac| > 0
    ensures IsUnsignedDecimal(whole + "." + frac)
    ensures DecimalValue(whole + "." + frac) == DigitsValue(whole) as real + FractionValue(frac)
  {
    PointShape(whole, frac);
    ScalePoint(whole, frac);
    PointDigits(whole, frac);
    var s := whole + "." + frac;
    ShiftSplit(DigitsValue(DropPoint(s)), DigitsValue(whole), DigitsValue(frac), Pow10(|frac|));
  }

  /** A non-empty digit string is an unsigned decimal worth its digits. */
  lemma DecimalValueDigits(s: string)
    requires AllDigits(s) && |s| > 0
    ensures IsUnsignedDecimal(s) && DecimalValue(s) == DigitsValue(s) as real
  {
    assert IsDigit(s[0]);
    assert IsUnsignedDecimal(s);
    DotIndexNone(s);
    DropPointNone(s);
    assert Pow10(Scale(s)) == 1;
    assert DecimalValue(s) == DigitsValue(s) as real / 1.0;
  }

  /** The digit strings around the first point. */
  function Whole(s: string): string
  {
    s[..DotIndex(s)]
  }

  function Fraction(s: string): string
  {
    if DotIndex(s) < |s| then s[DotIndex(s) + 1..] else []
  }

  /** The two digit strings around the first point decide an unsigned decimal... */
  lemma UnsignedShape(s: string)
    ensures AllDigits(Whole(s)) && AllDigits(Fraction(s)) && |Whole(s)| + |Fraction(s)| > 0 <==> IsUnsignedDecimal(s)
  {
    var k := DotIndex(s);
    var whole, frac := Whole(s), Fraction(s);
    assert forall i :: 0 <= i < k ==> s[i] == whole[i];
    assert forall i :: k < i < |s| ==> s[i] == frac[i - k - 1];
    if AllDigits(whole) && AllDigits(frac) && |whole| + |frac| > 0 {
      if k < |s| {
        assert s == whole + "." + frac;
        PointShape(whole, frac);
      } else {
        assert IsDigit(s[0]);
      }
    }
    if IsUnsignedDecimal(s) {
      forall j | 0 <= j < |frac|
        ensures IsDigit(frac[j])
      {
        assert s[k] == '.' && s[k + 1 + j] == frac[j];
      }
      var i :| 0 <= i < |s| && IsDigit(s[i]);
      assert i != k;
    }
  }

  /** ... and its value. */
  lemma UnsignedValue(s: string)
    requires IsUnsignedDecimal(s)
    ensures AllDigits(Whole(s)) && AllDigits(Fraction(s))
    ensures DecimalValue(s) == DigitsValue(Whole(s)) as real + FractionValue(Fraction(s))
  {
    UnsignedShape(s);
    var whole, frac := Whole(s), Fraction(s);
    if DotIndex(s) < |s| {
      assert s == whole + "." + frac;
      DecimalValuePoint(whole, frac);
    } else {
      assert s == whole && frac == [];
      DecimalValueDigits(s);
    }
  }

  /** An unsigned decimal: digits, optionally a point and more digits, at least one digit in all. */
  function ParseUnsigned(s: string): (r: Option<real>)
    ensures r.Some? <==> IsUnsignedDecimal(s)
    ensures r.Some? ==> r.value == DecimalValue(s) && r.value >= 0.0
  {
    var whole, frac := Whole(s), Fraction(s);
    UnsignedShape(s);
    if AllDigits(whole) && AllDigits(frac) && |whole| + |frac| > 0 then
      UnsignedValue(s);
      Some(DigitsValue(whole) as real + FractionValue(frac))
    else None
  }

  /** A decimal with an optional sign, as `float()` reads it. */
  function ParseFloat(s: string): (r: Option<real>)
    ensures r.Some? <==> IsUnsignedDecimal(s) || (|s| > 0 && (s[0] == '+' || s[0] == '-') && IsUnsignedDecimal(s[1..]))
    ensures IsUnsignedDecimal(s) ==> r == Some(DecimalValue(s))
    ensures |s| > 0 && s[0] == '+' && IsUnsignedDecimal(s[1..]) ==> r == Some(DecimalValue(s[1..]))
    ensures |s| > 0 && s[0] == '-' && IsUnsignedDecimal(s[1..]) ==> r == Some(-DecimalValue(s[1..]))
  {
    if |s| > 0 && (s[0] == '+' || s[0] == '-') then
      match ParseUnsigned(s[1..])
      case None => None
      case Some(v) => Some(if s[0] == '-' then -v else v)
    else ParseUnsigned(s)
  }

  /** Decimal rendering of a natural number, most significant digit first. */
  function NatToString(n: nat): (s: string)
    ensures |s| > 0 && AllDigits(s)
  {
    var d := ['0' + (n % 10) as char];
    if n < 10 then d else NatToString(n / 10) + d
  }

  lemma {:induction false} DigitsValueNatToString(n: nat)
    ensures DigitsValue(NatToString(n)) == n
  {
    if n >= 10 {
      var s := NatToString(n);
      assert s[..|s| - 1] == NatToString(n / 10);
      DigitsValueNatToString(n / 10);
    }
  }

  /** A rendered natural number parses back to itself. */
  lemma ParseFloatNatToString(n: nat)
    ensures ParseFloat(NatToString(n)) == Some(n as real)
  {
    DecimalValueDigits(NatToString(n));
    DigitsValueNatToString(n);
  }

  /** "<whole>.<frac>" parses to whole plus the fraction's digits over 10^|frac|. */
  lemma ParseFloatFraction(whole: nat, frac: string)
    requires AllDigits(frac)
    ensures ParseFloat(NatToString(whole) + "." + frac) ==
              Some(whole as real + FractionValue(frac))
  {
    var w := NatToString(whole);
    DecimalValuePoint(w, frac);
    DigitsValueNatToString(whole);
  }

  // ---------------------------------------------------------------------------
  // The announcement
  // ---------------------------------------------------------------------------

  /** The estimate when parsing fails. */
  const Invalid: real := -1.0

  /**
   * `s[:-k]`: all but the last `k` characters, empty when there are fewer;
   * as in Python, `s[:-0]` is empty too.
   */
  function DropLast(s: string, k: nat): (r: string)
    ensures r <= s
    ensures |r| == if 0 < k <= |s| then |s| - k else 0
  {
    if 0 < k <= |s| then s[..|s| - k] else []
  }

  /**
   * The token holding the percentage: the last of exactly 16 words minus
   * its final character, otherwise word 29 minus its final two characters;
   * None when there is no word 29.
   */
  function PickedToken(ws: seq<string>): (tok: Option<string>)
    ensures tok.None? <==> |ws| != 16 && |ws| < 30
    ensures |ws| == 16 ==> tok == Some(DropLast(ws[15], 1))
    ensures |ws| != 16 && |ws| >= 30 ==> tok == Some(DropLast(ws[29], 2))
  {
    if |ws| == 16 then Some(DropLast(ws[15], 1))
    else if |ws| > 29 then Some(DropLast(ws[29], 2))
    else None
  }

  /** The realized volatility an announcement states, or -1 when it cannot be read. */
  function RealizedVolatility(body: string): (r: real)
    ensures var ws := Words(body);
            |ws| != 16 && |ws| < 30 ==> r == Invalid
    ensures var ws := Words(body);
            |ws| == 16 && ParseFloat(DropLast(ws[15], 1)).None? ==> r == Invalid
    ensures var ws := Words(body);
            |ws| == 16 && ParseFloat(DropLast(ws[15], 1)).Some? ==> r == ParseFloat(DropLast(ws[15], 1)).value / 100.0
    ensures var ws := Words(body);
            |ws| != 16 && |ws| >= 30 && ParseFloat(DropLast(ws[29], 2)).None? ==> r == Invalid
    ensures var ws := Words(body);
            |ws| != 16 && |ws| >= 30 && ParseFloat(DropLast(ws[29], 2)).Some? ==> r == ParseFloat(DropLast(ws[29], 2)).value / 100.0
  {
    match PickedToken(Words(body))
    case None => Invalid
    case Some(tok) =>
      match ParseFloat(tok)
      case None => Invalid
      case Some(v) => v / 100.0
  }

  /**
   * The first announcement: a body of 16 words whose last word is a
   * number followed by one character (such as "20%") states that number
   * as a percentage.
   */
  lemma FirstAnnouncement(body: string, tok: string, c: char, v: real)
    requires |Words(body)| == 16 && Words(body)[15] == tok + [c]
    requires ParseFloat(tok) == Some(v)
    ensures RealizedVolatility(body) == v / 100.0
  {
    assert DropLast(tok + [c], 1) == tok;
  }

  /**
   * A later announcement: a body of at least 30 words (not 16) whose word
   * 29 is a number followed by two characters (such as "25%,") states that
   * number as a percentage.
   */
  lemma WeeklyAnnouncement(body: string, tok: string, c1: char, c2: char, v: real)
    requires |Words(body)| >= 30 && Words(body)[29] == tok + [c1, c2]
    requires ParseFloat(tok) == Some(v)
    ensures RealizedVolatility(body) == v / 100.0
  {
    assert DropLast(tok + [c1, c2], 2) == tok;
  }

  // ---------------------------------------------------------------------------
  // σ gating in the driver loop
  // ---------------------------------------------------------------------------

  /** σ before any announcement has been read successfully. */
  const Unknown: real := -1.0

  /** Ticks at which the driver reads the latest announcement (around each weekly boundary). */
  const Checkpoints: set<int> := {1, 2, 74, 75, 149, 150, 224, 225}

  /** σ after processing `tick`, whose latest announcement is `news`. */
  function NextSigma(sigma: real, tick: int, news: string): (s: real)
    ensures s != sigma ==> tick in Checkpoints && s > 0.0
    ensures tick in Checkpoints && RealizedVolatility(news) > 0.0 ==> s == RealizedVolatility(news)
    ensures tick !in Checkpoints || RealizedVolatility(news) <= 0.0 ==> s == sigma
  {
    if tick in Checkpoints then
      var temp := RealizedVolatility(news);
      if temp > 0.0 then temp else sigma
    else sigma
  }

  /** One processed tick and the latest announcement at that tick. */
  datatype TickNews = TickNews(tick: int, news: string)

  /** A usable reading: a checkpoint tick whose announcement gives a positive estimate. */
  predicate Usable(e: TickNews)
  {
    e.tick in Checkpoints && RealizedVolatility(e.news) > 0.0
  }

  /** σ after a run of processed ticks. */
  function SigmaAfter(sigma: real, run: seq<TickNews>): real
    decreases |run|
  {
    if run == [] then sigma
    else NextSigma(SigmaAfter(sigma, run[..|run| - 1]), run[|run| - 1].tick, run[|run| - 1].news)
  }

  /** Without a usable reading σ keeps its value. */
  lemma {:induction false} SigmaAfterNoUsable(sigma: real, run: seq<TickNews>)
    requires forall i :: 0 <= i < |run| ==> !Usable(run[i])
    ensures SigmaAfter(sigma, run) == sigma
    decreases |run|
  {
    if run != [] {
      SigmaAfterNoUsable(sigma, run[..|run| - 1]);
    }
  }

  /** After a usable reading and no later one, σ is that reading's estimate. */
  lemma {:induction false} SigmaAfterLastUsable(sigma: real, run: seq<TickNews>, i: nat)
    requires i < |run| && Usable(run[i])
    requires forall j :: i < j < |run| ==> !Usable(run[j])
    ensures SigmaAfter(sigma, run) == RealizedVolatility(run[i].news)
    decreases |run|
  {
    if i < |run| - 1 {
      var init := run[..|run| - 1];
      assert init[i] == run[i];
      SigmaAfterLastUsable(sigma, init, i);
    }
  }

  /** σ is either still the sentinel or a positive estimate. */
  lemma {:induction false} SigmaAfterRange(run: seq<TickNews>)
    ensures SigmaAfter(Unknown, run) == Unknown || SigmaAfter(Unknown, run) > 0.0
    decreases |run|
  {
    if run != [] {
      SigmaAfterRange(run[..|run| - 1]);
    }
  }
}
