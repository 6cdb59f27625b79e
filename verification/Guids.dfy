/**
 * System.Guid as the memory store uses it: Guid.ToString() (the hyphenated "D" form,
 * lower-case) and Guid.Parse. A Guid is its 32 hexadecimal digits in textual order.
 */
module Guids {
  import opened Wrappers
  import Text
  import Json

  type Nibble = d: nat | d < 16

  type Guid = s: seq<Nibble> | |s| == 32 witness seq(32, i => 0)

  /** Positions of the four hyphens in the "D" form. */
  predicate IsHyphenPosition(i: int)
  {
    i == 8 || i == 13 || i == 18 || i == 23
  }

  /** Position in the "D" form of the k-th hex digit. */
  function DigitPosition(k: nat): (i: nat)
    requires k < 32
    ensures i < 36 && !IsHyphenPosition(i)
  {
    if k < 8 then k else if k < 12 then k + 1 else if k < 16 then k + 2 else if k < 20 then k + 3 else k + 4
  }

  /** Which hex digit sits at a non-hyphen position of the "D" form. */
  function DigitIndex(i: nat): (k: nat)
    requires i < 36 && !IsHyphenPosition(i)
    ensures k < 32 && DigitPosition(k) == i
  {
    if i < 8 then i else if i < 13 then i - 1 else if i < 18 then i - 2 else if i < 23 then i - 3 else i - 4
  }

  function LowerHex(d: Nibble): (c: char)
    ensures Json.HexValue(c) == Some(d as nat)
  {
    if d < 10 then ('0' as int + d) as char else ('a' as int + d - 10) as char
  }

  /** Guid.ToString(): "xxxxxxxx-xxxx-xxxx-xxxx-xxxxxxxxxxxx", lower-case. */
  function Format(g: Guid): (s: string)
    ensures |s| == 36
    ensures forall i :: 0 <= i < 36 && IsHyphenPosition(i) ==> s[i] == '-'
  {
    seq(36, i requires 0 <= i < 36 => if IsHyphenPosition(i) then '-' else LowerHex(g[DigitIndex(i)]))
  }

  /** The "D" form, hex digits in either case. */
  function ParseHyphenated(s: string): (r: Option<Guid>)
    requires |s| == 36
  {
    if exists i :: 0 <= i < 36 && IsHyphenPosition(i) && s[i] != '-' then None
    else if exists k :: 0 <= k < 32 && Json.HexValue(s[DigitPosition(k)]).None? then None
    else Some(seq(32, k requires 0 <= k < 32 => Json.HexValue(s[DigitPosition(k)]).value))
  }

  /** The "N" form: 32 plain hex digits, no hyphens and no "+" or "0x" slice prefixes. */
  function ParseDigits(s: string): (r: Option<Guid>)
    requires |s| == 32
  {
    if exists k :: 0 <= k < 32 && Json.HexValue(s[k]).None? then None
    else Some(seq(32, k requires 0 <= k < 32 => Json.HexValue(s[k]).value))
  }

  /**
   * Guid.Parse: white space around the text is ignored; the "D" form, the "N"
   * form and the "D" form in braces or parentheses ("B" and "P") are read, each
   * group as plain hexadecimal digits. The "X" form (hexadecimal fields in nested
   * braces) and groups or "N"-form slices that start with "+" or "0x" are not
   * read here, so they fail with a FormatException like any other text.
   */
  function Parse(s: string): (r: Result<Guid>)
    ensures r.Failure? ==> r.error == FormatError
  {
    var t := Text.Trim(s);
    var g :=
      if |t| == 36 then ParseHyphenated(t)
      else if |t| == 32 then ParseDigits(t)
      else if |t| == 38 && ((t[0] == '{' && t[37] == '}') || (t[0] == '(' && t[37] == ')'))
      then ParseHyphenated(t[1..37])
      else None;
    match g
    case Some(v) => Success(v)
    case None => Failure(FormatError)
  }

  /** 't' is g in the "D" form: hyphens in their places, g's digits in either case around them. */
  predicate HyphenatedOf(t: string, g: Guid)
  {
    && |t| == 36
    && (forall i :: 0 <= i < 36 && IsHyphenPosition(i) ==> t[i] == '-')
    && (forall k :: 0 <= k < 32 ==> Json.HexValue(t[DigitPosition(k)]) == Some(g[k] as nat))
  }

  /** 't' is g in the "N" form: g's 32 digits in either case. */
  predicate DigitsOf(t: string, g: Guid)
  {
    |t| == 32 && forall k :: 0 <= k < 32 ==> Json.HexValue(t[k]) == Some(g[k] as nat)
  }

  /** 't' is g in the "D", "N", "B" or "P" form. */
  predicate GuidTextOf(t: string, g: Guid)
  {
    || HyphenatedOf(t, g)
    || DigitsOf(t, g)
    || (&& |t| == 38 && ((t[0] == '{' && t[37] == '}') || (t[0] == '(' && t[37] == ')'))
        && HyphenatedOf(t[1..37], g))
  }

  /** The "D"-form reader yields g exactly for g's "D" form. */
  lemma ParseHyphenatedOf(t: string, g: Guid)
    requires |t| == 36
    ensures ParseHyphenated(t) == Some(g) <==> HyphenatedOf(t, g)
  {
    if HyphenatedOf(t, g) {
      var p := seq(32, k requires 0 <= k < 32 => Json.HexValue(t[DigitPosition(k)]).value);
      assert p == g;
    }
  }

  /** The "N"-form reader yields g exactly for g's "N" form. */
  lemma ParseDigitsOf(t: string, g: Guid)
    requires |t| == 32
    ensures ParseDigits(t) == Some(g) <==> DigitsOf(t, g)
  {
    if DigitsOf(t, g) {
      var p := seq(32, k requires 0 <= k < 32 => Json.HexValue(t[k]).value);
      assert p == g;
    }
  }

  /**
   * Guid.Parse succeeds with g exactly when the trimmed text is g in one of the
   * "D", "N", "B" or "P" forms.
   */
  lemma ParseIsGuidText(s: string, g: Guid)
    ensures Parse(s) == Success(g) <==> GuidTextOf(Text.Trim(s), g)
  {
    var t := Text.Trim(s);
    if |t| == 36 {
      ParseHyphenatedOf(t, g);
    } else if |t| == 32 {
      ParseDigitsOf(t, g);
    } else if |t| == 38 {
      ParseHyphenatedOf(t[1..37], g);
    }
  }

  /** Guid.Parse(g.ToString()) == g. */
  lemma ParseFormat(g: Guid)
    ensures Parse(Format(g)) == Success(g)
  {
    var s := Format(g);
    assert forall i :: 0 <= i < |s| ==> !Text.IsWhiteSpace(s[i]);
    assert Text.CountLeading(s) == 0;
    assert Text.CountTrailing(s) == 0;
    assert Text.Trim(s) == s;
    forall k | 0 <= k < 32
      ensures Json.HexValue(s[DigitPosition(k)]) == Some(g[k] as nat)
    {
      assert DigitIndex(DigitPosition(k)) == k;
    }
    var p := seq(32, k requires 0 <= k < 32 => Json.HexValue(s[DigitPosition(k)]).value);
    assert p == g;
  }

  /** A parsed "D"-form text is the formatted Guid up to letter case. */
  lemma FormatParseHyphenated(s: string)
    requires |s| == 36 && ParseHyphenated(s).Some?
    ensures Text.EqualsIgnoreCase(Format(ParseHyphenated(s).value), s)
  {
    var g := ParseHyphenated(s).value;
    var f := Format(g);
    forall i | 0 <= i < 36
      ensures Text.ToUpperAscii(f[i]) == Text.ToUpperAscii(s[i])
    {
      if !IsHyphenPosition(i) {
        var k := DigitIndex(i);
        assert Json.HexValue(s[i]) == Some(g[k] as nat);
        assert Json.HexValue(f[i]) == Some(g[k] as nat);
      }
    }
  }

  /** Distinct Guids have distinct texts. */
  lemma FormatInjective(g: Guid, h: Guid)
    requires Format(g) == Format(h)
    ensures g == h
  {
    ParseFormat(g);
    ParseFormat(h);
  }
}
