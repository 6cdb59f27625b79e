/**
 * The .NET string operations the application relies on, over 'seq<char>':
 * char.IsWhiteSpace, string.Trim, string.Join, ordinal Contains,
 * ordinal-ignore-case equality, line splitting and Int32.ToString.
 */
module Text {
  import Seqs

  /** The line terminator that StringBuilder.AppendLine and the multi-line literals produce. */
  const NewLine: string := "\n"

  /** char.IsWhiteSpace: the Unicode space separators, line and paragraph separators and the
      control characters U+0009..U+000D and U+0085. */
  predicate IsWhiteSpace(c: char)
  {
    || ('\U{0009}' <= c <= '\U{000D}')
    || c == '\U{0020}' || c == '\U{0085}' || c == '\U{00A0}' || c == '\U{1680}'
    || ('\U{2000}' <= c <= '\U{200A}')
    || c == '\U{2028}' || c == '\U{2029}' || c == '\U{202F}' || c == '\U{205F}' || c == '\U{3000}'
  }

  /** string.IsNullOrWhiteSpace on a non-null string. */
  predicate AllWhiteSpace(s: string)
  {
    forall i :: 0 <= i < |s| ==> IsWhiteSpace(s[i])
  }

  /** Number of leading white-space characters. */
  function CountLeading(s: string): (n: nat)
    ensures n <= |s|
    ensures forall i :: 0 <= i < n ==> IsWhiteSpace(s[i])
    ensures n < |s| ==> !IsWhiteSpace(s[n])
  {
    if s == [] || !IsWhiteSpace(s[0]) then 0 else 1 + CountLeading(s[1..])
  }

  /** Number of trailing white-space characters. */
  function CountTrailing(s: string): (n: nat)
    ensures n <= |s|
    ensures forall i :: |s| - n <= i < |s| ==> IsWhiteSpace(s[i])
    ensures n < |s| ==> !IsWhiteSpace(s[|s| - 1 - n])
  {
    if s == [] || !IsWhiteSpace(s[|s| - 1]) then 0 else 1 + CountTrailing(s[..|s| - 1])
  }

  /** string.Trim(): removes leading and trailing white space and nothing else. */
  function Trim(s: string): (r: string)
    ensures r == [] <==> AllWhiteSpace(s)
    ensures r != [] ==> !IsWhiteSpace(r[0]) && !IsWhiteSpace(r[|r| - 1])
    ensures r != [] ==> CountLeading(s) + |r| + CountTrailing(s) == |s|
    ensures forall k :: 0 <= k < |r| ==> r[k] == s[CountLeading(s) + k]
  {
    var lead := CountLeading(s);
    if lead == |s| then
      []
    else
      var trail := CountTrailing(s);
      assert !IsWhiteSpace(s[lead]);
      assert |s| - trail > lead;
      s[lead..|s| - trail]
  }

  lemma {:induction false} CountLeadingPadded(pre: string, rest: string)
    requires AllWhiteSpace(pre) && rest != [] && !IsWhiteSpace(rest[0])
    ensures CountLeading(pre + rest) == |pre|
  {
    if pre == [] {
      assert pre + rest == rest;
    } else {
      assert (pre + rest)[1..] == pre[1..] + rest;
      CountLeadingPadded(pre[1..], rest);
    }
  }

  lemma {:induction false} CountTrailingPadded(rest: string, post: string)
    requires AllWhiteSpace(post) && rest != [] && !IsWhiteSpace(rest[|rest| - 1])
    ensures CountTrailing(rest + post) == |post|
  {
    if post == [] {
      assert rest + post == rest;
    } else {
      assert (rest + post)[..|rest + post| - 1] == rest + post[..|post| - 1];
      CountTrailingPadded(rest, post[..|post| - 1]);
    }
  }

  /** Trim takes off exactly the white space around a word that starts and ends with other characters. */
  lemma TrimPadded(pre: string, w: string, post: string)
    requires AllWhiteSpace(pre) && AllWhiteSpace(post)
    requires w != [] && !IsWhiteSpace(w[0]) && !IsWhiteSpace(w[|w| - 1])
    ensures Trim(pre + w + post) == w
  {
    var s := pre + w + post;
    assert s == pre + (w + post);
    CountLeadingPadded(pre, w + post);
    CountTrailingPadded(pre + w, post);
    assert s[|pre|..|s| - |post|] == w;
  }

  /** Trim never introduces a character: every character of the result is one of the input's. */
  lemma TrimChars(s: string, c: char)
    requires c in Trim(s)
    ensures c in s
  {
    var r := Trim(s);
    var k :| 0 <= k < |r| && r[k] == c;
    assert s[CountLeading(s) + k] == c;
  }

  /** string.Join(sep, words). */
  function Join(sep: string, words: seq<string>): (r: string)
  {
    if words == [] then ""
    else if |words| == 1 then words[0]
    else words[0] + sep + Join(sep, words[1..])
  }

  /** A join holds no character that neither the separator nor any word holds. */
  lemma {:induction false} JoinAvoids(sep: string, words: seq<string>, c: char)
    requires c !in sep
    requires forall i :: 0 <= i < |words| ==> c !in words[i]
    ensures c !in Join(sep, words)
  {
    if |words| > 1 {
      JoinAvoids(sep, words[1..], c);
    }
  }

  /** Index of the first occurrence of 'c'. */
  function IndexOf(s: string, c: char): (i: nat)
    requires c in s
    ensures i < |s| && s[i] == c && c !in s[..i]
  {
    if s[0] == c then 0 else 1 + IndexOf(s[1..], c)
  }

  /** The first occurrence is the one with no earlier occurrence. */
  lemma {:induction false} IndexOfFirst(s: string, c: char, i: nat)
    requires i < |s| && s[i] == c && c !in s[..i]
    ensures c in s && IndexOf(s, c) == i
  {
    assert s[i] in s;
    if i > 0 {
      assert s[0] in s[..i];
      assert s[1..][..i - 1] == s[..i][1..];
      IndexOfFirst(s[1..], c, i - 1);
    }
  }

  /** string.Split(sep): the pieces between occurrences of 'sep'. */
  function Split(s: string, sep: char): (r: seq<string>)
    ensures r != []
    decreases |s|
  {
    if sep !in s then [s]
    else
      var i := IndexOf(s, sep);
      [s[..i]] + Split(s[i + 1..], sep)
  }

  /** Splitting a join by a separator that no word contains gives the words back. */
  lemma {:induction false} SplitJoin(words: seq<string>, sep: char)
    requires words != []
    requires forall w :: w in words ==> sep !in w
    ensures Split(Join([sep], words), sep) == words
  {
    if |words| > 1 {
      var w := words[0];
      var s := Join([sep], words);
      var rest := Join([sep], words[1..]);
      assert s == w + [sep] + rest;
      assert s[..|w|] == w;
      IndexOfFirst(s, sep, |w|);
      assert s[|w| + 1..] == rest;
      SplitJoin(words[1..], sep);
    }
  }

  /**
   * The lines of a text as a reader sees them: the pieces ended by a line
   * terminator, plus a final unterminated piece when the text does not end in one.
   */
  function Lines(s: string): (r: seq<string>)
    ensures forall l :: l in r ==> '\n' !in l
    decreases |s|
  {
    if '\n' !in s then (if s == "" then [] else [s])
    else
      var i := IndexOf(s, '\n');
      [s[..i]] + Lines(s[i + 1..])
  }

  /** A line without a terminator in it, followed by a terminator, is one line. */
  lemma LinesCons(line: string, rest: string)
    requires '\n' !in line
    ensures Lines(line + NewLine + rest) == [line] + Lines(rest)
  {
    var s := line + NewLine + rest;
    assert s[..|line|] == line;
    IndexOfFirst(s, '\n', |line|);
    assert s[|line| + 1..] == rest;
  }

  /** A text ending in a line terminator is its first line, a terminator and a shorter such text. */
  lemma SplitFirstLine(a: string) returns (line: string, rest: string)
    requires a != [] && a[|a| - 1] == '\n'
    ensures a == line + NewLine + rest && '\n' !in line
    ensures rest == [] || rest[|rest| - 1] == '\n'
  {
    assert '\n' in a by { assert a[|a| - 1] == '\n'; }
    var i := IndexOf(a, '\n');
    line, rest := a[..i], a[i + 1..];
    assert a == a[..i] + [a[i]] + a[i + 1..];
    if rest != [] {
      assert rest[|rest| - 1] == a[|a| - 1];
    }
  }

  /** Whatever reads a terminated line off the front of a text splits it at every line end. */
  lemma {:induction false} ConsLawAppend(f: string -> seq<string>, a: string, b: string)
    requires f([]) == []
    requires forall line, rest :: '\n' !in line ==> f(line + NewLine + rest) == [line] + f(rest)
    requires a == [] || a[|a| - 1] == '\n'
    ensures f(a + b) == f(a) + f(b)
    decreases |a|
  {
    if a == [] {
      assert a + b == b;
    } else {
      var line, rest := SplitFirstLine(a);
      assert a + b == line + NewLine + (rest + b);
      ConsLawAppend(f, rest, b);
      assert [line] + (f(rest) + f(b)) == ([line] + f(rest)) + f(b);
    }
  }

  /** Lines split at a line end split the text at the same place. */
  lemma LinesAppend(a: string, b: string)
    requires a == [] || a[|a| - 1] == '\n'
    ensures Lines(a + b) == Lines(a) + Lines(b)
  {
    forall line, rest | '\n' !in line
      ensures Lines(line + NewLine + rest) == [line] + Lines(rest)
    {
      LinesCons(line, rest);
    }
    ConsLawAppend(Lines, a, b);
  }

  /** Each line followed by a line terminator, as successive AppendLine calls write them. */
  function Terminated(lines: seq<string>): (r: string)
    ensures r == [] <==> lines == []
    ensures r != [] ==> r[|r| - 1] == '\n'
  {
    if lines == [] then "" else Terminated(lines[..|lines| - 1]) + (lines[|lines| - 1] + NewLine)
  }

  /**
   * Whatever splits after terminated lines and reads one terminated line
   * satisfying 'single' as itself reads such terminated lines back.
   */
  lemma {:induction false} TerminatedReadBack(f: string -> seq<string>, single: string -> bool, lines: seq<string>)
    requires f([]) == []
    requires forall ls, line :: f(Terminated(ls) + (line + NewLine)) == f(Terminated(ls)) + f(line + NewLine)
    requires forall line :: single(line) ==> f(line + NewLine) == [line]
    requires forall i :: 0 <= i < |lines| ==> single(lines[i])
    ensures f(Terminated(lines)) == lines
  {
    if lines != [] {
      var n := |lines| - 1;
      var before, last := lines[..n], lines[n];
      Seqs.SnocParts(lines);
      TerminatedReadBack(f, single, before);
      assert f(Terminated(before) + (last + NewLine)) == f(Terminated(before)) + f(last + NewLine);
    }
  }

  /** Read back line by line, terminated lines without terminators inside give themselves back. */
  lemma LinesTerminated(lines: seq<string>)
    requires forall i :: 0 <= i < |lines| ==> '\n' !in lines[i]
    ensures Lines(Terminated(lines)) == lines
  {
    forall ls, line
      ensures Lines(Terminated(ls) + (line + NewLine)) == Lines(Terminated(ls)) + Lines(line + NewLine)
    {
      LinesAppend(Terminated(ls), line + NewLine);
    }
    forall line | '\n' !in line
      ensures Lines(line + NewLine) == [line]
    {
      LinesCons(line, "");
      assert line + NewLine + "" == line + NewLine;
    }
    TerminatedReadBack(Lines, line => '\n' !in line, lines);
  }

  /** Ordinal string.Contains(sub). */
  predicate Contains(s: string, sub: string)
    decreases |s|
  {
    sub <= s || (s != [] && Contains(s[1..], sub))
  }

  /** An occurrence at a known position is found by Contains. */
  lemma {:induction false} ContainsAt(s: string, i: nat, sub: string)
    requires i + |sub| <= |s| && s[i..i + |sub|] == sub
    ensures Contains(s, sub)
  {
    if i == 0 {
      assert sub <= s;
    } else {
      assert s[1..][i - 1..i - 1 + |sub|] == sub;
      ContainsAt(s[1..], i - 1, sub);
    }
  }

  /** A contained string occurs at some position. */
  lemma {:induction false} ContainsSomewhere(s: string, sub: string) returns (i: nat)
    requires Contains(s, sub)
    ensures i + |sub| <= |s| && s[i..i + |sub|] == sub
  {
    if sub <= s {
      i := 0;
    } else {
      var j := ContainsSomewhere(s[1..], sub);
      assert s[1..][j..j + |sub|] == s[j + 1..j + 1 + |sub|];
      i := j + 1;
    }
  }

  /** Upper-case invariant mapping of an ASCII letter; other characters map to themselves. */
  function ToUpperAscii(c: char): (u: char)
    ensures 'a' <= c <= 'z' ==> u as int == c as int - 32
    ensures !('a' <= c <= 'z') ==> u == c
  {
    if 'a' <= c <= 'z' then (c as int - 32) as char else c
  }

  /** string.Equals(a, b, StringComparison.OrdinalIgnoreCase), on the ASCII case mapping. */
  predicate EqualsIgnoreCase(a: string, b: string)
  {
    |a| == |b| && forall i :: 0 <= i < |a| ==> ToUpperAscii(a[i]) == ToUpperAscii(b[i])
  }

  function DigitChar(d: nat): (c: char)
    requires d < 10
    ensures '0' <= c <= '9' && c as int - '0' as int == d
  {
    ('0' as int + d) as char
  }

  /** Int32.ToString() of a non-negative value: its decimal digits, no sign, no separators. */
  function NatToString(n: nat): (s: string)
    ensures s != []
    ensures forall i :: 0 <= i < |s| ==> '0' <= s[i] <= '9'
    ensures |s| > 1 ==> s[0] != '0'
  {
    if n < 10 then [DigitChar(n)] else NatToString(n / 10) + [DigitChar(n % 10)]
  }

  /** The value of a string of decimal digits. */
  function DigitsValue(s: string): nat
    requires forall i :: 0 <= i < |s| ==> '0' <= s[i] <= '9'
  {
    if s == [] then 0
    else 10 * DigitsValue(s[..|s| - 1]) + (s[|s| - 1] as int - '0' as int)
  }

  /** Reading back the decimal text of a number gives the number. */
  lemma {:induction false} NatToStringRoundTrip(n: nat)
    ensures DigitsValue(NatToString(n)) == n
  {
    if n >= 10 {
      var s := NatToString(n);
      assert s[..|s| - 1] == NatToString(n / 10);
      NatToStringRoundTrip(n / 10);
    }
  }

  /** Two numbers with the same decimal text are equal. */
  lemma NatToStringInjective(m: nat, n: nat)
    requires NatToString(m) == NatToString(n)
    ensures m == n
  {
    NatToStringRoundTrip(m);
    NatToStringRoundTrip(n);
  }
}
