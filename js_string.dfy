/** The JavaScript string built-ins the customer model uses: `parseInt` on a
    run of decimal digits, `Number.prototype.toString` on an integer,
    `String.prototype.indexOf`, and `String.prototype.replace` with a string
    pattern, which replaces the first match only and expands the `$`
    patterns of its replacement string. */
module JsString {

  datatype Option<T> = None | Some(value: T)

  predicate IsDigit(c: char) {
    '0' <= c <= '9'
  }

  predicate AllDigits(s: string) {
    forall i :: 0 <= i < |s| ==> IsDigit(s[i])
  }

  function DigitValue(c: char): nat
    requires IsDigit(c)
  {
    (c - '0') as nat
  }

  function DigitChar(d: nat): (c: char)
    requires d < 10
    ensures IsDigit(c) && DigitValue(c) == d
  {
    ('0' as int + d) as char
  }

  function Pow10(n: nat): (p: nat)
    ensures p >= 1
  {
    if n == 0 then 1 else 10 * Pow10(n - 1)
  }

  /** `parseInt(s)` for a string made only of decimal digits: the number they
      spell, most significant digit first. */
  function ParseDecimal(s: string): (n: nat)
    requires AllDigits(s)
    ensures n < Pow10(|s|)
  {
    if s == [] then 0
    else 10 * ParseDecimal(s[..|s| - 1]) + DigitValue(s[|s| - 1])
  }

  /** `n` written with exactly `width` decimal digits, padded with leading zeros. */
  function PadDecimal(n: nat, width: nat): (s: string)
    requires n < Pow10(width)
    ensures |s| == width && AllDigits(s)
  {
    if width == 0 then ""
    else PadDecimal(n / 10, width - 1) + [DigitChar(n % 10)]
  }

  lemma ParseDecimalSnoc(s: string, c: char)
    requires AllDigits(s) && IsDigit(c)
    ensures AllDigits(s + [c])
    ensures ParseDecimal(s + [c]) == 10 * ParseDecimal(s) + DigitValue(c)
  {
    assert (s + [c])[..|s|] == s;
  }

  /** A two-digit numeral is worth ten times its first digit plus its second. */
  lemma ParseTwoDigits(s: string)
    requires |s| == 2 && AllDigits(s)
    ensures ParseDecimal(s) == 10 * DigitValue(s[0]) + DigitValue(s[1])
  {
    assert s[..1][..0] == [];
  }

  /** A four-digit numeral read positionally, thousands first. */
  lemma ParseFourDigits(s: string)
    requires |s| == 4 && AllDigits(s)
    ensures ParseDecimal(s)
         == 1000 * DigitValue(s[0]) + 100 * DigitValue(s[1]) + 10 * DigitValue(s[2]) + DigitValue(s[3])
  {
    ParseTwoDigits(s[..2]);
    assert s[..3][..2] == s[..2];
  }

  /** Reading back a zero-padded numeral gives the number. */
  lemma {:induction false} ParsePadDecimal(n: nat, width: nat)
    requires n < Pow10(width)
    ensures ParseDecimal(PadDecimal(n, width)) == n
  {
    if width > 0 {
      ParsePadDecimal(n / 10, width - 1);
      ParseDecimalSnoc(PadDecimal(n / 10, width - 1), DigitChar(n % 10));
    }
  }

  /** Writing back a parsed digit string with its own width gives the string. */
  lemma {:induction false} PadParseDecimal(s: string)
    requires AllDigits(s)
    ensures PadDecimal(ParseDecimal(s), |s|) == s
  {
    if s != [] {
      var init, last := s[..|s| - 1], s[|s| - 1];
      PadParseDecimal(init);
      var n := ParseDecimal(s);
      assert n / 10 == ParseDecimal(init) && n % 10 == DigitValue(last);
      assert s == init + [last];
    }
  }

  /** `Number.prototype.toString` of a natural number: the shortest decimal
      numeral, with no leading zero. */
  function NatToString(n: nat): (s: string)
    ensures |s| >= 1 && AllDigits(s)
    ensures |s| == 1 || s[0] != '0'
  {
    if n < 10 then [DigitChar(n)]
    else NatToString(n / 10) + [DigitChar(n % 10)]
  }

  /** Reading back the numeral of `n` gives `n`. */
  lemma {:induction false} ParseNatToString(n: nat)
    ensures ParseDecimal(NatToString(n)) == n
  {
    if n >= 10 {
      ParseNatToString(n / 10);
      ParseDecimalSnoc(NatToString(n / 10), DigitChar(n % 10));
    }
  }

  /** `Number.prototype.toString` of an integer: a minus sign exactly for a
      negative number, then its magnitude's digits. */
  function IntToString(i: int): (s: string)
    ensures |s| >= 1 && (s[0] == '-' <==> i < 0)
    ensures forall k :: 0 <= k < |s| ==> IsDigit(s[k]) || (k == 0 && s[k] == '-')
  {
    if i < 0 then "-" + NatToString(-i) else NatToString(i)
  }

  /** The numeral of `i` reads back as `i`: its digits spell `|i|`. */
  lemma ParseIntToString(i: int)
    ensures i >= 0 ==> ParseDecimal(IntToString(i)) == i
    ensures i < 0 ==> AllDigits(IntToString(i)[1..]) && ParseDecimal(IntToString(i)[1..]) == -i
  {
    if i < 0 {
      assert IntToString(i)[1..] == NatToString(-i);
      ParseNatToString(-i);
    } else {
      ParseNatToString(i);
    }
  }

  /** `pat` occurs in `s` starting at index `j`. */
  predicate OccursAt(s: string, pat: string, j: int) {
    0 <= j && j + |pat| <= |s| && s[j..j + |pat|] == pat
  }

  /** `j` is the index of the first occurrence of `pat` in `s`. */
  predicate FirstOccurrence(s: string, pat: string, j: int) {
    OccursAt(s, pat, j) && forall k :: 0 <= k < j ==> !OccursAt(s, pat, k)
  }

  function IndexOfFrom(s: string, pat: string, from: nat): (r: Option<nat>)
    requires forall k :: 0 <= k < from ==> !OccursAt(s, pat, k)
    ensures r.Some? ==> FirstOccurrence(s, pat, r.value)
    ensures r.None? ==> forall k :: !OccursAt(s, pat, k)
    decreases |s| - from
  {
    if from + |pat| > |s| then None
    else if s[from..from + |pat|] == pat then Some(from)
    else IndexOfFrom(s, pat, from + 1)
  }

  /** `s.indexOf(pat)`: the first index at which `pat` occurs, if any. */
  function IndexOf(s: string, pat: string): (r: Option<nat>)
    ensures r.Some? ==> FirstOccurrence(s, pat, r.value)
    ensures r.None? ==> forall k :: !OccursAt(s, pat, k)
  {
    IndexOfFrom(s, pat, 0)
  }

  /** The replacement text of `replace` for one match: `$$` stands for `$`,
      `$&` for the matched text, `` $` `` for the text before the match, `$'`
      for the text after it; any other `$` is kept. */
  function Substitution(repl: string, matched: string, before: string, after: string): (r: string)
    ensures '$' !in repl ==> r == repl
  {
    if repl == [] then ""
    else if repl[0] == '$' && |repl| >= 2 && repl[1] == '$' then
      "$" + Substitution(repl[2..], matched, before, after)
    else if repl[0] == '$' && |repl| >= 2 && repl[1] == '&' then
      matched + Substitution(repl[2..], matched, before, after)
    else if repl[0] == '$' && |repl| >= 2 && repl[1] == '`' then
      before + Substitution(repl[2..], matched, before, after)
    else if repl[0] == '$' && |repl| >= 2 && repl[1] == '\'' then
      after + Substitution(repl[2..], matched, before, after)
    else
      assert '$' !in repl ==> '$' !in repl[1..];
      [repl[0]] + Substitution(repl[1..], matched, before, after)
  }

  /** `s.replace(pat, repl)` with a string pattern: only the first occurrence
      of `pat` is replaced (see ReplaceFirstNoMatch and ReplaceFirstAt). */
  function ReplaceFirst(s: string, pat: string, repl: string): (r: string)
  {
    match IndexOf(s, pat)
    case None => s
    case Some(p) => s[..p] + Substitution(repl, pat, s[..p], s[p + |pat|..]) + s[p + |pat|..]
  }

  /** Without an occurrence of `pat`, `replace` returns the string unchanged. */
  lemma ReplaceFirstNoMatch(s: string, pat: string, repl: string)
    requires forall k :: !OccursAt(s, pat, k)
    ensures ReplaceFirst(s, pat, repl) == s
  {
  }

  /** With a first occurrence at `p`, `replace` puts the expanded replacement
      in its place; the text before it and everything after it, later
      occurrences included, is kept. */
  lemma ReplaceFirstAt(s: string, pat: string, repl: string, p: int)
    requires FirstOccurrence(s, pat, p)
    ensures ReplaceFirst(s, pat, repl)
         == s[..p] + Substitution(repl, pat, s[..p], s[p + |pat|..]) + s[p + |pat|..]
  {
  }

  /** When the text before an occurrence of `pat` cannot start one (it lacks
      the first character of `pat`), that occurrence is the first. */
  lemma FirstOccurrenceAfter(x: string, pat: string, y: string)
    requires |pat| > 0 && pat[0] !in x
    ensures FirstOccurrence(x + pat + y, pat, |x|)
  {
    var s := x + pat + y;
    assert s[|x|..|x| + |pat|] == pat;
    forall k | 0 <= k < |x|
      ensures !OccursAt(s, pat, k)
    {
      assert s[k] == x[k];
    }
  }

  /** When the first occurrence of `pat` is the one right after `x`, a
      replacement free of `$` patterns lands exactly in its place. */
  lemma ReplaceFirstSplit(x: string, pat: string, y: string, repl: string)
    requires FirstOccurrence(x + pat + y, pat, |x|) && '$' !in repl
    ensures ReplaceFirst(x + pat + y, pat, repl) == x + repl + y
  {
    var s := x + pat + y;
    ReplaceFirstAt(s, pat, repl, |x|);
    assert s[..|x|] == x;
    assert s[|x| + |pat|..] == y;
  }

  /** In particular when the text before the occurrence lacks the first
      character of `pat`. */
  lemma ReplaceFirstAfter(x: string, pat: string, y: string, repl: string)
    requires |pat| > 0 && pat[0] !in x && '$' !in repl
    ensures ReplaceFirst(x + pat + y, pat, repl) == x + repl + y
  {
    FirstOccurrenceAfter(x, pat, y);
    ReplaceFirstSplit(x, pat, y, repl);
  }

  /** A pattern that occurs nowhere in `x + y` occurs nowhere in `y`. */
  lemma NoOccurrenceInSuffix(x: string, y: string, pat: string)
    requires forall k :: !OccursAt(x + y, pat, k)
    ensures forall k :: !OccursAt(y, pat, k)
  {
    forall k | 0 <= k && k + |pat| <= |y|
      ensures !OccursAt(y, pat, k)
    {
      assert !OccursAt(x + y, pat, |x| + k);
      assert (x + y)[|x| + k..|x| + k + |pat|] == y[k..k + |pat|];
    }
  }

  /** Putting in front of `y` a text without the first character of `pat`
      creates no occurrence of `pat`. */
  lemma NoOccurrenceAfterPrefix(z: string, y: string, pat: string)
    requires |pat| > 0 && pat[0] !in z
    requires forall k :: !OccursAt(y, pat, k)
    ensures forall k :: !OccursAt(z + y, pat, k)
  {
    var s := z + y;
    forall k | 0 <= k < |z|
      ensures !OccursAt(s, pat, k)
    {
      assert s[k] == z[k];
    }
    forall k | |z| <= k && k + |pat| <= |s|
      ensures !OccursAt(s, pat, k)
    {
      assert !OccursAt(y, pat, k - |z|);
      assert s[k..k + |pat|] == y[k - |z|..k - |z| + |pat|];
    }
  }
}
