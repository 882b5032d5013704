/** What the evaluator prints at the end of a run: the sorted report, one
    `<count> <fileName>` line per result, or a single line saying there is
    nothing to show. */
module Report {
  import opened JavaLang
  import opened FileResults
  import opened ResultOrder

  const MINUS: Char16 := 0x2D

  const NoResultsMessage: JString := Utf16("There are no file results to display.")

  predicate IsDigit(c: Char16)
  {
    0x30 <= c <= 0x39
  }

  /** The decimal digits of `n`, most significant first, without leading
      zeros. */
  function Digits(n: nat): (r: JString)
    ensures r != []
    ensures forall i | 0 <= i < |r| :: IsDigit(r[i])
  {
    if n < 10 then [(0x30 + n) as Char16]
    else Digits(n / 10) + [(0x30 + n % 10) as Char16]
  }

  /** `Long.toString`, which string concatenation applies to the count. */
  function LongToString(n: int): JString
  {
    if n < 0 then [MINUS] + Digits(-n) else Digits(n)
  }

  /** The line `printFileResults` prints for one result. */
  function Line(r: FileResult): JString
  {
    LongToString(r.characterCount) + [SPACE] + r.fileName
  }

  /** `printFileResults`: one line per result, in report order. */
  function PrintFileResults(fileResults: seq<FileResult>): (lines: seq<JString>)
    ensures |lines| == |fileResults|
  {
    var sorted := SortResults(fileResults);
    assert |sorted| == |multiset(sorted)| == |fileResults|;
    seq(|sorted|, i requires 0 <= i < |sorted| => Line(sorted[i]))
  }

  /** The lines `main` prints once evaluation is over: the report when there
      are results, otherwise the single "no results" line. */
  function Display(fileResults: seq<FileResult>): (lines: seq<JString>)
    ensures |lines| == if fileResults == [] then 1 else |fileResults|
  {
    if |fileResults| > 0 then PrintFileResults(fileResults) else [NoResultsMessage]
  }

  // ---------------------------------------------------------------------------
  // Reading a line back: the inverse of Line.

  /** The value of a string of decimal digits. */
  function DigitsValue(s: JString): int
  {
    if s == [] then 0
    else DigitsValue(s[..|s| - 1]) * 10 + (s[|s| - 1] as int - 0x30)
  }

  /** A signed decimal, as `Long.toString` writes one. */
  function ParseLong(s: JString): Option<int>
  {
    if s != [] && s[0] == MINUS then
      if |s| > 1 && forall i | 1 <= i < |s| :: IsDigit(s[i]) then Some(-DigitsValue(s[1..])) else None
    else if s != [] && forall i | 0 <= i < |s| :: IsDigit(s[i]) then Some(DigitsValue(s))
    else None
  }

  /** The index of the first space in `s`, or `|s|` when there is none. */
  function FirstSpace(s: JString): (k: nat)
    ensures k <= |s|
  {
    if s == [] || s[0] == SPACE then 0 else 1 + FirstSpace(s[1..])
  }

  /** The count and file name a report line shows. */
  function ParseLine(line: JString): Option<(int, JString)>
  {
    var k := FirstSpace(line);
    if k == |line| then None
    else
      match ParseLong(line[..k])
      case None => None
      case Some(n) => Some((n, line[k + 1..]))
  }

  lemma {:induction false} DigitsValueOfDigits(n: nat)
    ensures DigitsValue(Digits(n)) == n
  {
    if n >= 10 {
      DigitsValueOfDigits(n / 10);
      var d := Digits(n / 10) + [(0x30 + n % 10) as Char16];
      assert d[..|d| - 1] == Digits(n / 10);
    }
  }

  lemma LongToStringRoundTrip(n: int)
    ensures ParseLong(LongToString(n)) == Some(n)
  {
    if n < 0 {
      DigitsValueOfDigits(-n);
      var s := LongToString(n);
      assert s[1..] == Digits(-n);
      assert forall i | 1 <= i < |s| :: s[i] == Digits(-n)[i - 1];
    } else {
      DigitsValueOfDigits(n);
    }
  }

  lemma {:induction false} FirstSpaceAfter(a: JString, b: JString)
    requires forall i | 0 <= i < |a| :: a[i] != SPACE
    ensures FirstSpace(a + [SPACE] + b) == |a|
  {
    if a != [] {
      FirstSpaceAfter(a[1..], b);
      assert (a + [SPACE] + b)[1..] == a[1..] + [SPACE] + b;
    }
  }

  /** A report line shows exactly the count and the file name of its result,
      whatever the name contains. */
  lemma LineRoundTrip(r: FileResult)
    ensures ParseLine(Line(r)) == Some((r.characterCount, r.fileName))
  {
    var digits := LongToString(r.characterCount);
    var line := Line(r);
    FirstSpaceAfter(digits, r.fileName);
    assert line[..|digits|] == digits;
    assert line[|digits| + 1..] == r.fileName;
    LongToStringRoundTrip(r.characterCount);
  }

  /** A report line starts with a digit or a minus sign. */
  lemma LineStart(r: FileResult)
    ensures Line(r)[0] == MINUS || IsDigit(Line(r)[0])
  {
  }

  lemma NoResultsMessageStart()
    ensures NoResultsMessage != [] && NoResultsMessage[0] == 0x54
  {
  }

  // ---------------------------------------------------------------------------
  // What the printed lines say.

  /** With results, line `i` shows the `i`-th result in report order. */
  lemma DisplayShowsSortedResults(results: seq<FileResult>, i: int)
    requires results != [] && 0 <= i < |results|
    ensures |SortResults(results)| == |results|
    ensures ParseLine(Display(results)[i])
         == Some((SortResults(results)[i].characterCount, SortResults(results)[i].fileName))
  {
    assert |SortResults(results)| == |multiset(SortResults(results))|;
    LineRoundTrip(SortResults(results)[i]);
  }

  /** The "no results" line is printed exactly when there are no results: it
      cannot be mistaken for a report line. */
  lemma DisplayNoResultsIff(results: seq<FileResult>)
    ensures Display(results) == [NoResultsMessage] <==> results == []
  {
    if results != [] && Display(results) == [NoResultsMessage] {
      var first := SortResults(results)[0];
      assert Display(results)[0] == Line(first);
      LineStart(first);
      NoResultsMessageStart();
      assert false;
    }
  }
}
