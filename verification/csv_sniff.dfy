/** The delimiter guess both point scripts make before reading a CSV file
    (convert_dms_to_utm.py line 35, generate_kml_points.py line 53): look
    at the first line only and pick `;` when it holds strictly more
    semicolons than commas. */
module Csv {
  import opened Text

  predicate IsLineBreak(c: char) {
    c == '\n' || c == '\r'
  }

  /** What `readline()` in text mode returns, without its terminator:
      universal-newline mode ends a line at `\n` or at `\r`. */
  function FirstLine(text: string): (line: string)
    ensures line <= text
    ensures forall i :: 0 <= i < |line| ==> !IsLineBreak(line[i])
    ensures |line| < |text| ==> IsLineBreak(text[|line|])
    decreases |text|
  {
    if |text| == 0 || IsLineBreak(text[0]) then []
    else [text[0]] + FirstLine(text[1..])
  }

  /** The separator chosen for a header line. */
  function SeparatorOf(line: string): (sep: char)
    ensures sep == ';' || sep == ','
    ensures sep == ';' <==> Count(line, ';') > Count(line, ',')
  {
    if Count(line, ';') > Count(line, ',') then ';' else ','
  }

  /** The separator chosen for a whole file's text. */
  function DetectSeparator(text: string): (sep: char)
    ensures sep == ';' || sep == ','
    ensures sep == ';' <==> Count(FirstLine(text), ';') > Count(FirstLine(text), ',')
  {
    SeparatorOf(FirstLine(text))
  }

  /** Only the first line is consulted: whatever follows the first line
      break cannot change the choice. */
  lemma {:induction false} SeparatorIgnoresLaterLines(line: string, brk: char, rest: string)
    requires forall i :: 0 <= i < |line| ==> !IsLineBreak(line[i])
    requires IsLineBreak(brk)
    ensures DetectSeparator(line + [brk] + rest) == SeparatorOf(line)
  {
    FirstLineOf(line, brk, rest);
  }

  lemma {:induction false} FirstLineOf(line: string, brk: char, rest: string)
    requires forall i :: 0 <= i < |line| ==> !IsLineBreak(line[i])
    requires IsLineBreak(brk)
    ensures FirstLine(line + [brk] + rest) == line
    decreases |line|
  {
    var t := line + [brk] + rest;
    if |line| > 0 {
      assert t[0] == line[0];
      assert t[1..] == line[1..] + [brk] + rest;
      FirstLineOf(line[1..], brk, rest);
      assert [line[0]] + line[1..] == line;
    } else {
      assert t[0] == brk;
    }
  }

  /** A tie, including a line with neither character, falls back to `,`;
      one extra `;` is enough to switch. */
  lemma SeparatorTieIsComma(line: string)
    requires Count(line, ';') == Count(line, ',')
    ensures SeparatorOf(line) == ','
    ensures SeparatorOf(line + ";") == ';'
  {
    CountAppend(line, ";", ';');
    CountAppend(line, ";", ',');
  }
}
