/** The review cue file as text: how it is printed and how it is read back.
    Text is what the file holds after newline translation. */
module CueText {
  import opened Numeric
  import opened ReviewCues

  const MAGIC := "npc-mouth-cues-v1"

  // ------------------------------------------------------------------- numbers

  function Digit(n: int): char
    requires 0 <= n < 10
  {
    (48 + n) as char
  }

  predicate IsDigit(c: char) {
    48 <= c as int <= 57
  }

  function PrintNat(n: nat): string {
    if n < 10 then [Digit(n)] else PrintNat(n / 10) + [Digit(n % 10)]
  }

  function PrintInt(n: int): string {
    if n < 0 then "-" + PrintNat(-n) else PrintNat(n)
  }

  predicate AllDigits(s: string) {
    s != "" && forall i :: 0 <= i < |s| ==> IsDigit(s[i])
  }

  function Value(s: string): int {
    if s == "" then 0 else Value(s[..|s| - 1]) * 10 + (s[|s| - 1] as int - 48)
  }

  /** `int(s)` on a word: an optional sign and decimal digits. */
  function ParseInt(s: string): Option<int> {
    if AllDigits(s) then Some(Value(s))
    else if s != "" && s[0] == '-' && AllDigits(s[1..]) then Some(-Value(s[1..]))
    else if s != "" && s[0] == '+' && AllDigits(s[1..]) then Some(Value(s[1..]))
    else None
  }

  lemma {:induction false} PrintedNat(n: nat)
    ensures AllDigits(PrintNat(n)) && Value(PrintNat(n)) == n
  {
    if n < 10 {
      assert PrintNat(n)[..0] == "";
    } else {
      PrintedNat(n / 10);
      assert PrintNat(n)[..|PrintNat(n)| - 1] == PrintNat(n / 10);
    }
  }

  lemma DigitsAreAWord(s: string)
    requires AllDigits(s)
    ensures Word(s) && Word("-" + s) && !AllDigits("-" + s)
  {
    var signed := "-" + s;
    assert signed[0] == '-';
    forall i | 0 <= i < |signed| ensures !IsSpace(signed[i]) {
      if i > 0 { assert signed[i] == s[i - 1]; }
    }
  }

  lemma PrintedInt(n: int)
    ensures ParseInt(PrintInt(n)) == Some(n)
    ensures Word(PrintInt(n))
  {
    var digits := PrintNat(if n < 0 then -n else n);
    PrintedNat(if n < 0 then -n else n);
    DigitsAreAWord(digits);
    if n < 0 {
      assert PrintInt(n)[0] == '-' && PrintInt(n)[1..] == digits;
    }
  }

  // --------------------------------------------------------------------- words

  /** Where `str.splitlines` breaks, once carriage returns are translated away. */
  predicate IsLineBreak(c: char) {
    var n := c as int;
    10 <= n <= 12 || 28 <= n <= 30 || n == 133 || n == 8232 || n == 8233
  }

  /** Where `str.split` breaks. */
  predicate IsSpace(c: char) {
    var n := c as int;
    || 9 <= n <= 13 || 28 <= n <= 32 || n == 133 || n == 160 || n == 5760
    || 8192 <= n <= 8202 || n == 8232 || n == 8233 || n == 8239 || n == 8287 || n == 12288
  }

  predicate Word(s: string) {
    s != "" && forall i :: 0 <= i < |s| ==> !IsSpace(s[i])
  }

  /** Length of the longest prefix free of spaces. */
  function WordEnd(s: string): (n: nat)
    ensures n <= |s|
  {
    if s == "" || IsSpace(s[0]) then 0 else 1 + WordEnd(s[1..])
  }

  /** `s.split()`. */
  function Split(s: string): seq<string>
    decreases |s|
  {
    if s == "" then []
    else if IsSpace(s[0]) then Split(s[1..])
    else var n := WordEnd(s); [s[..n]] + Split(s[n..])
  }

  lemma {:induction false} WordEndIs(w: string, rest: string)
    requires (forall i :: 0 <= i < |w| ==> !IsSpace(w[i])) && (rest == "" || IsSpace(rest[0]))
    ensures WordEnd(w + rest) == |w|
    decreases |w|
  {
    if w == "" {
      assert w + rest == rest;
    } else {
      assert (w + rest)[1..] == w[1..] + rest;
      WordEndIs(w[1..], rest);
    }
  }

  lemma {:induction false} SplitWord(w: string, rest: string)
    requires Word(w) && (rest == "" || IsSpace(rest[0]))
    ensures Split(w + rest) == [w] + Split(rest)
  {
    WordEndIs(w, rest);
    assert (w + rest)[..|w|] == w && (w + rest)[|w|..] == rest;
  }

  /** Words printed with single spaces between them. */
  function Spaced(words: seq<string>): string
    requires words != []
  {
    if |words| == 1 then words[0] else words[0] + (" " + Spaced(words[1..]))
  }

  lemma {:induction false} SplitSpaced(words: seq<string>)
    requires words != [] && forall i :: 0 <= i < |words| ==> Word(words[i])
    ensures Split(Spaced(words)) == words
  {
    if |words| == 1 {
      SplitWord(words[0], "");
      assert words[0] + "" == words[0];
    } else {
      var rest := " " + Spaced(words[1..]);
      SplitWord(words[0], rest);
      SplitSpaced(words[1..]);
      assert rest[1..] == Spaced(words[1..]);
      assert words == [words[0]] + words[1..];
    }
  }

  // --------------------------------------------------------------------- lines

  predicate OneLine(s: string) {
    forall i :: 0 <= i < |s| ==> !IsLineBreak(s[i])
  }

  /** Length of the longest prefix free of line breaks. */
  function LineEnd(s: string): (n: nat)
    ensures n <= |s|
  {
    if s == "" || IsLineBreak(s[0]) then 0 else 1 + LineEnd(s[1..])
  }

  /** `s.splitlines()`: a final line break does not open another line. */
  function SplitLines(s: string): seq<string>
    decreases |s|
  {
    if s == "" then [] else
      var n := LineEnd(s);
      if n == |s| then [s] else [s[..n]] + SplitLines(s[n + 1..])
  }

  lemma {:induction false} LineEndIs(line: string, rest: string)
    requires OneLine(line)
    ensures LineEnd(line + ("\n" + rest)) == |line|
    decreases |line|
  {
    if line == "" {
      assert line + ("\n" + rest) == "\n" + rest;
    } else {
      assert (line + ("\n" + rest))[1..] == line[1..] + ("\n" + rest);
      LineEndIs(line[1..], rest);
    }
  }

  function Lines(lines: seq<string>): string {
    if lines == [] then "" else lines[0] + ("\n" + Lines(lines[1..]))
  }

  lemma {:induction false} SplitPrintedLines(lines: seq<string>)
    requires forall i :: 0 <= i < |lines| ==> OneLine(lines[i])
    ensures SplitLines(Lines(lines)) == lines
  {
    if lines != [] {
      var rest := Lines(lines[1..]);
      var text := lines[0] + ("\n" + rest);
      LineEndIs(lines[0], rest);
      SplitPrintedLines(lines[1..]);
      assert text[..|lines[0]|] == lines[0] && text[|lines[0]| + 1..] == rest;
      assert lines == [lines[0]] + lines[1..];
    }
  }

  lemma {:induction false} SpacedIsOneLine(words: seq<string>)
    requires words != [] && forall i :: 0 <= i < |words| ==> Word(words[i])
    ensures OneLine(Spaced(words)) && Spaced(words) != ""
  {
    if |words| > 1 {
      SpacedIsOneLine(words[1..]);
    }
  }

  // ------------------------------------------------------------------ the file

  function PrintAll(ns: seq<int>): seq<string> {
    seq(|ns|, i requires 0 <= i < |ns| => PrintInt(ns[i]))
  }

  function Tuple(row: Row): seq<int> {
    [row.first, row.last, row.category]
  }

  function RowWords(row: Row): seq<string> {
    PrintAll(Tuple(row))
  }

  function RowLines(rows: seq<Row>): seq<string> {
    seq(|rows|, i requires 0 <= i < |rows| => Spaced(RowWords(rows[i])))
  }

  /** The text written for a cue file. */
  function PrintCueFile(rate: int, count: int, digest: string, rows: seq<Row>): string {
    Lines([Spaced([MAGIC, PrintInt(rate), PrintInt(count), digest])] + RowLines(rows))
  }

  datatype CueFileError = EmptyFile | UnsupportedHeader | NotAnInteger

  /** `tuple(map(int, line.split()))`. */
  function ParseInts(words: seq<string>): Option<seq<int>> {
    if words == [] then Some([]) else
      var head, tail := ParseInt(words[0]), ParseInts(words[1..]);
      if head.Some? && tail.Some? then Some([head.value] + tail.value) else None
  }

  /** One tuple for every line that is not empty. */
  function ParseRows(lines: seq<string>): Option<seq<seq<int>>> {
    if lines == [] then Some([])
    else if lines[0] == "" then ParseRows(lines[1..])
    else
      var head, tail := ParseInts(Split(lines[0])), ParseRows(lines[1..]);
      if head.Some? && tail.Some? then Some([head.value] + tail.value) else None
  }

  /** `cue_file`: the rate and the integer tuples of a cue file. */
  function ReadCueFile(text: string): Result<(int, seq<seq<int>>), CueFileError> {
    var lines := SplitLines(text);
    if lines == [] then Failure(EmptyFile) else
      var header := Split(lines[0]);
      if |header| != 4 || header[0] != MAGIC then Failure(UnsupportedHeader) else
        var rate, rows := ParseInt(header[1]), ParseRows(lines[1..]);
        if rate.None? || rows.None? then Failure(NotAnInteger) else Success((rate.value, rows.value))
  }

  function Tuples(rows: seq<Row>): seq<seq<int>> {
    seq(|rows|, i requires 0 <= i < |rows| => Tuple(rows[i]))
  }

  lemma PrintedWords(ns: seq<int>)
    ensures |PrintAll(ns)| == |ns| && forall i :: 0 <= i < |ns| ==> Word(PrintAll(ns)[i])
  {
    forall i | 0 <= i < |ns| ensures Word(PrintAll(ns)[i]) {
      PrintedInt(ns[i]);
    }
  }

  lemma RestOfInts(ns: seq<int>)
    requires ns != []
    ensures PrintAll(ns) == [PrintInt(ns[0])] + PrintAll(ns[1..])
  {
  }

  lemma {:induction false} FirstIntReads(words: seq<string>, n: int, rest: seq<int>)
    requires words != [] && words[0] == PrintInt(n) && ParseInts(words[1..]) == Some(rest)
    ensures ParseInts(words) == Some([n] + rest)
  {
    PrintedInt(n);
  }

  lemma {:induction false} PrintedInts(ns: seq<int>)
    ensures ParseInts(PrintAll(ns)) == Some(ns)
  {
    if ns == [] {
      assert PrintAll(ns) == [];
    } else {
      PrintedInts(ns[1..]);
      RestOfInts(ns);
      FirstIntReads(PrintAll(ns), ns[0], ns[1..]);
      assert ns == [ns[0]] + ns[1..];
    }
  }

  lemma RowLineReads(row: Row)
    ensures OneLine(Spaced(RowWords(row))) && Spaced(RowWords(row)) != ""
    ensures ParseInts(Split(Spaced(RowWords(row)))) == Some(Tuple(row))
  {
    PrintedWords(Tuple(row));
    PrintedInts(Tuple(row));
    SpacedIsOneLine(RowWords(row));
    SplitSpaced(RowWords(row));
  }

  lemma RowLinesAreLines(rows: seq<Row>)
    ensures forall i :: 0 <= i < |rows| ==> OneLine(RowLines(rows)[i])
  {
    forall i | 0 <= i < |rows| ensures OneLine(RowLines(rows)[i]) {
      RowLineReads(rows[i]);
    }
  }

  lemma {:induction false} FirstRowReads(lines: seq<string>, row: Row, tuples: seq<seq<int>>)
    requires lines != [] && lines[0] == Spaced(RowWords(row)) && ParseRows(lines[1..]) == Some(tuples)
    ensures ParseRows(lines) == Some([Tuple(row)] + tuples)
  {
    RowLineReads(row);
  }

  lemma RestOfRows(rows: seq<Row>)
    requires rows != []
    ensures RowLines(rows) == [Spaced(RowWords(rows[0]))] + RowLines(rows[1..])
    ensures Tuples(rows) == [Tuple(rows[0])] + Tuples(rows[1..])
  {
  }

  lemma {:induction false} RowLinesRead(rows: seq<Row>)
    ensures ParseRows(RowLines(rows)) == Some(Tuples(rows))
  {
    if rows == [] {
      assert RowLines(rows) == [] && Tuples(rows) == [];
    } else {
      RowLinesRead(rows[1..]);
      RestOfRows(rows);
      FirstRowReads(RowLines(rows), rows[0], Tuples(rows[1..]));
    }
  }

  lemma FileSplits(rate: int, count: int, digest: string, rows: seq<Row>)
    requires Word(digest)
    ensures SplitLines(PrintCueFile(rate, count, digest, rows))
         == [Spaced([MAGIC, PrintInt(rate), PrintInt(count), digest])] + RowLines(rows)
  {
    var header := [MAGIC, PrintInt(rate), PrintInt(count), digest];
    PrintedInt(rate);
    PrintedInt(count);
    SpacedIsOneLine(header);
    RowLinesAreLines(rows);
    SplitPrintedLines([Spaced(header)] + RowLines(rows));
  }

  /** Printing and reading back gives the same rate and the same rows. */
  lemma CueFileRoundTrip(rate: int, count: int, digest: string, rows: seq<Row>)
    requires Word(digest)
    ensures ReadCueFile(PrintCueFile(rate, count, digest, rows)) == Success((rate, Tuples(rows)))
  {
    var header := [MAGIC, PrintInt(rate), PrintInt(count), digest];
    PrintedInt(rate);
    PrintedInt(count);
    SplitSpaced(header);
    RowLinesRead(rows);
    FileSplits(rate, count, digest, rows);
    assert ([Spaced(header)] + RowLines(rows))[1..] == RowLines(rows);
  }

  /** The first line holds the format, rate, count and digest, and one line follows for every row. */
  lemma FileLines(rate: int, count: int, digest: string, rows: seq<Row>)
    requires Word(digest)
    ensures var lines := SplitLines(PrintCueFile(rate, count, digest, rows));
      && |lines| == 1 + |rows|
      && lines[0] == "npc-mouth-cues-v1 " + PrintInt(rate) + " " + PrintInt(count) + " " + digest
      && forall i :: 0 <= i < |rows| ==>
           lines[i + 1] == PrintInt(rows[i].first) + " " + PrintInt(rows[i].last) + " " + PrintInt(rows[i].category)
  {
    FileSplits(rate, count, digest, rows);
    SpacedFour(MAGIC, PrintInt(rate), PrintInt(count), digest);
    assert MAGIC + " " == "npc-mouth-cues-v1 ";
    forall i | 0 <= i < |rows|
      ensures RowLines(rows)[i]
           == PrintInt(rows[i].first) + " " + PrintInt(rows[i].last) + " " + PrintInt(rows[i].category)
    {
      SpacedRow(rows[i]);
    }
  }

  lemma SpacedThree(a: string, b: string, c: string)
    ensures Spaced([a, b, c]) == a + " " + b + " " + c
  {
    assert [a, b, c][1..] == [b, c] && [b, c][1..] == [c];
    assert Spaced([b, c]) == b + (" " + c);
  }

  lemma SpacedFour(a: string, b: string, c: string, d: string)
    ensures Spaced([a, b, c, d]) == a + " " + b + " " + c + " " + d
  {
    assert [a, b, c, d][1..] == [b, c, d];
    SpacedThree(b, c, d);
  }

  lemma SpacedRow(row: Row)
    ensures Spaced(RowWords(row)) == PrintInt(row.first) + " " + PrintInt(row.last) + " " + PrintInt(row.category)
  {
    assert RowWords(row) == [PrintInt(row.first), PrintInt(row.last), PrintInt(row.category)];
    SpacedThree(PrintInt(row.first), PrintInt(row.last), PrintInt(row.category));
  }

  /** A tuple of the file spans `sample`. */
  predicate Spans(tuple: seq<int>, sample: int) {
    |tuple| == 3 && tuple[0] <= sample < tuple[1]
  }

  /** After the round trip every sample of the audio still falls in exactly one
      tuple, and that tuple carries the category the lookup returns. */
  lemma ReadFileCoversEverySample(rate: int, count: int, digest: string, rows: seq<Row>, sample: int) returns (i: nat)
    requires Word(digest) && Tiling(rows, count) && 0 <= sample < count
    ensures var read := ReadCueFile(PrintCueFile(rate, count, digest, rows));
      && read.Success? && i < |read.value.1| && Spans(read.value.1[i], sample)
      && (forall k :: 0 <= k < |read.value.1| && Spans(read.value.1[k], sample) ==> k == i)
      && Lookup(rows, sample) == read.value.1[i][2]
  {
    CueFileRoundTrip(rate, count, digest, rows);
    i := LookupIsExact(rows, count, sample);
    assert Tuples(rows)[i] == Tuple(rows[i]);
    forall k | 0 <= k < |rows| && Spans(Tuples(rows)[k], sample) ensures k == i {
      assert Holds(rows[k], sample);
    }
  }
}
