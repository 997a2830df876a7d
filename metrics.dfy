/**
 * The word-count scan of `get_metrics`: three counters that the loop over
 * the reader's lines updates, and the specification of their final values
 * as sums over those lines.
 */
module Metrics {
  import opened Utf8Text

  /** The tallies of one file, in the field order of the `Metrics` struct. */
  datatype Metrics = Metrics(chars: nat, words: nat, lines: nat)
  {
    /** Component-wise sum. */
    function Plus(other: Metrics): Metrics
    {
      Metrics(chars + other.chars, words + other.words, lines + other.lines)
    }

    /** Component-wise order. */
    predicate AtMost(other: Metrics)
    {
      chars <= other.chars && words <= other.words && lines <= other.lines
    }
  }


  /**
   * What one line adds: one line, its byte length plus one (for the line
   * feed the reader stripped, counted whether or not it was there) and its
   * words.
   */
  function LineMetrics(l: string): Metrics
  {
    Metrics(ByteLen(l) + 1, Words(l), 1)
  }

  /** The tallies of a sequence of lines, summed line by line. */
  function Measure(ls: seq<string>): (m: Metrics)
  {
    if |ls| == 0 then Metrics(0, 0, 0)
    else LineMetrics(ls[0]).Plus(Measure(ls[1..]))
  }

  /** The tallies that `get_metrics` reports for a file holding `content`. */
  function MetricsOf(content: string): Metrics
  {
    Measure(Lines(content))
  }

  /**
   * The scan of `get_metrics`: three counters start at zero and each line
   * the reader yields adds one line, its byte length plus one, and its
   * number of whitespace-separated words.
   */
  method GetMetrics(content: string) returns (m: Metrics)
    ensures m == MetricsOf(content)
    ensures m.lines == |Lines(content)|
    ensures m.words == Words(content)
    ensures m.words + m.lines <= m.chars
    ensures content == [] ==> m == Metrics(0, 0, 0)
  {
    var chars: nat, words: nat, lines: nat := 0, 0, 0;
    var ls := Lines(content);
    for i := 0 to |ls|
      invariant Metrics(chars, words, lines) == Measure(ls[..i])
      invariant lines == i
    {
      var line := ls[i];
      assert ls[..i + 1] == ls[..i] + [line];
      MeasureAppend(ls[..i], [line]);
      MeasureSingle(line);
      lines := lines + 1;
      chars := chars + ByteLen(line) + 1;
      words := words + Words(line);
    }
    assert ls[..|ls|] == ls;
    WordsWithinChars(ls);
    WordsTally(content);
    m := Metrics(chars, words, lines);
  }

  /** A single line is measured as that line. */
  lemma MeasureSingle(l: string)
    ensures Measure([l]) == LineMetrics(l)
  {
    var none: seq<string> := [];
    assert [l][1..] == none;
  }

  /** The line counter counts the lines. */
  lemma {:induction false} MeasureLineCount(ls: seq<string>)
    ensures Measure(ls).lines == |ls|
  {
    if ls != [] {
      MeasureLineCount(ls[1..]);
    }
  }

  /** A line followed by more lines adds its own tallies. */
  lemma MeasureCons(l: string, ls: seq<string>)
    ensures Measure([l] + ls) == LineMetrics(l).Plus(Measure(ls))
  {
    assert ([l] + ls)[1..] == ls;
  }

  /**
   * Every line adds at least one more character than it adds words, so
   * words and lines together never exceed characters.
   */
  lemma {:induction false} WordsWithinChars(ls: seq<string>)
    ensures Measure(ls).words + Measure(ls).lines <= Measure(ls).chars
  {
    if |ls| != 0 {
      WordsWithinChars(ls[1..]);
    }
  }

  /** Measuring two runs of lines one after the other adds their tallies. */
  lemma {:induction false} MeasureAppend(a: seq<string>, b: seq<string>)
    ensures Measure(a + b) == Measure(a).Plus(Measure(b))
  {
    if |a| == 0 {
      assert a + b == b;
    } else {
      assert a == [a[0]] + a[1..];
      assert a + b == [a[0]] + (a[1..] + b);
      MeasureCons(a[0], a[1..]);
      MeasureCons(a[0], a[1..] + b);
      MeasureAppend(a[1..], b);
    }
  }

  /**
   * Through the loop the counters only grow: after `j` lines each counter
   * is at least what it was after `i <= j` lines, and exactly `j - i` lines
   * have been added.
   */
  lemma CountersGrow(ls: seq<string>, i: nat, j: nat)
    requires i <= j <= |ls|
    ensures Measure(ls[..i]).AtMost(Measure(ls[..j]))
    ensures Measure(ls[..j]).lines == Measure(ls[..i]).lines + (j - i)
  {
    assert ls[..j] == ls[..i] + ls[i..j];
    MeasureAppend(ls[..i], ls[i..j]);
    MeasureLineCount(ls[i..j]);
  }

  /**
   * Additivity: when `a` ends in a line feed, the tallies of `a + b` are
   * the sums of the tallies of `a` and of `b`.
   */
  lemma MetricsAdditive(a: string, b: string)
    requires a == [] || a[|a| - 1] == '\n'
    ensures MetricsOf(a + b) == MetricsOf(a).Plus(MetricsOf(b))
  {
    LinesAppend(a, b);
    MeasureAppend(Lines(a), Lines(b));
  }

  /**
   * The line count is the number of line feeds, plus one when the last
   * line has none.
   */
  lemma LinesTally(content: string)
    ensures MetricsOf(content).lines
         == multiset(content)['\n'] + (if EndsOpen(content) then 1 else 0)
  {
    LineCount(content);
    MeasureLineCount(Lines(content));
  }

  /** The byte length of a line before and after a trailing `'\r'` is dropped. */
  lemma ByteLenStripCR(l: string)
    ensures ByteLen(StripCR(l)) + (if l != [] && l[|l| - 1] == '\r' then 1 else 0)
         == ByteLen(l)
  {
    if l != [] && l[|l| - 1] == '\r' {
      assert l == l[..|l| - 1] + ['\r'];
      ByteLenAppend(l[..|l| - 1], ['\r']);
    }
  }

  /** Byte length and carriage-return count across one line feed. */
  lemma NewlineTally(line: string, s: string)
    requires NoNewline(line) && s != [] && s[0] == '\n'
    ensures ByteLen(line + s) == ByteLen(line) + 1 + ByteLen(s[1..])
    ensures CrLfCount(line + s) ==
      CrLfCount(s[1..]) + (if line != [] && line[|line| - 1] == '\r' then 1 else 0)
    ensures EndsOpen(line + s) == EndsOpen(s[1..])
  {
    var rest := s[1..];
    assert line + s == line + ['\n'] + rest;
    ByteLenAppend(line + ['\n'], rest);
    ByteLenAppend(line, ['\n']);
    CrLfCountAppend(line + ['\n'], rest);
    CrLfCountAppend(line, ['\n']);
    CrLfCountNoNewline(line);
    if rest != [] {
      assert (line + s)[|line + s| - 1] == rest[|rest| - 1];
    }
  }

  /** A line feed ends the current line, which adds its own tallies. */
  lemma ScanNewline(line: string, s: string)
    requires s != [] && s[0] == '\n'
    ensures Measure(Scan(s, line)).chars
         == ByteLen(StripCR(line)) + 1 + Measure(Scan(s[1..], [])).chars
  {
    assert Scan(s, line) == [StripCR(line)] + Scan(s[1..], []);
    MeasureCons(StripCR(line), Scan(s[1..], []));
  }

  /** At the end of the text, the open line (if any) is the last one. */
  lemma ScanCharsEnd(line: string)
    requires NoNewline(line)
    ensures Measure(Scan([], line)).chars + CrLfCount(line)
         == ByteLen(line) + (if EndsOpen(line) then 1 else 0)
  {
    CrLfCountNoNewline(line);
    if line != [] {
      MeasureSingle(line);
    }
  }

  /** A line feed closes the open line; the rest is tallied on its own. */
  lemma ScanCharsNewline(s: string, line: string)
    requires NoNewline(line) && s != [] && s[0] == '\n'
    requires Measure(Scan(s[1..], [])).chars + CrLfCount(s[1..])
          == ByteLen(s[1..]) + (if EndsOpen(s[1..]) then 1 else 0)
    ensures Measure(Scan(s, line)).chars + CrLfCount(line + s)
         == ByteLen(line + s) + (if EndsOpen(line + s) then 1 else 0)
  {
    ScanNewline(line, s);
    NewlineTally(line, s);
    ByteLenStripCR(line);
  }

  /** What the lines of `line + s` add to the character count, seen mid-line. */
  lemma {:induction false} ScanChars(s: string, line: string)
    requires NoNewline(line)
    ensures Measure(Scan(s, line)).chars + CrLfCount(line + s)
         == ByteLen(line + s) + (if EndsOpen(line + s) then 1 else 0)
  {
    if s == [] {
      assert line + s == line;
      ScanCharsEnd(line);
    } else if s[0] == '\n' {
      ScanChars(s[1..], []);
      assert [] + s[1..] == s[1..];
      ScanCharsNewline(s, line);
    } else {
      assert line + s == (line + [s[0]]) + s[1..];
      ScanChars(s[1..], line + [s[0]]);
    }
  }

  /**
   * The character count is the byte length of the file, less one for each
   * carriage return the reader strips before a line feed, plus one when the
   * last line has no line feed (the unconditional `+ 1` counts a line feed
   * that is not there).
   */
  lemma CharsTally(content: string)
    ensures MetricsOf(content).chars + CrLfCount(content)
         == ByteLen(content) + (if EndsOpen(content) then 1 else 0)
  {
    ScanChars(content, []);
    assert [] + content == content;
  }

  /** Dropping a carriage return before a line feed loses no word. */
  lemma WordsStripCR(l: string)
    ensures Words(StripCR(l)) == Words(l)
  {
    if l != [] && l[|l| - 1] == '\r' {
      var p := l[..|l| - 1];
      assert l == p + ['\r'] + [];
      WordsSplit(p, '\r', []);
    }
  }

  /** At the end of the text, an open line adds its own words. */
  lemma ScanWordsEnd(line: string)
    ensures Measure(Scan([], line)).words == Words(line)
  {
    if line != [] {
      MeasureSingle(line);
    }
  }

  /** A line feed separates the words of the closed line from those after it. */
  lemma ScanWordsNewline(s: string, line: string)
    requires s != [] && s[0] == '\n'
    requires Measure(Scan(s[1..], [])).words == Words(s[1..])
    ensures Measure(Scan(s, line)).words == Words(line + s)
  {
    assert Scan(s, line) == [StripCR(line)] + Scan(s[1..], []);
    MeasureCons(StripCR(line), Scan(s[1..], []));
    WordsStripCR(line);
    assert line + s == line + ['\n'] + s[1..];
    WordsSplit(line, '\n', s[1..]);
  }

  /** Seen mid-line, the word tally of the lines of `line + s` is its word count. */
  lemma {:induction false} ScanWords(s: string, line: string)
    ensures Measure(Scan(s, line)).words == Words(line + s)
  {
    if s == [] {
      assert line + s == line;
      ScanWordsEnd(line);
    } else if s[0] == '\n' {
      ScanWords(s[1..], []);
      assert [] + s[1..] == s[1..];
      ScanWordsNewline(s, line);
    } else {
      assert line + s == (line + [s[0]]) + s[1..];
      ScanWords(s[1..], line + [s[0]]);
    }
  }

  /**
   * The word count of a file is its `split_whitespace` count as a whole:
   * line feeds and the carriage returns the reader strips are whitespace,
   * so cutting the text into lines neither joins nor splits words.
   */
  lemma WordsTally(content: string)
    ensures MetricsOf(content).words == Words(content)
  {
    ScanWords(content, []);
    assert [] + content == content;
  }

  /**
   * When every line ends in a bare line feed, the character count is the
   * byte length of the file.
   */
  lemma CharsOfTerminatedText(content: string)
    requires content == [] || content[|content| - 1] == '\n'
    requires CrLfCount(content) == 0
    ensures MetricsOf(content).chars == ByteLen(content)
  {
    CharsTally(content);
  }

  /**
   * When the last line has no line feed (and no line ends in `"\r\n"`), the
   * character count is one more than the byte length of the file.
   */
  lemma CharsOfOpenText(content: string)
    requires EndsOpen(content)
    requires CrLfCount(content) == 0
    ensures MetricsOf(content).chars == ByteLen(content) + 1
  {
    CharsTally(content);
  }

  /** `"hello world\n"` is one line of two words and twelve characters. */
  lemma HelloWorld(content: string)
    requires content == "hello world\n"
    ensures MetricsOf(content) == Metrics(12, 2, 1)
  {
    var l := content[..11];
    assert content == l + ['\n'];
    assert Lines(content) == [l] by {
      var none: seq<string> := [];
      assert [l][1..] == none;
      assert Unlines([l]) == content;
      LinesUnlines([l]);
    }
    assert Words(l) == 2 by {
      assert l == l[..5] + [' '] + l[6..];
      WordsSplit(l[..5], ' ', l[6..]);
      SingleWord(l[..5]);
      SingleWord(l[6..]);
    }
    assert ByteLen(l) == 11 by {
      ByteLenAscii(l);
    }
    MeasureSingle(l);
  }
}
