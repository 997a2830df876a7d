/**
 * The parts of Rust's standard library that the word-count scan relies on,
 * stated over already-decoded text (a `string` is a sequence of Unicode
 * scalar values, which is exactly what a successfully decoded UTF-8 file is):
 *
 *  - `str::len`, the length of a line in UTF-8 bytes (`ByteLen`);
 *  - `char::is_whitespace` and `str::split_whitespace().count()` (`Words`);
 *  - `BufRead::lines`, the line reader (`Lines`).
 */
module Utf8Text {

  // ---------------------------------------------------------------------
  // Byte length
  // ---------------------------------------------------------------------

  /** Number of bytes the UTF-8 encoding of `c` occupies. */
  function Width(c: char): (n: nat)
    ensures 1 <= n <= 4
    ensures n == 1 <==> (c as int) < 0x80
  {
    if (c as int) < 0x80 then 1
    else if (c as int) < 0x800 then 2
    else if (c as int) < 0x1_0000 then 3
    else 4
  }

  /** Length in bytes of the UTF-8 encoding of `s` (what `str::len` returns). */
  function ByteLen(s: string): (n: nat)
    ensures |s| <= n <= 4 * |s|
  {
    if s == [] then 0 else Width(s[0]) + ByteLen(s[1..])
  }

  /** Byte length is additive over concatenation. */
  lemma {:induction false} ByteLenAppend(a: string, b: string)
    ensures ByteLen(a + b) == ByteLen(a) + ByteLen(b)
  {
    if a != [] {
      assert (a + b)[0] == a[0] && (a + b)[1..] == a[1..] + b;
      ByteLenAppend(a[1..], b);
    } else {
      assert a + b == b;
    }
  }

  /** On ASCII text the byte length is the number of characters. */
  lemma {:induction false} ByteLenAscii(s: string)
    requires forall i :: 0 <= i < |s| ==> (s[i] as int) < 0x80
    ensures ByteLen(s) == |s|
  {
    if s != [] {
      ByteLenAscii(s[1..]);
    }
  }

  // ---------------------------------------------------------------------
  // Words
  // ---------------------------------------------------------------------

  /**
   * `char::is_whitespace`: the characters with the Unicode White_Space
   * property.
   */
  predicate IsWhitespace(c: char)
  {
    var n := c as int;
    (0x09 <= n <= 0x0D) || n == 0x20 || n == 0x85 || n == 0xA0 || n == 0x1680
    || (0x2000 <= n <= 0x200A) || n == 0x2028 || n == 0x2029 || n == 0x202F
    || n == 0x205F || n == 0x3000
  }

  /**
   * Number of maximal runs of non-whitespace characters in `s`, where
   * `inWord` says whether the character just before `s` was part of a run.
   */
  function Runs(s: string, inWord: bool): (n: nat)
    ensures 2 * n <= |s| + (if inWord then 0 else 1)
  {
    if s == [] then 0
    else if IsWhitespace(s[0]) then Runs(s[1..], false)
    else (if inWord then 0 else 1) + Runs(s[1..], true)
  }

  /**
   * `split_whitespace().count()`: the number of maximal runs of
   * non-whitespace characters. There are at most half as many (rounded up)
   * as there are characters, since runs are separated by whitespace.
   */
  function Words(s: string): (n: nat)
    ensures 2 * n <= |s| + 1
    ensures n <= |s|
  {
    Runs(s, false)
  }

  lemma {:induction false} RunsSplit(a: string, c: char, b: string, inWord: bool)
    requires IsWhitespace(c)
    ensures Runs(a + [c] + b, inWord) == Runs(a, inWord) + Words(b)
  {
    if a == [] {
      assert [c] + b == a + [c] + b;
      assert ([c] + b)[1..] == b;
    } else {
      assert (a + [c] + b)[1..] == a[1..] + [c] + b;
      RunsSplit(a[1..], c, b, !IsWhitespace(a[0]));
    }
  }

  /** A whitespace character separates the words on either side of it. */
  lemma WordsSplit(a: string, c: char, b: string)
    requires IsWhitespace(c)
    ensures Words(a + [c] + b) == Words(a) + Words(b)
  {
    RunsSplit(a, c, b, false);
  }

  /**
   * A non-empty run of whitespace, wherever it stands (leading, trailing or
   * between two words) and however long it is, adds no word.
   */
  lemma {:induction false} WordsWhitespaceRun(a: string, w: string, b: string)
    requires w != []
    requires forall i :: 0 <= i < |w| ==> IsWhitespace(w[i])
    ensures Words(a + w + b) == Words(a) + Words(b)
    decreases |w|
  {
    assert a + w + b == a + [w[0]] + (w[1..] + b);
    WordsSplit(a, w[0], w[1..] + b);
    if w[1..] != [] {
      WordsWhitespaceRun([], w[1..], b);
      assert [] + w[1..] + b == w[1..] + b;
    } else {
      assert w[1..] + b == b;
    }
  }

  lemma {:induction false} RunsInsideWord(s: string)
    requires forall i :: 0 <= i < |s| ==> !IsWhitespace(s[i])
    ensures Runs(s, true) == 0
  {
    if s != [] {
      RunsInsideWord(s[1..]);
    }
  }

  /** A non-empty string without whitespace is exactly one word. */
  lemma SingleWord(s: string)
    requires s != []
    requires forall i :: 0 <= i < |s| ==> !IsWhitespace(s[i])
    ensures Words(s) == 1
  {
    RunsInsideWord(s[1..]);
  }

  /** `"a   b"` has two words: repeated spaces do not add any. */
  lemma WordsExample()
    ensures Words("a   b") == 2
  {
    assert "a   b" == "a" + "   " + "b";
    WordsWhitespaceRun("a", "   ", "b");
    SingleWord("a");
    SingleWord("b");
  }

  // ---------------------------------------------------------------------
  // Lines
  // ---------------------------------------------------------------------

  /** No line feed anywhere in `s`. */
  predicate NoNewline(s: string)
  {
    forall k :: 0 <= k < |s| ==> s[k] != '\n'
  }

  /** Drops a carriage return that precedes a stripped line feed. */
  function StripCR(l: string): string
  {
    if l != [] && l[|l| - 1] == '\r' then l[..|l| - 1] else l
  }

  /** True when `s` is non-empty and its last line has no line feed. */
  predicate EndsOpen(s: string)
  {
    s != [] && s[|s| - 1] != '\n'
  }

  /**
   * The lines still to come when `line` has been read since the last line
   * feed and `s` is what is left of the text: a line feed ends the current
   * line (without its line feed and a carriage return right before it), and
   * at the end of the text a non-empty current line is yielded as it is.
   */
  function Scan(s: string, line: string): seq<string>
  {
    if s == [] then (if line == [] then [] else [line])
    else if s[0] == '\n' then [StripCR(line)] + Scan(s[1..], [])
    else Scan(s[1..], line + [s[0]])
  }

  /**
   * `BufRead::lines`: the text is cut after every line feed; each line
   * loses its line feed and, if one stands right before it, a carriage
   * return. A final fragment without a line feed is yielded as it is, and
   * only if it is non-empty.
   */
  function Lines(s: string): seq<string>
  {
    Scan(s, [])
  }

  /** Reading a line-feed-free stretch and then a line feed ends one line. */
  lemma {:induction false} ScanLine(h: string, t: string, line: string)
    requires NoNewline(h)
    ensures Scan(h + ['\n'] + t, line) == [StripCR(line + h)] + Scan(t, [])
  {
    if h == [] {
      assert h + ['\n'] + t == ['\n'] + t;
      assert line + h == line;
    } else {
      assert (h + ['\n'] + t)[1..] == h[1..] + ['\n'] + t;
      assert line + h == (line + [h[0]]) + h[1..];
      ScanLine(h[1..], t, line + [h[0]]);
    }
  }

  /** The line up to the first line feed comes first, then the lines after it. */
  lemma LinesAt(h: string, t: string)
    requires NoNewline(h)
    ensures Lines(h + ['\n'] + t) == [StripCR(h)] + Lines(t)
  {
    ScanLine(h, t, []);
    assert [] + h == h;
  }

  lemma {:induction false} ScanNoNewline(s: string, line: string)
    requires NoNewline(line)
    ensures forall k :: 0 <= k < |Scan(s, line)| ==> NoNewline(Scan(s, line)[k])
  {
    if s != [] {
      if s[0] == '\n' {
        ScanNoNewline(s[1..], []);
        assert NoNewline(StripCR(line));
      } else {
        ScanNoNewline(s[1..], line + [s[0]]);
      }
    }
  }

  /** No line the reader yields holds a line feed. */
  lemma LinesHaveNoNewline(s: string)
    ensures forall k :: 0 <= k < |Lines(s)| ==> NoNewline(Lines(s)[k])
  {
    ScanNoNewline(s, []);
  }

  lemma {:induction false} ScanCount(s: string, line: string)
    ensures |Scan(s, line)| == multiset(s)['\n']
      + (if EndsOpen(s) || (s == [] && line != []) then 1 else 0)
  {
    if s != [] {
      assert s == [s[0]] + s[1..];
      assert multiset(s) == multiset([s[0]]) + multiset(s[1..]);
      if s[1..] != [] {
        assert s[|s| - 1] == s[1..][|s[1..]| - 1];
      }
      if s[0] == '\n' {
        ScanCount(s[1..], []);
      } else {
        ScanCount(s[1..], line + [s[0]]);
      }
    }
  }

  /**
   * The reader yields one line per line feed, plus one for a final line
   * that has no line feed.
   */
  lemma LineCount(s: string)
    ensures |Lines(s)| == multiset(s)['\n'] + (if EndsOpen(s) then 1 else 0)
  {
    ScanCount(s, []);
  }

  lemma {:induction false} ScanAppend(a: string, b: string, line: string)
    requires a != [] && a[|a| - 1] == '\n'
    ensures Scan(a + b, line) == Scan(a, line) + Scan(b, [])
  {
    assert (a + b)[0] == a[0] && (a + b)[1..] == a[1..] + b;
    if a[1..] == [] {
      assert a[1..] + b == b;
    } else {
      assert a[1..][|a[1..]| - 1] == a[|a| - 1];
      if a[0] == '\n' {
        ScanAppend(a[1..], b, []);
      } else {
        ScanAppend(a[1..], b, line + [a[0]]);
      }
    }
  }

  /** Cutting after a line feed splits the reader's lines the same way. */
  lemma LinesAppend(a: string, b: string)
    requires a == [] || a[|a| - 1] == '\n'
    ensures Lines(a + b) == Lines(a) + Lines(b)
  {
    if a == [] {
      assert a + b == b;
    } else {
      ScanAppend(a, b, []);
    }
  }

  /** Joins lines back into text, ending each with a line feed. */
  function Unlines(ls: seq<string>): string
  {
    if ls == [] then [] else ls[0] + ['\n'] + Unlines(ls[1..])
  }

  /**
   * Reading back text written one line feed per line gives the same lines,
   * provided no line holds a line feed or ends in a carriage return (which
   * the reader would strip).
   */
  lemma {:induction false} LinesUnlines(ls: seq<string>)
    requires forall k :: 0 <= k < |ls| ==> NoNewline(ls[k])
    requires forall k :: 0 <= k < |ls| ==> ls[k] == [] || ls[k][|ls[k]| - 1] != '\r'
    ensures Lines(Unlines(ls)) == ls
  {
    if ls != [] {
      LinesAt(ls[0], Unlines(ls[1..]));
      LinesUnlines(ls[1..]);
      assert ls == [ls[0]] + ls[1..];
    }
  }

  /** Number of carriage returns directly followed by a line feed. */
  function CrLfCount(s: string): nat
  {
    if |s| < 2 then 0
    else (if s[0] == '\r' && s[1] == '\n' then 1 else 0) + CrLfCount(s[1..])
  }

  lemma {:induction false} CrLfCountAppend(a: string, b: string)
    ensures CrLfCount(a + b) ==
      CrLfCount(a) + CrLfCount(b)
      + (if a != [] && b != [] && a[|a| - 1] == '\r' && b[0] == '\n' then 1 else 0)
  {
    if a != [] {
      assert (a + b)[0] == a[0] && (a + b)[1..] == a[1..] + b;
      if |a + b| >= 2 {
        assert (a + b)[1] == if |a| > 1 then a[1] else b[0];
      }
      CrLfCountAppend(a[1..], b);
    } else {
      assert a + b == b;
    }
  }

  lemma {:induction false} CrLfCountNoNewline(s: string)
    requires NoNewline(s)
    ensures CrLfCount(s) == 0
  {
    if |s| >= 2 {
      assert s[1] != '\n';
      CrLfCountNoNewline(s[1..]);
    }
  }
}
