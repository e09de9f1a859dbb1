/**
 * `std::quoted` with its default delimiter `"` and escape `\`: the inserter used when a
 * record is written and the extractor used when it is read, as GNU libstdc++'s extractor
 * behaves on one line of text. (LLVM libc++ clears the target string before it skips
 * white space, so there a blank line reads as "" rather than keeping its old text.)
 */
module Quoting {
  import opened Numbers

  const DELIM: char := '"'
  const ESCAPE: char := '\\'

  /** Every delimiter and every escape character gets an escape character in front of it. */
  function Escape(s: string): (r: string)
    ensures |r| >= |s|
  {
    if s == [] then []
    else (if s[0] == DELIM || s[0] == ESCAPE then [ESCAPE, s[0]] else [s[0]]) + Escape(s[1..])
  }

  /** The inserter: `out << quoted(s)`. */
  function Quote(s: string): (r: string)
    ensures |r| >= 2 && r[0] == DELIM && r[|r| - 1] == DELIM
  {
    [DELIM] + Escape(s) + [DELIM]
  }

  /**
   * The body of a quoted string: characters up to the first unescaped delimiter, an escape
   * character standing for the character after it, and whatever was read when the text
   * ends first (an escape character at the very end is dropped).
   */
  function ReadUntilDelim(s: string): string
  {
    if s == [] then []
    else if s[0] == ESCAPE then (if |s| == 1 then [] else [s[1]] + ReadUntilDelim(s[2..]))
    else if s[0] == DELIM then []
    else [s[0]] + ReadUntilDelim(s[1..])
  }

  /** The characters of `s` up to its first white space (`operator>>` into a string). */
  function Word(s: string): (w: string)
    ensures w <= s && forall i :: 0 <= i < |w| ==> !IsSpace(w[i])
    ensures |w| < |s| ==> IsSpace(s[|w|])
  {
    if s == [] || IsSpace(s[0]) then [] else [s[0]] + Word(s[1..])
  }

  /**
   * `istringstream(line) >> quoted(line)`: leading white space is skipped; when nothing
   * else is left the extraction fails and `line` keeps its old text; when the next
   * character is not the delimiter, a plain white-space-delimited word is read instead.
   */
  function ReadQuoted(line: string): (r: string)
    ensures SkipSpaces(line) == [] ==> r == line
    ensures var t := SkipSpaces(line);
            t != [] && t[0] != DELIM ==>
              && r != [] && r <= t
              && (forall i :: 0 <= i < |r| ==> !IsSpace(r[i]))
              && (|r| < |t| ==> IsSpace(t[|r|]))
  {
    var t := SkipSpaces(line);
    if t == [] then line
    else if t[0] != DELIM then Word(t)
    else ReadUntilDelim(t[1..])
  }

  lemma {:induction false} EscapeAppend(a: string, b: string)
    ensures Escape(a + b) == Escape(a) + Escape(b)
  {
    if a != [] {
      assert (a + b)[1..] == a[1..] + b;
      EscapeAppend(a[1..], b);
    } else {
      assert a + b == b;
    }
  }

  /** Escaping adds only delimiters and escape characters: every other character is in the result exactly when it is in the text. */
  lemma {:induction false} EscapeKeeps(s: string, c: char)
    requires c != DELIM && c != ESCAPE
    ensures c in Escape(s) <==> c in s
  {
    if s != [] {
      EscapeKeeps(s[1..], c);
      var head := if s[0] == DELIM || s[0] == ESCAPE then [ESCAPE, s[0]] else [s[0]];
      assert Escape(s) == head + Escape(s[1..]);
      assert s == [s[0]] + s[1..];
    }
  }

  lemma ReadPlain(c: char, t: string)
    requires c != DELIM && c != ESCAPE
    ensures ReadUntilDelim([c] + t) == [c] + ReadUntilDelim(t)
  {
    assert ([c] + t)[1..] == t;
  }

  lemma ReadEscapePair(c: char, t: string)
    ensures ReadUntilDelim([ESCAPE, c] + t) == [c] + ReadUntilDelim(t)
  {
    assert ([ESCAPE, c] + t)[2..] == t;
  }

  lemma EscapeHead(s: string, rest: string)
    requires s != []
    ensures ReadUntilDelim(Escape(s) + rest) == [s[0]] + ReadUntilDelim(Escape(s[1..]) + rest)
  {
    var tail := Escape(s[1..]) + rest;
    if s[0] == DELIM || s[0] == ESCAPE {
      assert Escape(s) + rest == [ESCAPE, s[0]] + tail;
      ReadEscapePair(s[0], tail);
    } else {
      assert Escape(s) + rest == [s[0]] + tail;
      ReadPlain(s[0], tail);
    }
  }

  /** Reading an escaped text yields the text itself, then whatever follows it is read on. */
  lemma {:induction false} ReadEscaped(s: string, rest: string)
    ensures ReadUntilDelim(Escape(s) + rest) == s + ReadUntilDelim(rest)
  {
    if s == [] {
      assert Escape(s) + rest == rest;
    } else {
      EscapeHead(s, rest);
      ReadEscaped(s[1..], rest);
      assert [s[0]] + (s[1..] + ReadUntilDelim(rest)) == s + ReadUntilDelim(rest);
    }
  }

  /** Text that opens with the delimiter is read as a quoted string. */
  lemma ReadQuotedOpen(t: string)
    ensures ReadQuoted([DELIM] + t) == ReadUntilDelim(t)
  {
    var q := [DELIM] + t;
    assert SkipSpaces(q) == q;
    assert q[1..] == t;
  }

  /** Round trip: every string, spaces, delimiters and escapes included, survives quoting. */
  lemma QuoteRoundTrip(s: string)
    ensures ReadQuoted(Quote(s)) == s
  {
    assert Quote(s) == [DELIM] + (Escape(s) + [DELIM]);
    ReadQuotedOpen(Escape(s) + [DELIM]);
    ReadEscaped(s, [DELIM]);
    assert ReadUntilDelim([DELIM]) == [];
    assert s + [] == s;
  }

  /** A quoted text cut short before its closing delimiter reads as the part that was escaped. */
  lemma UnterminatedQuote(s: string)
    ensures ReadQuoted([DELIM] + Escape(s)) == s
  {
    ReadQuotedOpen(Escape(s));
    assert Escape(s) + [] == Escape(s);
    ReadEscaped(s, []);
    assert s + [] == s;
  }
}
