/**
 * One view-state record (`MetadataEntry`) and its four-line text file:
 *
 *   XOJ-METADATA/1.0
 *   "<document path, quoted>"
 *   page=<n>
 *   zoom=<z>
 *
 * The zoom factor is a `double` in the application; here it is an integer stand-in,
 * written in decimal and read back by its leading number.
 */
module MetadataCodec {
  import opened Numbers
  import opened Quoting
  import opened FilePaths

  const HEADER: string := "XOJ-METADATA/1.0"
  const PAGE_KEY: string := "page="
  const ZOOM_KEY: string := "zoom="

  /**
   * `metadataFile` is the name of the file the record was read from ("" for a record
   * that has none); `time` is the write time, taken from that name.
   */
  datatype Entry = Entry(metadataFile: string, valid: bool, path: string, zoom: int, page: Int32, time: Int64)

  /** The "no data" sentinel a default-constructed `MetadataEntry` is. */
  function DefaultEntry(): (e: Entry)
    ensures !e.valid && e.zoom == 1 && e.page == 0 && e.time == 0
    ensures e.path == "" && e.metadataFile == ""
  {
    Entry("", false, "", 1, 0, 0)
  }

  /** Length of the first line of `s`, up to (not including) its line break. */
  function LineEnd(s: string): (k: nat)
    ensures k <= |s| && '\n' !in s[..k]
    ensures k < |s| ==> s[k] == '\n'
  {
    if s == [] || s[0] == '\n' then 0 else 1 + LineEnd(s[1..])
  }

  /**
   * The lines successive `getline` calls return: text split at each '\n', the break
   * itself dropped, and a last line only when text follows the last break.
   */
  function Lines(s: string): (ls: seq<string>)
    ensures forall i :: 0 <= i < |ls| ==> '\n' !in ls[i]
    decreases |s|
  {
    if s == [] then []
    else
      var k := LineEnd(s);
      [s[..k]] + (if k < |s| then Lines(s[k + 1..]) else [])
  }

  /** Each line written out followed by '\n'. */
  function JoinLines(ls: seq<string>): string
  {
    if ls == [] then [] else ls[0] + "\n" + JoinLines(ls[1..])
  }

  /** `line.length() >= 6 && line.substr(0, 5) == key` */
  predicate HasKey(line: string, key: string)
    requires |key| == 5
  {
    |line| >= 6 && line[..5] == key
  }

  /** The structural checks a record file must pass. */
  predicate WellFormed(ls: seq<string>)
  {
    && |ls| >= 4
    && ls[0] == HEADER
    && HasKey(ls[2], PAGE_KEY)
    && HasKey(ls[3], ZOOM_KEY)
  }

  /** What `storeMetadata` writes for a record: its path, page and zoom. */
  function Encode(m: Entry): string
  {
    JoinLines([HEADER, Quote(m.path), PAGE_KEY + IntToString(m.page), ZOOM_KEY + IntToString(m.zoom)])
  }

  /**
   * `loadMetadataFile` without its side effect: the record read from file `name` whose
   * text is `content`. The time comes from the file name before anything is checked, and
   * the fields are filled in as the lines are read, so a record that fails a later check
   * keeps what the earlier lines gave it.
   */
  function ParseFile(name: string, content: string): (e: Entry)
    ensures e.metadataFile == name && e.time == StrToLL(Stem(name))
    ensures e.valid <==> WellFormed(Lines(content))
    ensures Lines(content) == [] || Lines(content)[0] != HEADER ==>
              e == DefaultEntry().(metadataFile := name, time := StrToLL(Stem(name)))
  {
    var ls := Lines(content);
    var e0 := DefaultEntry().(metadataFile := name, time := StrToLL(Stem(name)));
    if |ls| < 1 || ls[0] != HEADER then e0
    else if |ls| < 2 then e0
    else
      var e1 := e0.(path := ReadQuoted(ls[1]));
      if |ls| < 3 || !HasKey(ls[2], PAGE_KEY) then e1
      else
        var e2 := e1.(page := Narrow32(StrToLL(ls[2][5..])));
        if |ls| < 4 || !HasKey(ls[3], ZOOM_KEY) then e2
        else e2.(zoom := LeadingInt(ls[3][5..]), valid := true)
  }

  lemma {:induction false} LineEndAt(a: string, rest: string)
    requires '\n' !in a
    ensures LineEnd(a + "\n" + rest) == |a|
  {
    if a != [] {
      assert (a + "\n" + rest)[1..] == a[1..] + "\n" + rest;
      LineEndAt(a[1..], rest);
    }
  }

  lemma LinesCons(a: string, rest: string)
    requires '\n' !in a
    ensures Lines(a + "\n" + rest) == [a] + Lines(rest)
  {
    var s := a + "\n" + rest;
    LineEndAt(a, rest);
    assert s[..|a|] == a;
    assert s[|a| + 1..] == rest;
  }

  /** Lines joined with line breaks split back into the same lines. */
  lemma {:induction false} LinesOfJoin(ls: seq<string>)
    requires forall i :: 0 <= i < |ls| ==> '\n' !in ls[i]
    ensures Lines(JoinLines(ls)) == ls
  {
    if ls != [] {
      LinesCons(ls[0], JoinLines(ls[1..]));
      LinesOfJoin(ls[1..]);
    }
  }

  lemma NoBreakInNumber(key: string, n: int)
    requires '\n' !in key
    ensures '\n' !in key + IntToString(n)
  {
    var s := IntToString(n);
    assert forall i :: 0 <= i < |s| ==> s[i] != '\n';
  }

  lemma KeyedNumber(key: string, n: int)
    requires |key| == 5
    ensures HasKey(key + IntToString(n), key)
    ensures (key + IntToString(n))[5..] == IntToString(n)
  {
    assert (key + IntToString(n))[..5] == key;
  }

  /** The record a well-formed file holds, field by field. */
  lemma FieldsOfWellFormed(name: string, content: string)
    requires WellFormed(Lines(content))
    ensures var ls := Lines(content);
            ParseFile(name, content) ==
              Entry(name, true, ReadQuoted(ls[1]), LeadingInt(ls[3][5..]), Narrow32(StrToLL(ls[2][5..])), StrToLL(Stem(name)))
  {
  }

  /** The four lines of a record file whose path has no line break. */
  lemma LinesOfEncode(m: Entry)
    requires '\n' !in m.path
    ensures Lines(Encode(m)) == [HEADER, Quote(m.path), PAGE_KEY + IntToString(m.page), ZOOM_KEY + IntToString(m.zoom)]
  {
    NoBreakInNumber(PAGE_KEY, m.page);
    NoBreakInNumber(ZOOM_KEY, m.zoom);
    EscapeKeeps(m.path, '\n');
    assert '\n' !in Quote(m.path);
    LinesOfJoin([HEADER, Quote(m.path), PAGE_KEY + IntToString(m.page), ZOOM_KEY + IntToString(m.zoom)]);
  }

  /**
   * Write/read round trip: the file `storeMetadata` writes at time `now` reads back as a
   * valid record with the same path, page and zoom, whose time is the one in the file's
   * name (the pending record's own time is not written). Holds for every path without
   * a line break.
   */
  lemma EncodeRoundTrip(m: Entry, now: Int64)
    requires '\n' !in m.path
    ensures ParseFile(MetadataFileName(now), Encode(m)) == Entry(MetadataFileName(now), true, m.path, m.zoom, m.page, now)
  {
    var name, text := MetadataFileName(now), Encode(m);
    var ls := Lines(text);
    assert ls == [HEADER, Quote(m.path), PAGE_KEY + IntToString(m.page), ZOOM_KEY + IntToString(m.zoom)] by {
      LinesOfEncode(m);
    }
    assert WellFormed(ls) by {
      KeyedNumber(PAGE_KEY, m.page);
      KeyedNumber(ZOOM_KEY, m.zoom);
    }
    assert ReadQuoted(ls[1]) == m.path by {
      QuoteRoundTrip(m.path);
    }
    assert Narrow32(StrToLL(ls[2][5..])) == m.page by {
      KeyedNumber(PAGE_KEY, m.page);
      StrToLLOfIntToString(m.page);
    }
    assert LeadingInt(ls[3][5..]) == m.zoom by {
      KeyedNumber(ZOOM_KEY, m.zoom);
      LeadingIntOfIntToString(m.zoom);
    }
    assert StrToLL(Stem(name)) == now by {
      MetadataFileNameParts(now);
      StrToLLOfIntToString(now);
    }
    FieldsOfWellFormed(name, text);
  }

  /** Once the header matches, the path is whatever the second line unquotes to. */
  lemma PathFromSecondLine(name: string, content: string)
    requires |Lines(content)| >= 2 && Lines(content)[0] == HEADER
    ensures ParseFile(name, content).path == ReadQuoted(Lines(content)[1])
  {
  }

  /** The file text after the header line: the quoted path, then the page and zoom lines. */
  lemma EncodeAfterHeader(m: Entry)
    ensures Encode(m) == HEADER + "\n" + (Quote(m.path) + "\n" +
              JoinLines([PAGE_KEY + IntToString(m.page), ZOOM_KEY + IntToString(m.zoom)]))
  {
    var pz := [PAGE_KEY + IntToString(m.page), ZOOM_KEY + IntToString(m.zoom)];
    var ls := [HEADER, Quote(m.path)] + pz;
    assert ls == [HEADER, Quote(m.path), PAGE_KEY + IntToString(m.page), ZOOM_KEY + IntToString(m.zoom)];
    assert ls[1..] == [Quote(m.path)] + pz && ([Quote(m.path)] + pz)[1..] == pz;
    assert JoinLines([Quote(m.path)] + pz) == Quote(m.path) + "\n" + JoinLines(pz);
  }

  /** Quoting a path splits at its first line break into an unterminated quote and the rest. */
  lemma QuoteAtBreak(p: string, k: nat)
    requires k < |p| && p[k] == '\n'
    ensures Quote(p) == ([DELIM] + Escape(p[..k])) + "\n" + (Escape(p[k + 1..]) + [DELIM])
  {
    var a, b := p[..k], p[k + 1..];
    assert p == a + ("\n" + b);
    EscapeAppend(a, "\n" + b);
    EscapeAppend("\n", b);
    assert "\n"[1..] == [];
    assert Escape("\n") == "\n";
  }

  /** The second line of a record whose path has a line break holds only the path's first line. */
  lemma SecondLineAtBreak(m: Entry, k: nat)
    requires k < |m.path| && m.path[k] == '\n' && '\n' !in m.path[..k]
    ensures |Lines(Encode(m))| >= 2 && Lines(Encode(m))[0] == HEADER
    ensures Lines(Encode(m))[1] == [DELIM] + Escape(m.path[..k])
  {
    var p := m.path;
    QuoteAtBreak(p, k);
    EncodeAfterHeader(m);
    var first := [DELIM] + Escape(p[..k]);
    var tail := JoinLines([PAGE_KEY + IntToString(m.page), ZOOM_KEY + IntToString(m.zoom)]);
    var rest := Escape(p[k + 1..]) + [DELIM] + "\n" + tail;
    assert Encode(m) == HEADER + "\n" + (first + "\n" + rest);
    EscapeKeeps(p[..k], '\n');
    assert '\n' !in first;
    LinesCons(HEADER, first + "\n" + rest);
    LinesCons(first, rest);
  }

  /**
   * A path containing a line break does not survive: the path read back is the part before
   * the first break, and the rest of the path is taken for the following lines.
   */
  lemma LineBreakInPathIsCut(m: Entry, now: Int64)
    requires '\n' in m.path
    ensures var e := ParseFile(MetadataFileName(now), Encode(m));
            e.path < m.path && m.path[|e.path|] == '\n' && '\n' !in e.path
  {
    var p := m.path;
    var k := LineEnd(p);
    assert p[..|p|] == p;
    SecondLineAtBreak(m, k);
    PathFromSecondLine(MetadataFileName(now), Encode(m));
    UnterminatedQuote(p[..k]);
  }
}
