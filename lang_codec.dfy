/**
 * The `.lang` resource format of file_manager.py: one `key=value` pair per line.
 * `Decode`/`ReadLangFile` model `_read_lang_file` on the text of the file,
 * `Encode`/`WriteLangFile` model `_write_lang_file` up to the text it writes.
 */
module LangCodec {
  import opened Errors
  import opened PyStr
  import opened Dict

  /**
   * One line, stripped: nothing if it is blank, otherwise `key, value = line.split('=')`,
   * which raises unless the split gives exactly two parts.
   */
  function ParseLine(line: string): Result<Option<Entry>>
  {
    var t := Strip(line);
    if t == [] then Ok(None)
    else
      var parts := Split(t, '=');
      if |parts| == 2 then Ok(Some(Entry(parts[0], parts[1]))) else Err(LangLineUnpack(t, |parts|))
  }

  /** The dict after one more line has been read into it. */
  function Absorb(r: Result<Entries>, line: string): Result<Entries>
  {
    match r
    case Err(_) => r
    case Ok(data) =>
      match ParseLine(line)
      case Err(e) => Err(e)
      case Ok(None) => r
      case Ok(Some(e)) => Ok(Put(data, e.key, e.value))
  }

  /** The dict `_read_lang_file` builds from the given lines, or the error it raises. */
  function DecodeLines(lines: seq<string>): Result<Entries>
  {
    if lines == [] then Ok([]) else Absorb(DecodeLines(lines[..|lines| - 1]), lines[|lines| - 1])
  }

  /** `_read_lang_file` on a file with the given text. */
  function Decode(text: string): Result<Entries>
  {
    DecodeLines(Lines(text))
  }

  /** The loop of `_read_lang_file`. */
  method ReadLangFile(text: string) returns (r: Result<Entries>)
    ensures r == Decode(text)
  {
    var lines := Lines(text);
    var data: Entries := [];
    var i := 0;
    while i < |lines|
      invariant 0 <= i <= |lines|
      invariant DecodeLines(lines[..i]) == Ok(data)
    {
      ReadStep(lines, i, data);
      var line := Strip(lines[i]);
      if line != [] {
        var parts := Split(line, '=');
        if |parts| != 2 {
          r := Err(LangLineUnpack(line, |parts|));
          DecodeErrPersists(lines, i + 1);
          return;
        }
        data := Put(data, parts[0], parts[1]);
      }
      i := i + 1;
    }
    DecodeAll(lines);
    r := Ok(data);
  }

  /** What reading line `i` does to the dict built from the lines before it. */
  lemma ReadStep(lines: seq<string>, i: nat, data: Entries)
    requires i < |lines| && DecodeLines(lines[..i]) == Ok(data)
    ensures var line := Strip(lines[i]); var parts := Split(line, '=');
      DecodeLines(lines[..i + 1])
        == if line == [] then Ok(data)
           else if |parts| != 2 then Err(LangLineUnpack(line, |parts|))
           else Ok(Put(data, parts[0], parts[1]))
  {
    DecodeLastLine(lines, i);
  }

  /** Once a line has raised, the lines after it are never read. */
  lemma {:induction false} DecodeErrPersists(lines: seq<string>, i: nat)
    requires i <= |lines| && DecodeLines(lines[..i]).Err?
    ensures DecodeLines(lines) == DecodeLines(lines[..i])
    decreases |lines| - i
  {
    if i < |lines| {
      assert lines[..i + 1][..i] == lines[..i];
      DecodeErrPersists(lines, i + 1);
    } else {
      assert lines[..i] == lines;
    }
  }

  /** A line of white space only is skipped. */
  lemma BlankParses(b: string)
    requires AllSpace(b)
    ensures ParseLine(b) == Ok(None)
  {
    StripEmptyIff(b);
  }

  /** Inserting a blank line anywhere in a file changes nothing that is read from it. */
  lemma {:induction false} DecodeSkipsBlank(a: seq<string>, b: string, c: seq<string>)
    requires AllSpace(b)
    ensures DecodeLines(a + [b] + c) == DecodeLines(a + c)
    decreases |c|
  {
    if c == [] {
      assert a + [b] + c == a + [b] && a + c == a;
      DecodeSnoc(a, b);
      BlankParses(b);
    } else {
      var n := |c| - 1;
      var p, q, x := a + [b] + c[..n], a + c[..n], c[n];
      DecodeSkipsBlank(a, b, c[..n]);
      LastSplit(a, b, c);
      DecodeSnoc(p, x);
      DecodeSnoc(q, x);
    }
  }

  /** Reading a file with one more line at the end. */
  lemma DecodeSnoc(p: seq<string>, x: string)
    ensures DecodeLines(p + [x]) == Absorb(DecodeLines(p), x)
  {
    assert (p + [x])[..|p|] == p;
  }

  lemma LastSplit(a: seq<string>, b: string, c: seq<string>)
    requires c != []
    ensures var n := |c| - 1;
      a + [b] + c == (a + [b] + c[..n]) + [c[n]] && a + c == (a + c[..n]) + [c[n]]
  {
    assert c == c[..|c| - 1] + [c[|c| - 1]];
  }

  /** A line `_read_lang_file` accepts: only white space, or exactly one `=`. */
  predicate WellFormed(line: string)
  {
    AllSpace(line) || Count(line, '=') == 1
  }

  /** The `key`/`value` pairs of the non-blank lines, in file order. */
  function Pairs(lines: seq<string>): Entries
  {
    if lines == [] then [] else
      var n := |lines| - 1;
      match ParseLine(lines[n])
      case Ok(Some(e)) => Pairs(lines[..n]) + [e]
      case _ => Pairs(lines[..n])
  }

  /** A line is well formed exactly when reading it raises nothing. */
  lemma WellFormedParses(line: string)
    ensures WellFormed(line) <==> ParseLine(line).Ok?
  {
    StripEmptyIff(line);
    CountStrip(line, '=');
  }

  lemma AbsorbOk(r: Result<Entries>, line: string)
    ensures Absorb(r, line).Ok? <==> r.Ok? && ParseLine(line).Ok?
  {
  }

  /** Every line is well formed, stated line by line from the front. */
  predicate AllWellFormed(lines: seq<string>)
  {
    lines == [] || (AllWellFormed(lines[..|lines| - 1]) && WellFormed(lines[|lines| - 1]))
  }

  /** Reading succeeds exactly when every line is well formed. */
  lemma {:induction false} DecodeOkIff(lines: seq<string>)
    ensures DecodeLines(lines).Ok? <==> AllWellFormed(lines)
  {
    if lines != [] {
      var n := |lines| - 1;
      DecodeOkIff(lines[..n]);
      WellFormedParses(lines[n]);
      AbsorbOk(DecodeLines(lines[..n]), lines[n]);
    }
  }

  lemma {:induction false} AllWellFormedAt(lines: seq<string>, j: nat)
    requires j < |lines|
    ensures AllWellFormed(lines) ==> WellFormed(lines[j])
  {
    var n := |lines| - 1;
    if j < n {
      AllWellFormedAt(lines[..n], j);
      assert lines[..n][j] == lines[j];
    }
  }

  lemma {:induction false} AllWellFormedOfEach(lines: seq<string>)
    requires forall i :: 0 <= i < |lines| ==> WellFormed(lines[i])
    ensures AllWellFormed(lines)
  {
    if lines != [] {
      var n := |lines| - 1;
      forall i | 0 <= i < n
        ensures WellFormed(lines[..n][i])
      {
        assert lines[..n][i] == lines[i];
      }
      AllWellFormedOfEach(lines[..n]);
    }
  }

  /** A line that is not well formed, wherever it stands, makes the read fail. */
  lemma BadLineFails(lines: seq<string>, j: nat)
    requires j < |lines| && !WellFormed(lines[j])
    ensures DecodeLines(lines).Err?
  {
    DecodeOkIff(lines);
    AllWellFormedAt(lines, j);
  }

  /** When every line is well formed the read succeeds. */
  lemma GoodLinesSucceed(lines: seq<string>)
    requires forall i :: 0 <= i < |lines| ==> WellFormed(lines[i])
    ensures DecodeLines(lines).Ok?
  {
    AllWellFormedOfEach(lines);
    DecodeOkIff(lines);
  }

  /** A successful read builds its dict from the pairs of the non-blank lines, in order, later pairs overwriting earlier ones. */
  lemma {:induction false} DecodeValue(lines: seq<string>)
    requires DecodeLines(lines).Ok?
    ensures DecodeLines(lines).value == FromPairs(Pairs(lines))
  {
    if lines != [] {
      var n := |lines| - 1;
      var init := lines[..n];
      DecodeValue(init);
      match ParseLine(lines[n])
      case Ok(Some(e)) =>
        assert (Pairs(init) + [e])[..|Pairs(init)|] == Pairs(init);
      case _ =>
    }
  }

  /**
   * The first line that is not well formed is the one reported, with its stripped text
   * and the number of parts its split gave.
   */
  lemma DecodeReportsFirstBad(lines: seq<string>, j: nat)
    requires j < |lines| && !WellFormed(lines[j])
    requires forall i :: 0 <= i < j ==> WellFormed(lines[i])
    ensures DecodeLines(lines) == Err(LangLineUnpack(Strip(lines[j]), Count(lines[j], '=') + 1))
  {
    GoodPrefixSucceeds(lines, j);
    DecodeLastLine(lines, j);
    BadLineReported(lines[j]);
    DecodeErrPersists(lines, j + 1);
  }

  /** A prefix of well-formed lines reads without error. */
  lemma GoodPrefixSucceeds(lines: seq<string>, j: nat)
    requires j <= |lines|
    requires forall i :: 0 <= i < j ==> WellFormed(lines[i])
    ensures DecodeLines(lines[..j]).Ok?
  {
    var init := lines[..j];
    forall i | 0 <= i < j
      ensures WellFormed(init[i])
    {
      assert init[i] == lines[i];
    }
    GoodLinesSucceed(init);
  }

  lemma DecodeAll(lines: seq<string>)
    ensures DecodeLines(lines[..|lines|]) == DecodeLines(lines)
  {
    assert lines[..|lines|] == lines;
  }

  /** Reading one more line of the file. */
  lemma DecodeLastLine(lines: seq<string>, j: nat)
    requires j < |lines|
    ensures DecodeLines(lines[..j + 1]) == Absorb(DecodeLines(lines[..j]), lines[j])
  {
    assert lines[..j + 1][..j] == lines[..j];
  }

  /** The error a line that is not well formed raises. */
  lemma BadLineReported(line: string)
    requires !WellFormed(line)
    ensures ParseLine(line) == Err(LangLineUnpack(Strip(line), Count(line, '=') + 1))
  {
    WellFormedParses(line);
    CountStrip(line, '=');
  }

  /**
   * What a successful read holds: each key once, in order of its first line,
   * with the value of its last line.
   */
  lemma DecodeLastWriteWins(text: string, m: Entries, k: string)
    requires Decode(text) == Ok(m)
    ensures UniqueKeys(m)
    ensures Keys(m) == FirstOccurrences(Keys(Pairs(Lines(text))))
    ensures Get(m, k) == LastValue(Pairs(Lines(text)), k)
  {
    DecodeValue(Lines(text));
    FromPairsUnique(Pairs(Lines(text)));
    FromPairsKeys(Pairs(Lines(text)));
    FromPairsGet(Pairs(Lines(text)), k);
  }

  /** A line with a second `=`, such as a value that contains one, makes the whole read fail. */
  lemma RejectsSecondEquals(a: seq<string>, key: string, value: string, c: seq<string>)
    requires '=' in value
    ensures DecodeLines(a + [key + "=" + value] + c).Err?
  {
    var lines := a + [key + "=" + value] + c;
    var l := key + "=" + value;
    assert lines[|a|] == l;
    var i :| 0 <= i < |value| && value[i] == '=';
    assert l[|key|] == '=' && l[|key| + 1 + i] == '=';
    CountTwo(l, |key|, |key| + 1 + i);
    AllSpaceAt(l);
    BadLineFails(lines, |a|);
  }

  /** A character found at two positions is counted at least twice. */
  lemma {:induction false} CountTwo(s: string, i: nat, j: nat)
    requires i < j < |s| && s[i] == s[j]
    ensures Count(s, s[i]) >= 2
  {
    if i > 0 {
      CountTwo(s[1..], i - 1, j - 1);
    } else {
      CountAtLeastOne(s[1..], j - 1, s[i]);
    }
  }

  lemma {:induction false} CountAtLeastOne(s: string, j: nat, c: char)
    requires j < |s| && s[j] == c
    ensures Count(s, c) >= 1
  {
    if j > 0 {
      CountAtLeastOne(s[1..], j - 1, c);
    }
  }

  /** The line `_write_lang_file` emits for one entry. */
  function EntryLine(e: Entry): string
  {
    e.key + "=" + e.value + "\n"
  }

  /** The text `_write_lang_file` writes: the entries' lines in dict order. */
  function Encode(m: Entries): string
  {
    if m == [] then "" else Encode(m[..|m| - 1]) + EntryLine(m[|m| - 1])
  }

  /** The loop of `_write_lang_file`. */
  method WriteLangFile(data: Entries) returns (text: string)
    ensures text == Encode(data)
  {
    text := "";
    var i := 0;
    while i < |data|
      invariant 0 <= i <= |data|
      invariant text == Encode(data[..i])
    {
      assert data[..i + 1][..i] == data[..i];
      text := text + data[i].key + "=" + data[i].value + "\n";
      i := i + 1;
    }
    assert data[..i] == data;
  }

  /** The entry lines of a dict, one per entry, in order. */
  function EntryLines(m: Entries): seq<string>
  {
    seq(|m|, i requires 0 <= i < |m| => EntryLine(m[i]))
  }

  lemma {:induction false} ConcatSnoc(ss: seq<string>, s: string)
    ensures Concat(ss + [s]) == Concat(ss) + s
  {
    if ss == [] {
      assert [s][1..] == [];
    } else {
      assert (ss + [s])[1..] == ss[1..] + [s];
      ConcatSnoc(ss[1..], s);
    }
  }

  lemma {:induction false} EncodeIsConcat(m: Entries)
    ensures Encode(m) == Concat(EntryLines(m))
  {
    if m != [] {
      var n := |m| - 1;
      EncodeIsConcat(m[..n]);
      assert EntryLines(m) == EntryLines(m[..n]) + [EntryLine(m[n])];
      ConcatSnoc(EntryLines(m[..n]), EntryLine(m[n]));
    }
  }

  /**
   * No line break in `s`: reading in text mode ends a line at `'\n'` and also at `'\r'`
   * (universal newlines), so neither may occur inside a key or a value that is to be read back.
   */
  predicate NoBreak(s: string)
  {
    '\n' !in s && '\r' !in s
  }

  /** Neither key nor value holds a line break. */
  predicate SingleLine(m: Entries)
  {
    forall i :: 0 <= i < |m| ==> NoBreak(m[i].key) && NoBreak(m[i].value)
  }

  /** Writing emits exactly one `key=value` line per entry, in dict order; an empty dict gives an empty text. */
  lemma EncodeLines(m: Entries)
    requires SingleLine(m)
    ensures Lines(Encode(m)) == EntryLines(m)
    ensures m == [] <==> Encode(m) == []
  {
    EncodeIsConcat(m);
    forall i | 0 <= i < |m|
      ensures var l := EntryLines(m)[i]; l != [] && l[|l| - 1] == '\n' && '\n' !in l[..|l| - 1]
    {
      var l := EntryLine(m[i]);
      assert l[..|l| - 1] == m[i].key + "=" + m[i].value;
    }
    LinesOfTerminated(EntryLines(m));
    if m != [] {
      assert |Encode(m)| >= |EntryLine(m[|m| - 1])| > 0;
    }
  }

  /** The dicts that survive a write followed by a read. */
  predicate Storable(m: Entries)
  {
    && UniqueKeys(m)
    && SingleLine(m)
    && (forall i :: 0 <= i < |m| ==> '=' !in m[i].key && '=' !in m[i].value)
    && (forall i :: 0 <= i < |m| ==> m[i].key != [] ==> !IsSpace(m[i].key[0]))
    && (forall i :: 0 <= i < |m| ==> m[i].value != [] ==> !IsSpace(m[i].value[|m[i].value| - 1]))
  }

  /** The line written for an entry of a storable dict reads back as that entry. */
  lemma ParseEntryLine(e: Entry)
    requires '=' !in e.key && '=' !in e.value && NoBreak(e.key) && NoBreak(e.value)
    requires e.key != [] ==> !IsSpace(e.key[0])
    requires e.value != [] ==> !IsSpace(e.value[|e.value| - 1])
    ensures ParseLine(EntryLine(e)) == Ok(Some(e))
  {
    var x := e.key + "=" + e.value;
    assert EntryLine(e) == x + "\n";
    assert x[0] == (if e.key != [] then e.key[0] else '=');
    assert x[|x| - 1] == (if e.value != [] then e.value[|e.value| - 1] else '=');
    StripTerminated(x);
    SplitPair(e.key, e.value, '=');
    assert e.key + ['='] + e.value == x;
  }

  /** A line whose text neither starts nor ends with white space strips to that text. */
  lemma StripTerminated(x: string)
    requires x != [] && !IsSpace(x[0]) && !IsSpace(x[|x| - 1])
    ensures Strip(x + "\n") == x
  {
    assert TrimStart(x + "\n") == x + "\n";
    assert (x + "\n")[..|x|] == x;
    assert TrimEnd(x + "\n") == TrimEnd(x);
    StripNoEdges(x);
  }

  lemma {:induction false} DecodeEntryLines(m: Entries)
    requires Storable(m)
    ensures DecodeLines(EntryLines(m)) == Ok(FromPairs(m))
  {
    if m != [] {
      var n := |m| - 1;
      var ls := EntryLines(m);
      StorablePrefix(m, n);
      DecodeEntryLines(m[..n]);
      EntryLinesPrefix(m, n);
      StorableEntryParses(m, n);
      assert ls[..|ls| - 1] == ls[..n];
      assert DecodeLines(ls) == Absorb(DecodeLines(ls[..n]), ls[n]);
    }
  }

  lemma EntryLinesPrefix(m: Entries, n: nat)
    requires n < |m|
    ensures EntryLines(m)[..n] == EntryLines(m[..n]) && EntryLines(m)[n] == EntryLine(m[n])
  {
  }

  lemma StorableEntryParses(m: Entries, i: nat)
    requires Storable(m) && i < |m|
    ensures ParseLine(EntryLine(m[i])) == Ok(Some(m[i]))
  {
    ParseEntryLine(m[i]);
  }

  lemma StorablePrefix(m: Entries, n: nat)
    requires Storable(m) && n <= |m|
    ensures Storable(m[..n])
  {
    var p := m[..n];
    forall i | 0 <= i < n
      ensures p[i] == m[i]
    {
    }
  }

  /** Round trip: reading back what was written gives the same dict, same keys in the same order. */
  lemma RoundTrip(m: Entries)
    requires Storable(m)
    ensures Decode(Encode(m)) == Ok(m)
  {
    EncodeLines(m);
    DecodeEntryLines(m);
    FromPairsOfUnique(m);
  }
}
