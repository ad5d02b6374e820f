/**
 * mod_translator.py: a stand-alone script that translates an `en_us.json` language file
 * line by line into Spanish. `normalInput` classifies each line by its `"` characters,
 * the driver loop appends structural lines verbatim and translated entries with their
 * first letter uppered, and a final `replace` removes the comma before the closing brace.
 */
module ModTranslator {
  import opened Errors
  import opened PyStr
  import opened Translation

  /** The four values `normalInput` returns. */
  datatype Classified = Classified(output: string, translatable: bool, id: string, text: string)

  /** The text written for an entry: `"id": "text",` and a newline. */
  function Quoted(id: string, text: string): string
  {
    "\"" + id + "\": \"" + text + "\",\n"
  }

  /** `normalInput(input, i)`; indexing `values[3]` raises on a line with one or two quotes. */
  function NormalInput(input: string, i: nat): Result<Classified>
  {
    var line := Replace(input, "\n", "");
    var values := Split(line, '"');
    if i == 0 then Ok(Classified("{\n", false, "", ""))
    else if |values| == 1 then Ok(Classified(if values[0] == "  " then "" else "}", false, "", ""))
    else if |values| < 4 then Err(QuoteIndex(line))
    else Ok(Classified(Quoted(values[1], values[3]), true, values[1], values[3]))
  }

  /** `input.replace("\n", "")` deletes every newline and keeps every other character. */
  lemma {:induction false} NewlinesRemoved(s: string, c: char)
    ensures '\n' !in Replace(s, "\n", "")
    ensures c != '\n' ==> Count(Replace(s, "\n", ""), c) == Count(s, c)
  {
    if s != [] {
      NewlinesRemoved(s[1..], c);
      var rest := Replace(s[1..], "\n", "");
      if s[0] == '\n' {
        assert StartsWith(s, "\n");
        assert Replace(s, "\n", "") == rest;
      } else {
        assert Replace(s, "\n", "") == [s[0]] + rest;
        assert ([s[0]] + rest)[1..] == rest;
      }
    }
  }

  /** The first line becomes `{` and a newline whatever it holds, and asks for no translation. */
  lemma NormalInputFirst(input: string)
    ensures var r := NormalInput(input, 0);
      r.Ok? && r.value.output == "{\n" && !r.value.translatable
  {
  }

  /**
   * How a line other than the first is classified, by the number of quotes it holds:
   * none gives an empty output for a line of exactly two spaces and `}` otherwise, one
   * or two raise, and three or more make a translatable entry from the text between
   * the first and second quote and the text between the third and fourth.
   */
  lemma NormalInputCases(input: string, i: nat)
    requires i != 0
    ensures var line := Replace(input, "\n", "");
      var r := NormalInput(input, i);
      && (Count(line, '"') == 0 ==> r == Ok(Classified(if line == "  " then "" else "}", false, "", "")))
      && (1 <= Count(line, '"') <= 2 ==> r == Err(QuoteIndex(line)))
      && (Count(line, '"') >= 3 ==>
            && r.Ok? && r.value.translatable
            && r.value.id == Split(line, '"')[1] && r.value.text == Split(line, '"')[3]
            && '"' !in r.value.id && '"' !in r.value.text
            && r.value.output == Quoted(r.value.id, r.value.text))
  {
    var line := Replace(input, "\n", "");
    if Count(line, '"') == 0 {
      CountZero(line, '"');
      SplitNoSep(line, '"');
    }
  }

  /** A text without newlines, followed by one, loses just that newline. */
  lemma DropFinalNewline(x: string)
    requires '\n' !in x
    ensures Replace(x + "\n", "\n", "") == x
  {
    ReplaceAtEnd(x, "\n", "");
    NotContainsChar(x, "\n", '\n');
    ReplaceAbsent(x, "\n", "");
    assert x + "" == x;
  }

  /** The quote-separated parts of an entry line. */
  lemma SplitEntryLine(k: string, v: string, tail: string)
    requires '"' !in k && '"' !in v && '"' !in tail
    ensures Split("  \"" + k + "\": \"" + v + "\"" + tail, '"') == ["  ", k, ": ", v, tail]
  {
    var d := v + ['"'] + tail;
    var c := ": " + ['"'] + d;
    var b := k + ['"'] + c;
    EntryLineShape(k, v, tail);
    SplitNoSep(tail, '"');
    SplitCons(v, tail, '"');
    assert Split(d, '"') == [v, tail];
    SplitCons(": ", d, '"');
    assert Split(c, '"') == [": ", v, tail];
    SplitCons(k, c, '"');
    assert Split(b, '"') == [k, ": ", v, tail];
    SplitCons("  ", b, '"');
  }

  /** An entry line, cut at its four quotes. */
  lemma EntryLineShape(k: string, v: string, tail: string)
    ensures "  \"" + k + "\": \"" + v + "\"" + tail == "  " + ['"'] + (k + ['"'] + (": " + ['"'] + (v + ['"'] + tail)))
  {
  }

  /**
   * An entry line of the input file, with or without its trailing comma, becomes the
   * entry with a trailing comma; its key is the id and its value the text to translate.
   */
  lemma EntryLineClassified(k: string, v: string, tail: string, i: nat)
    requires i != 0
    requires '"' !in k && '"' !in v && '"' !in tail
    requires '\n' !in k && '\n' !in v && '\n' !in tail
    ensures NormalInput("  \"" + k + "\": \"" + v + "\"" + tail + "\n", i) == Ok(Classified(Quoted(k, v), true, k, v))
  {
    var line := "  \"" + k + "\": \"" + v + "\"" + tail;
    assert '\n' !in line;
    DropFinalNewline(line);
    SplitEntryLine(k, v, tail);
  }

  /** `translation[0].upper() + translation[1:]`, or nothing for an empty translation. */
  function UpperFirst(t: string): Option<string>
  {
    if t == [] then None else Some([UpperChar(t[0])] + t[1..])
  }

  /**
   * Uppering the first letter fails only on an empty translation, keeps the length and
   * every character after the first, and changes nothing when repeated; unlike
   * `capitalize`, it does not lower the rest.
   */
  lemma UpperFirstShape(t: string)
    ensures UpperFirst(t).None? <==> t == []
    ensures UpperFirst(t).Some? ==>
      var u := UpperFirst(t).value;
      && |u| == |t| && u[0] == UpperChar(t[0]) && u[1..] == t[1..]
      && UpperFirst(u) == Some(u)
  {
    if t != [] {
      var u := [UpperChar(t[0])] + t[1..];
      UpperCharIdempotent(t[0]);
      assert u[1..] == t[1..];
    }
  }

  /** `translator.translate(input, dest='es')`: the language of the input is detected. */
  function RequestOf(text: string): Request
  {
    Request("auto", "es", text)
  }

  /** What one line adds: its text, the requests it makes, and the exception it raises, if any. */
  datatype Piece = Piece(output: string, asked: seq<Request>, error: Option<Error>)

  /** One turn of the driver loop, on line `i`. */
  function LinePiece(answer: Request -> Reply, line: string, i: nat): Piece
  {
    match NormalInput(line, i)
    case Err(e) => Piece([], [], Some(e))
    case Ok(c) =>
      if !c.translatable then Piece(c.output, [], None)
      else
        var q := RequestOf(c.text);
        match answer(q)
        case Unavailable => Piece([], [q], Some(ServiceUnavailable(c.text)))
        case Translated(x) =>
          match UpperFirst(x)
          case None => Piece([], [q], Some(EmptyTranslation(c.text)))
          case Some(y) => Piece(Quoted(c.id, y), [q], None)
  }

  /** The text assembled from line `i` on, the requests made, and the exception raised, if any. */
  datatype Assembly = Assembly(data: string, asked: seq<Request>, error: Option<Error>)

  /** The driver loop from line `i` on, stopping at the first exception. */
  function Assemble(answer: Request -> Reply, lines: seq<string>, i: nat): Assembly
    decreases |lines| - i
  {
    if i >= |lines| then Assembly([], [], None)
    else
      var p := LinePiece(answer, lines[i], i);
      if p.error.Some? then Assembly([], p.asked, p.error)
      else
        var rest := Assemble(answer, lines, i + 1);
        Assembly(p.output + rest.data, p.asked + rest.asked, rest.error)
  }

  /** The texts to translate from line `i` on, in line order, up to the first line that raises. */
  function TextsFrom(lines: seq<string>, i: nat): seq<string>
    decreases |lines| - i
  {
    if i >= |lines| then []
    else
      match NormalInput(lines[i], i)
      case Err(_) => []
      case Ok(c) => (if c.translatable then [c.text] else []) + TextsFrom(lines, i + 1)
  }

  /** Every line from `i` on is classified, and every text to translate gets a non-empty translation. */
  predicate Completes(answer: Request -> Reply, lines: seq<string>, i: nat)
    decreases |lines| - i
  {
    i >= |lines| ||
      match NormalInput(lines[i], i)
      case Err(_) => false
      case Ok(c) =>
        && (c.translatable ==> answer(RequestOf(c.text)).Translated? && answer(RequestOf(c.text)).text != [])
        && Completes(answer, lines, i + 1)
  }

  /**
   * The loop completes exactly when every line is classified and every translation is
   * non-empty; the provider is then asked once per translatable line, in line order.
   */
  lemma {:induction false} AssembleSuccess(answer: Request -> Reply, lines: seq<string>, i: nat)
    ensures Assemble(answer, lines, i).error.None? <==> Completes(answer, lines, i)
    ensures Assemble(answer, lines, i).error.None? ==>
      Assemble(answer, lines, i).asked == seq(|TextsFrom(lines, i)|, k requires 0 <= k < |TextsFrom(lines, i)| => RequestOf(TextsFrom(lines, i)[k]))
    decreases |lines| - i
  {
    if i < |lines| {
      AssembleSuccess(answer, lines, i + 1);
    }
  }

  /** `data.replace(',\n}', '\n}')`. */
  function FixTrailingComma(data: string): string
  {
    Replace(data, ",\n}", "\n}")
  }

  lemma CommaBraceNoSelfOverlap()
    ensures NoSelfOverlap(",\n}")
  {
    var p := ",\n}";
    assert p[1..][0] != p[..2][0];
    assert p[2..][0] != p[..1][0];
  }

  /**
   * The fix-up removes the comma before a closing brace at the end, and leaves a text
   * with no brace at all unchanged.
   */
  lemma FixTrailingCommaCases(a: string)
    ensures FixTrailingComma(a + ",\n}") == FixTrailingComma(a) + "\n}"
    ensures '}' !in a ==> FixTrailingComma(a) == a
  {
    CommaBraceNoSelfOverlap();
    ReplaceAtEnd(a, ",\n}", "\n}");
    if '}' !in a {
      NotContainsChar(a, ",\n}", '}');
      ReplaceAbsent(a, ",\n}", "\n}");
    }
  }

  /** What the script writes to `es_es.json`, or the exception that stops it before writing. */
  function Output(a: Assembly): Result<string>
  {
    if a.error.None? then Ok(FixTrailingComma(a.data)) else Err(a.error.value)
  }

  /** A closing brace on a line other than the first is copied. */
  lemma ClosingLine(answer: Request -> Reply, i: nat)
    requires i != 0
    ensures LinePiece(answer, "}", i) == Piece("}", [], None)
  {
    NormalInputCases("}", i);
    NotContainsChar("}", "\n", '\n');
    ReplaceAbsent("}", "\n", "");
    assert Count("}", '"') == 0;
  }

  /** An entry line whose value is translated to `x` contributes the entry with `x`, first letter uppered. */
  lemma EntryPiece(answer: Request -> Reply, k: string, v: string, x: string, i: nat)
    requires i != 0 && '"' !in k && '"' !in v && '\n' !in k && '\n' !in v
    requires answer(RequestOf(v)) == Translated(x) && x != []
    ensures LinePiece(answer, "  \"" + k + "\": \"" + v + "\"\n", i) == Piece(Quoted(k, UpperFirst(x).value), [RequestOf(v)], None)
  {
    EntryLineClassified(k, v, "", i);
    assert "  \"" + k + "\": \"" + v + "\"" + "" + "\n" == "  \"" + k + "\": \"" + v + "\"\n";
  }

  /** The text of a one-entry file after the fix-up: the comma before the brace is gone. */
  lemma OneEntryText(k: string, y: string)
    requires '}' !in k && '}' !in y
    ensures FixTrailingComma("{\n" + (Quoted(k, y) + "}")) == "{\n\"" + k + "\": \"" + y + "\"\n}"
  {
    var head := "{\n\"" + k + "\": \"" + y + "\"";
    assert "{\n" + (Quoted(k, y) + "}") == head + ",\n}";
    assert '}' !in head;
    FixTrailingCommaCases(head);
    assert head + "\n}" == "{\n\"" + k + "\": \"" + y + "\"\n}";
  }

  /**
   * A file holding one entry comes out as the opening brace, the entry with its translation,
   * first letter uppered, and the closing brace with no comma before it. Nothing is escaped:
   * a `"` or `\` in the translation is written as it is.
   */
  lemma OneEntryFile(answer: Request -> Reply, k: string, v: string, x: string)
    requires '"' !in k && '"' !in v && '\n' !in k && '\n' !in v && '}' !in k && '}' !in x
    requires answer(RequestOf(v)) == Translated(x) && x != []
    ensures var lines := ["{\n", "  \"" + k + "\": \"" + v + "\"\n", "}"];
      Output(Assemble(answer, lines, 0)) == Ok("{\n\"" + k + "\": \"" + UpperFirst(x).value + "\"\n}")
  {
    var lines := ["{\n", "  \"" + k + "\": \"" + v + "\"\n", "}"];
    var y := UpperFirst(x).value;
    EntryPiece(answer, k, v, x, 1);
    ClosingLine(answer, 2);
    AssembleEnd(answer, lines, 3, "}");
    AssembleStep(answer, lines, 2);
    assert Assemble(answer, lines, 2) == Assembly("}", [], None);
    AssembleStep(answer, lines, 1);
    assert Assemble(answer, lines, 1) == Assembly(Quoted(k, y) + "}", [RequestOf(v)], None);
    AssembleStep(answer, lines, 0);
    assert Assemble(answer, lines, 0) == Assembly("{\n" + (Quoted(k, y) + "}"), [RequestOf(v)], None);
    assert '}' !in y by {
      UpperFirstShape(x);
      assert y == [y[0]] + x[1..] && x == [x[0]] + x[1..];
    }
    OneEntryText(k, y);
  }

  /** One turn of the driver loop. */
  method AssembleLine(svc: Service, line: string, i: nat) returns (p: Piece)
    modifies svc
    ensures p == LinePiece(svc.answer, line, i)
    ensures svc.calls == old(svc.calls) + p.asked
  {
    var c := NormalInput(line, i);
    if c.Err? {
      return Piece([], [], Some(c.error));
    }
    var cl := c.value;
    if !cl.translatable {
      return Piece(cl.output, [], None);
    }
    var q := RequestOf(cl.text);
    var reply := svc.Ask(q);
    if reply.Unavailable? {
      return Piece([], [q], Some(ServiceUnavailable(cl.text)));
    }
    var translation := UpperFirst(reply.text);
    if translation.None? {
      return Piece([], [q], Some(EmptyTranslation(cl.text)));
    }
    p := Piece(Quoted(cl.id, translation.value), [q], None);
  }

  /** The driver loop and the write: the script's output and the provider calls it makes. */
  method TranslateFile(svc: Service, text: string) returns (r: Result<string>)
    modifies svc
    ensures var a := Assemble(svc.answer, Lines(text), 0);
      svc.calls == old(svc.calls) + a.asked && r == Output(a)
  {
    var lines := Lines(text);
    var answer := svc.answer;
    ghost var o := Assemble(answer, lines, 0);
    var data := "";
    var i := 0;
    while i < |lines|
      invariant i <= |lines|
      invariant var rest := Assemble(answer, lines, i);
        data + rest.data == o.data && rest.error == o.error && old(svc.calls) + o.asked == svc.calls + rest.asked
      decreases |lines| - i
    {
      ghost var before := svc.calls;
      ghost var rest := Assemble(answer, lines, i + 1);
      var p := AssembleLine(svc, lines[i], i);
      AssembleStep(answer, lines, i);
      if p.error.Some? {
        return Err(p.error.value);
      }
      AppendAssoc(data, p.output, rest.data);
      AppendAssoc(before, p.asked, rest.asked);
      data := data + p.output;
      i := i + 1;
    }
    AssembleEnd(answer, lines, i, data);
    r := Ok(FixTrailingComma(data));
  }

  /** One line of the driver loop, seen from the whole assembly. */
  lemma AssembleStep(answer: Request -> Reply, lines: seq<string>, i: nat)
    requires i < |lines|
    ensures var p := LinePiece(answer, lines[i], i); var a := Assemble(answer, lines, i);
      if p.error.Some? then a == Assembly([], p.asked, p.error)
      else var rest := Assemble(answer, lines, i + 1);
        a == Assembly(p.output + rest.data, p.asked + rest.asked, rest.error)
  {
  }

  /** Past the last line nothing more is assembled. */
  lemma AssembleEnd(answer: Request -> Reply, lines: seq<string>, i: nat, data: string)
    requires i >= |lines|
    ensures Assemble(answer, lines, i) == Assembly([], [], None) && data + [] == data
  {
  }
}
